/**
 * The per-feature bound dictionary that the tree walk fills: a Python dict
 * whose keys are the signs "<=" and ">" and whose values are thresholds.
 * A Python dict remembers insertion order and keeps a key's position when the
 * key is assigned again; the entries are therefore kept as a sequence.
 */
module Bounds {
  import opened Optional

  /** The two keys a bound dictionary can hold: "<=" (upper bound) and ">" (lower bound). */
  datatype Sign = Le | Gt

  /** One key/value pair of a bound dictionary. */
  datatype Entry = Entry(sign: Sign, threshold: real)

  /** A bound dictionary: its entries in insertion order. */
  type BoundDict = seq<Entry>

  /** The opposite sign. */
  function Other(s: Sign): Sign {
    if s == Le then Gt else Le
  }

  /**
   * No key occurs twice, as in every Python dict. With only two keys this
   * means at most two entries, and two entries carry different keys
   * (KeysDistinct states it in the general form).
   */
  predicate WellKeyed(d: BoundDict) {
    |d| <= 2 && (|d| == 2 ==> d[0].sign != d[1].sign)
  }

  /** A dictionary is well keyed exactly when no two of its entries share a key. */
  lemma KeysDistinct(d: BoundDict)
    ensures WellKeyed(d) <==> forall i, j | 0 <= i < j < |d| :: d[i].sign != d[j].sign
  {
    if |d| > 2 {
      assert d[0].sign == d[1].sign || d[0].sign == d[2].sign || d[1].sign == d[2].sign;
    }
  }

  /** d.get(s): the threshold stored under s, if any. */
  function Lookup(d: BoundDict, s: Sign): (r: Option<real>)
    ensures r.Some? ==> Entry(s, r.value) in d
  {
    if d == [] then None
    else if d[0].sign == s then Some(d[0].threshold)
    else Lookup(d[1..], s)
  }

  /**
   * In a well-keyed dictionary, looking up s yields v exactly when the entry
   * (s, v) is present, and yields nothing exactly when no entry carries s.
   */
  lemma {:induction false} LookupFindsEntry(d: BoundDict, s: Sign, v: real)
    requires WellKeyed(d)
    ensures Lookup(d, s) == Some(v) <==> Entry(s, v) in d
    ensures Lookup(d, s).None? <==> forall i | 0 <= i < |d| :: d[i].sign != s
  {
    if |d| == 2 {
      assert d[1..][0] == d[1];
      assert d[1..][1..] == [];
    } else if |d| == 1 {
      assert d[1..] == [];
    }
  }

  /**
   * d[s] = v. An existing key is overwritten where it stands; a new key is
   * appended. Nothing is compared: a later bound replaces an earlier one.
   */
  function Assign(d: BoundDict, s: Sign, v: real): (r: BoundDict)
    requires WellKeyed(d)
    ensures WellKeyed(r)
    ensures Lookup(r, s) == Some(v)
    ensures Lookup(r, Other(s)) == Lookup(d, Other(s))
    ensures Lookup(d, s).Some? ==>
      |r| == |d| && forall i | 0 <= i < |d| :: r[i] == if d[i].sign == s then Entry(s, v) else d[i]
    ensures Lookup(d, s).None? ==> r == d + [Entry(s, v)]
  {
    if d == [] then [Entry(s, v)]
    else if d[0].sign == s then [Entry(s, v)] + d[1..]
    else [d[0]] + Assign(d[1..], s, v)
  }

  /**
   * The first two entries of a dictionary carry the two different keys, so each
   * lookup returns one of them.
   */
  lemma FirstTwoEntries(d: BoundDict)
    requires WellKeyed(d) && |d| >= 2
    ensures d[1].sign == Other(d[0].sign)
    ensures Lookup(d, d[0].sign) == Some(d[0].threshold)
    ensures Lookup(d, d[1].sign) == Some(d[1].threshold)
  {
    assert d[1..][0] == d[1];
  }

  /** A one-entry dictionary has no value under the other key. */
  lemma SingleEntry(d: BoundDict)
    requires |d| == 1
    ensures Lookup(d, d[0].sign) == Some(d[0].threshold)
    ensures Lookup(d, Other(d[0].sign)) == None
  {
    assert d[1..] == [];
  }

  /** A dictionary is empty exactly when neither key has a value. */
  lemma EmptyIffNoBound(d: BoundDict)
    ensures d == [] <==> Lookup(d, Le).None? && Lookup(d, Gt).None?
  {
  }
}
