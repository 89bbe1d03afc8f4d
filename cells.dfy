/**
 * The input cell a bound dictionary becomes in a decision-table rule, and the
 * DMN meaning of such a cell as a test on one feature value.
 */
module Cells {
  import opened Optional
  import opened Bounds

  /** The content of one DMN input entry. */
  datatype Cell =
    | Empty                        // no text: every value matches
    | Upper(hi: real)              // "<= hi"
    | Lower(lo: real)              // "> lo"
    | Between(lo: real, hi: real)  // "]lo..hi]"

  /** The DMN reading of a cell as a unary test on the value x of its column. */
  predicate Satisfies(x: real, c: Cell) {
    match c
    case Empty => true
    case Upper(hi) => x <= hi
    case Lower(lo) => lo < x
    case Between(lo, hi) => lo < x <= hi
  }

  /**
   * The cell choice of generateTableRows for one feature: no entry gives an
   * empty cell, one entry gives that sign and threshold, two entries give the
   * interval from the ">" value to the "<=" value when that interval is not
   * empty, and an empty cell otherwise. The branches follow the dictionary's
   * insertion order, as the source does; the contract states that the outcome
   * does not depend on that order.
   */
  function RenderCell(d: BoundDict): (c: Cell)
    requires WellKeyed(d)
    ensures Lookup(d, Le).None? && Lookup(d, Gt).None? ==> c == Empty
    ensures Lookup(d, Le).Some? && Lookup(d, Gt).None? ==> c == Upper(Lookup(d, Le).value)
    ensures Lookup(d, Le).None? && Lookup(d, Gt).Some? ==> c == Lower(Lookup(d, Gt).value)
    ensures Lookup(d, Le).Some? && Lookup(d, Gt).Some? ==>
      c == if Lookup(d, Gt).value < Lookup(d, Le).value
           then Between(Lookup(d, Gt).value, Lookup(d, Le).value)
           else Empty
    ensures c.Between? ==> c.lo < c.hi
  {
    if |d| == 0 then Empty
    else if |d| == 1 then
      SingleEntry(d);
      if d[0].sign == Le then Upper(d[0].threshold) else Lower(d[0].threshold)
    else
      // A well-keyed dictionary has at most two entries (one per sign); the source
      // creates no cell for a longer one, which cannot arise.
      FirstTwoEntries(d);
      if d[0].sign == Le then
        if d[0].threshold > d[1].threshold then Between(d[1].threshold, d[0].threshold) else Empty
      else
        if d[0].threshold < d[1].threshold then Between(d[0].threshold, d[1].threshold) else Empty
  }

  /** A value that meets every bound of a dictionary passes the test of its cell. */
  lemma BoundsMetSatisfiesCell(x: real, d: BoundDict)
    requires WellKeyed(d)
    requires Lookup(d, Le).Some? ==> x <= Lookup(d, Le).value
    requires Lookup(d, Gt).Some? ==> Lookup(d, Gt).value < x
    ensures Satisfies(x, RenderCell(d))
  {
  }
}
