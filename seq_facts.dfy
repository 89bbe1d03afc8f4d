/** Facts about slices of sequences, stated once for any element type. */
module SeqFacts {
  /** Taking one more element of s appends s[k] to the shorter prefix. */
  lemma TakeSnoc<T>(s: seq<T>, k: nat)
    requires k < |s|
    ensures s[..k + 1] == s[..k] + [s[k]]
  {
  }

  /** Appending s[k] to a + s[..k] gives a + s[..k + 1]. */
  lemma AppendNext<T>(a: seq<T>, s: seq<T>, k: nat)
    requires k < |s|
    ensures a + s[..k] + [s[k]] == a + s[..k + 1]
  {
    TakeSnoc(s, k);
  }
}
