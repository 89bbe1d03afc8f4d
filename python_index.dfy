/** Python's integer indexing of a list or a pandas Index, where negative indices count from the end. */
module PythonIndex {
  import opened Optional

  /** s[i] as Python evaluates it; None stands for IndexError. */
  function PyIndex<T>(s: seq<T>, i: int): (r: Option<T>)
    ensures r.Some? <==> -|s| <= i < |s|
    ensures 0 <= i < |s| ==> r == Some(s[i])
    ensures -|s| <= i < 0 ==> r == Some(s[|s| + i])
  {
    if 0 <= i < |s| then Some(s[i])
    else if -|s| <= i < 0 then Some(s[|s| + i])
    else None
  }

  /** An index and the same index counted from the end name the same element. */
  lemma FromTheEnd<T>(s: seq<T>, i: nat)
    requires i < |s|
    ensures PyIndex(s, i - |s|) == PyIndex(s, i) == Some(s[i])
  {
  }
}
