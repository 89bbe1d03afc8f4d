/**
 * The walk of generateTableFromClf over one decision path: for every position
 * of the path, a step into a left child records "<=" with the parent's
 * threshold under the parent's feature, and a step into a right child records
 * ">". The accumulator holds one bound dictionary per feature.
 */
module PathWalk {
  import opened Optional
  import opened Bounds
  import opened Cells
  import opened DecisionTree
  import opened PythonIndex

  /** The bound dictionaries of one rule, indexed by feature (inputOutput[className]). */
  type Accumulator = seq<BoundDict>

  predicate ValidAccumulator(t: FittedTree, acc: Accumulator) {
    |acc| == t.nFeatures && forall f | 0 <= f < |acc| :: WellKeyed(acc[f])
  }

  predicate NodesInTree(t: FittedTree, path: seq<nat>) {
    forall i | 0 <= i < |path| :: path[i] < NodeCount(t)
  }

  /** An empty dictionary for every feature, before the walk starts. */
  function EmptyAccumulator(t: FittedTree): (acc: Accumulator)
    ensures ValidAccumulator(t, acc)
    ensures forall f | 0 <= f < |acc| :: acc[f] == []
  {
    seq(t.nFeatures, _ => [])
  }

  /**
   * inputOutput[className][nodeFeature][s] = nodeThreshold, where nodeFeature
   * and nodeThreshold are those of node parent. Only a split node has a feature.
   */
  function RecordAt(t: FittedTree, acc: Accumulator, parent: nat, s: Sign): (r: Accumulator)
    requires ValidAccumulator(t, acc) && parent < NodeCount(t)
    ensures ValidAccumulator(t, r)
  {
    match SplitFeature(t, parent)
    case Some(f) => acc[f := Assign(acc[f], s, t.threshold[parent])]
    case None => acc
  }

  /** nodeIndex[index - 1]: at index 0, Python's negative index gives the last node. */
  function Predecessor(path: seq<nat>, index: nat): (p: nat)
    requires index < |path|
    ensures PyIndex(path, index - 1) == Some(p)
  {
    if index == 0 then path[|path| - 1] else path[index - 1]
  }

  /**
   * One iteration of the walk, at position index. The tests ask whether the node
   * is the left (right) child of any node, as `nodeId in set(leftChildren)` does.
   */
  function Step(t: FittedTree, path: seq<nat>, index: nat, acc: Accumulator): (r: Accumulator)
    requires NodesInTree(t, path) && index < |path| && ValidAccumulator(t, acc)
    ensures ValidAccumulator(t, r)
  {
    var nodeId := path[index];
    var parent := Predecessor(path, index);
    var afterLeft := if nodeId in t.leftChild then RecordAt(t, acc, parent, Le) else acc;
    if nodeId in t.rightChild then RecordAt(t, afterLeft, parent, Gt) else afterLeft
  }

  /** The accumulator after the first k iterations of the walk. */
  function BoundsAfter(t: FittedTree, path: seq<nat>, k: nat): (acc: Accumulator)
    requires NodesInTree(t, path) && k <= |path|
    ensures ValidAccumulator(t, acc)
    decreases k
  {
    if k == 0 then EmptyAccumulator(t) else Step(t, path, k - 1, BoundsAfter(t, path, k - 1))
  }

  /** The accumulator after the whole walk. */
  function PathBounds(t: FittedTree, path: seq<nat>): (acc: Accumulator)
    requires NodesInTree(t, path)
    ensures ValidAccumulator(t, acc)
  {
    BoundsAfter(t, path, |path|)
  }

  /**
   * The two loops of generateTableFromClf for one leaf: an empty dictionary for
   * every feature, then one iteration per position of the decision path.
   */
  method WalkPath(t: FittedTree, path: seq<nat>) returns (acc: Accumulator)
    requires NodesInTree(t, path)
    ensures acc == PathBounds(t, path)
  {
    var none: BoundDict := [];
    acc := [];
    for f := 0 to t.nFeatures
      invariant acc == seq(f, _ => none)
    {
      acc := acc + [none];
    }
    for index := 0 to |path|
      invariant acc == BoundsAfter(t, path, index)
    {
      var nodeId := path[index];
      var parent := Predecessor(path, index);
      if nodeId in t.leftChild {
        acc := RecordAt(t, acc, parent, Le);
      }
      if nodeId in t.rightChild {
        acc := RecordAt(t, acc, parent, Gt);
      }
    }
  }

  /** The child of n on side s: left for "<=", right for ">". */
  function ChildOn(t: FittedTree, n: nat, s: Sign): int
    requires n < NodeCount(t)
  {
    if s == Le then t.leftChild[n] else t.rightChild[n]
  }

  /** The side of n that the step into its child c takes. */
  function SideOf(t: FittedTree, n: nat, c: nat): Sign
    requires n < NodeCount(t)
  {
    if c == t.leftChild[n] then Le else Gt
  }

  /** The root is nobody's child, so the first iteration records nothing. */
  lemma RootStepIsNoOp(t: FittedTree, path: seq<nat>, acc: Accumulator)
    requires IsPath(t, path) && ValidAccumulator(t, acc)
    ensures Step(t, path, 0, acc) == acc
  {
    RootIsNoChild(t);
  }

  /**
   * Every later iteration records exactly one bound: the sign of the side the
   * path takes, with the parent's threshold, under the parent's feature.
   */
  lemma StepAlongPath(t: FittedTree, path: seq<nat>, i: nat, acc: Accumulator)
    requires IsChain(t, path) && 1 <= i < |path| && ValidAccumulator(t, acc)
    ensures
      var p := path[i - 1];
      var f := t.feature[p];
      && 0 <= f < |acc|
      && Step(t, path, i, acc) == acc[f := Assign(acc[f], SideOf(t, p, path[i]), t.threshold[p])]
  {
    assert StepAt(t, path, i);
    OneSideOnly(t, path[i - 1], path[i]);
  }

  /**
   * The threshold of the last step among the first k nodes of path that leaves
   * a node splitting on f towards side s, if there is such a step.
   */
  function LastSplit(t: FittedTree, path: seq<nat>, k: nat, f: nat, s: Sign): Option<real>
    requires NodesInTree(t, path) && k <= |path|
    decreases k
  {
    if k < 2 then None
    else if t.feature[path[k - 2]] == f && path[k - 1] == ChildOn(t, path[k - 2], s)
    then Some(t.threshold[path[k - 2]])
    else LastSplit(t, path, k - 1, f, s)
  }

  /** Assigning under feature g and sign side changes only the lookup under g and side. */
  lemma LookupAfterAssign(acc: Accumulator, g: nat, side: Sign, v: real, f: nat, s: Sign)
    requires g < |acc| && f < |acc| && WellKeyed(acc[g])
    ensures Lookup(acc[g := Assign(acc[g], side, v)][f], s) ==
      if g == f && s == side then Some(v) else Lookup(acc[f], s)
  {
    if g == f && s != side {
      assert s == Other(side);
    }
  }

  /**
   * One step along a path changes the lookup under feature f and sign s only
   * when it leaves a node splitting on f towards side s, and then to that
   * node's threshold.
   */
  lemma LookupAfterStep(t: FittedTree, path: seq<nat>, k: nat, f: nat, s: Sign, prev: Accumulator)
    requires IsChain(t, path) && 2 <= k <= |path| && f < t.nFeatures && ValidAccumulator(t, prev)
    ensures Lookup(Step(t, path, k - 1, prev)[f], s) ==
      if t.feature[path[k - 2]] == f && path[k - 1] == ChildOn(t, path[k - 2], s)
      then Some(t.threshold[path[k - 2]])
      else Lookup(prev[f], s)
  {
    var p, c := path[k - 2], path[k - 1];
    StepAlongPath(t, path, k - 1, prev);
    LookupAfterAssign(prev, t.feature[p], SideOf(t, p, c), t.threshold[p], f, s);
    assert StepAt(t, path, k - 1);
    assert t.leftChild[p] != t.rightChild[p];
  }

  /**
   * What the walk leaves under each feature and sign: the threshold of the last
   * step on the path in that direction at a node splitting on that feature.
   * Earlier bounds of the same direction are overwritten, not compared.
   */
  lemma {:induction false} BoundsAfterIsLastSplit(t: FittedTree, path: seq<nat>, k: nat, f: nat, s: Sign)
    requires IsPath(t, path) && k <= |path| && f < t.nFeatures
    ensures Lookup(BoundsAfter(t, path, k)[f], s) == LastSplit(t, path, k, f, s)
  {
    if k == 1 {
      RootStepIsNoOp(t, path, EmptyAccumulator(t));
    } else if k >= 2 {
      BoundsAfterIsLastSplit(t, path, k - 1, f, s);
      LookupAfterStep(t, path, k, f, s, BoundsAfter(t, path, k - 1));
    }
  }

  /** A feature keeps no bound exactly when no split node before the leaf tests it. */
  lemma {:induction false} NoBoundIffNoSplit(t: FittedTree, path: seq<nat>, k: nat, f: nat)
    requires IsPath(t, path) && k <= |path| && f < t.nFeatures
    ensures (LastSplit(t, path, k, f, Le).None? && LastSplit(t, path, k, f, Gt).None?)
            <==> forall i | 0 <= i < k - 1 :: t.feature[path[i]] != f
  {
    if k >= 2 {
      NoBoundIffNoSplit(t, path, k - 1, f);
      assert StepAt(t, path, k - 1);
    }
  }

  /**
   * After the walk, a feature's dictionary is empty exactly when no node of the
   * path before the leaf splits on it; the root contributes nothing by itself.
   */
  lemma UnsplitFeatureStaysEmpty(t: FittedTree, path: seq<nat>, f: nat)
    requires IsPath(t, path) && f < t.nFeatures
    ensures PathBounds(t, path)[f] == [] <==> forall i | 0 <= i < |path| - 1 :: t.feature[path[i]] != f
  {
    EmptyIffNoBound(PathBounds(t, path)[f]);
    BoundsAfterIsLastSplit(t, path, |path|, f, Le);
    BoundsAfterIsLastSplit(t, path, |path|, f, Gt);
    NoBoundIffNoSplit(t, path, |path|, f);
  }

  /** Every step of a row's own route is a test the row passes. */
  lemma {:induction false} LastSplitHoldsForRow(t: FittedTree, row: seq<real>, path: seq<nat>, k: nat, f: nat, s: Sign)
    requires |row| == t.nFeatures && IsChain(t, path) && FollowsRow(t, row, path)
    requires k <= |path| && f < t.nFeatures
    ensures LastSplit(t, path, k, f, s).Some? ==>
      if s == Le then row[f] <= LastSplit(t, path, k, f, s).value
      else LastSplit(t, path, k, f, s).value < row[f]
  {
    if k >= 2 {
      assert StepAt(t, path, k - 1) && RowStepAt(t, row, path, k - 1);
      assert t.leftChild[path[k - 2]] != t.rightChild[path[k - 2]];
      LastSplitHoldsForRow(t, row, path, k - 1, f, s);
    }
  }

  /** A row meets both bounds that the walk over its own decision path leaves under a feature. */
  lemma RowMeetsPathBounds(t: FittedTree, row: seq<real>, f: nat)
    requires |row| == t.nFeatures && f < t.nFeatures
    ensures var d := PathBounds(t, DecisionPath(t, row))[f];
      && (Lookup(d, Le).Some? ==> row[f] <= Lookup(d, Le).value)
      && (Lookup(d, Gt).Some? ==> Lookup(d, Gt).value < row[f])
  {
    var path := DecisionPath(t, row);
    BoundsAfterIsLastSplit(t, path, |path|, f, Le);
    BoundsAfterIsLastSplit(t, path, |path|, f, Gt);
    LastSplitHoldsForRow(t, row, path, |path|, f, Le);
    LastSplitHoldsForRow(t, row, path, |path|, f, Gt);
  }

  /** A row passes the test of every cell built from its own decision path. */
  lemma PathCellsHoldForRow(t: FittedTree, row: seq<real>, f: nat)
    requires |row| == t.nFeatures && f < t.nFeatures
    ensures Satisfies(row[f], RenderCell(PathBounds(t, DecisionPath(t, row))[f]))
  {
    RowMeetsPathBounds(t, row, f);
    BoundsMetSatisfiesCell(row[f], PathBounds(t, DecisionPath(t, row))[f]);
  }

  /**
   * On a row's own decision path the two bounds of a feature never cross, so
   * the empty cell that generateTableRows writes for an inverted pair of
   * bounds never arises there: both bounds always give an interval.
   */
  lemma PathBoundsNeverCross(t: FittedTree, row: seq<real>, f: nat)
    requires |row| == t.nFeatures && f < t.nFeatures
    ensures var d := PathBounds(t, DecisionPath(t, row))[f];
      Lookup(d, Le).Some? && Lookup(d, Gt).Some? ==>
        && Lookup(d, Gt).value < Lookup(d, Le).value
        && RenderCell(d) == Between(Lookup(d, Gt).value, Lookup(d, Le).value)
  {
    RowMeetsPathBounds(t, row, f);
  }
}
