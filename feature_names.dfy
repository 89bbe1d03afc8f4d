/**
 * generateTableFromClf first turns tree_.feature into a list of feature names,
 * one per node. At a leaf tree_.feature holds TREE_UNDEFINED (-2), which
 * Python reads as "second from the end": with two or more features the lookup
 * yields a name nobody uses, with a single feature it raises IndexError
 * before any table is written. The rest of the model asks for a feature only
 * at split nodes (DecisionTree.SplitFeature), where the lookup always succeeds.
 */
module FeatureNames {
  import opened Optional
  import opened DecisionTree
  import opened PythonIndex

  /**
   * [names[i] for i in ids], as Python evaluates it: the first failing
   * lookup aborts the whole comprehension.
   */
  function NamesOf(names: seq<string>, ids: seq<int>): (r: Option<seq<string>>)
    ensures r.Some? <==> forall k | 0 <= k < |ids| :: PyIndex(names, ids[k]).Some?
    ensures r.Some? ==> |r.value| == |ids| && forall k | 0 <= k < |ids| :: PyIndex(names, ids[k]) == Some(r.value[k])
  {
    if ids == [] then Some([])
    else
      match PyIndex(names, ids[0])
      case None => None
      case Some(x) =>
        match NamesOf(names, ids[1..])
        case None => None
        case Some(rest) => Some([x] + rest)
  }

  /** featureNames as the source computes it, over every node of the tree. */
  function FeatureNamesAsWritten(t: FittedTree, names: seq<string>): (r: Option<seq<string>>)
    ensures r.Some? <==> forall n | 0 <= n < NodeCount(t) :: PyIndex(names, t.feature[n]).Some?
    ensures r.Some? ==>
      |r.value| == NodeCount(t) && forall n | 0 <= n < NodeCount(t) :: PyIndex(names, t.feature[n]) == Some(r.value[n])
  {
    NamesOf(names, t.feature)
  }

  /** The last node of a fitted tree is always a leaf: it has no later node to point to. */
  lemma LastNodeIsLeaf(t: FittedTree)
    ensures IsLeaf(t, NodeCount(t) - 1) && t.feature[NodeCount(t) - 1] == TREE_UNDEFINED
  {
  }

  /**
   * As written, building featureNames fails exactly when the data has fewer
   * than two feature columns, whatever the tree looks like.
   */
  lemma FeatureNamesFailIffFewerThanTwo(t: FittedTree, names: seq<string>)
    requires |names| == t.nFeatures
    ensures FeatureNamesAsWritten(t, names).None? <==> |names| < 2
  {
    LastNodeIsLeaf(t);
    if |names| < 2 {
      assert PyIndex(names, t.feature[NodeCount(t) - 1]).None?;
    } else {
      forall k | 0 <= k < |t.feature| ensures PyIndex(names, t.feature[k]).Some? {
        if IsLeaf(t, k) {
          assert t.feature[k] == TREE_UNDEFINED;
        }
      }
    }
  }

  /** A depth-one tree on a single feature x: x <= 0.5 goes to leaf 1, otherwise to leaf 2. */
  function Stump(): FittedTree {
    Tree(1, 2, [0, TREE_UNDEFINED, TREE_UNDEFINED], [0.5, -2.0, -2.0],
         [1, TREE_LEAF, TREE_LEAF], [2, TREE_LEAF, TREE_LEAF],
         [[1.0, 1.0], [1.0, 0.0], [0.0, 1.0]])
  }

  /**
   * On the one-feature stump the source's comprehension raises IndexError at
   * leaf 1, while the lookup the model uses finds the root's feature and
   * nothing at the leaves.
   */
  lemma StumpShowsTheFailure()
    ensures FeatureNamesAsWritten(Stump(), ["x"]) == None
    ensures SplitFeature(Stump(), 0) == Some(0)
    ensures SplitFeature(Stump(), 1) == None && SplitFeature(Stump(), 2) == None
  {
    assert PyIndex(["x"], Stump().feature[1]) == None;
  }

  /**
   * The corrected lookup, names[SplitFeature(t, n)] at split nodes only, is
   * defined at every split whatever the number of features, and agrees with
   * the source's list wherever that list can be built.
   */
  lemma CorrectedLookupAtSplits(t: FittedTree, names: seq<string>, n: nat)
    requires |names| == t.nFeatures && n < NodeCount(t) && IsSplit(t, n)
    ensures SplitFeature(t, n).Some? && SplitFeature(t, n).value < |names|
    ensures var written := FeatureNamesAsWritten(t, names);
      written.Some? ==> written.value[n] == names[SplitFeature(t, n).value]
  {
  }
}
