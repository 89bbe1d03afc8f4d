/**
 * A fitted binary classification tree as its parallel node arrays
 * (sklearn's tree_: feature, threshold, children_left, children_right, value),
 * the routing of a row from the root to a leaf, and the shape of the decision
 * paths that routing produces.
 */
module DecisionTree {
  import opened Optional

  /** The child index stored at a leaf. */
  const TREE_LEAF: int := -1
  /** The feature index stored at a leaf. */
  const TREE_UNDEFINED: int := -2

  datatype Tree = Tree(
    nFeatures: nat,
    nClasses: nat,
    feature: seq<int>,
    threshold: seq<real>,
    leftChild: seq<int>,
    rightChild: seq<int>,
    value: seq<seq<real>>)

  function NodeCount(t: Tree): nat {
    |t.feature|
  }

  /** All node arrays have one entry per node, and there is a root. */
  predicate Shaped(t: Tree) {
    && |t.feature| >= 1
    && |t.threshold| == |t.feature|
    && |t.leftChild| == |t.feature|
    && |t.rightChild| == |t.feature|
    && |t.value| == |t.feature|
  }

  predicate IsLeaf(t: FittedTree, n: nat)
    requires n < NodeCount(t)
  {
    t.leftChild[n] == TREE_LEAF && t.rightChild[n] == TREE_LEAF
  }

  /** An internal node: two children numbered after it, and a feature to test. */
  predicate IsSplit(t: FittedTree, n: nat)
    requires n < NodeCount(t)
  {
    && n < t.leftChild[n] < NodeCount(t)
    && n < t.rightChild[n] < NodeCount(t)
    && 0 <= t.feature[n] < t.nFeatures
  }

  /** The first node from n on that has c as a child, or TREE_LEAF when there is none. */
  function ParentFrom(t: Tree, c: int, n: nat): (p: int)
    requires Shaped(t) && n <= NodeCount(t)
    ensures p == TREE_LEAF || (n <= p < NodeCount(t) && (t.leftChild[p] == c || t.rightChild[p] == c))
    decreases NodeCount(t) - n
  {
    if n == NodeCount(t) then TREE_LEAF
    else if t.leftChild[n] == c || t.rightChild[n] == c then n
    else ParentFrom(t, c, n + 1)
  }

  /**
   * ParentFrom finds the first node from n on that names c as a child: no
   * node before the one it returns names c, and it returns TREE_LEAF exactly
   * when no node from n on does.
   */
  lemma {:induction false} ParentFromIsFirst(t: Tree, c: int, n: nat)
    requires Shaped(t) && n <= NodeCount(t)
    ensures ParentFrom(t, c, n) == TREE_LEAF <==>
      forall m | n <= m < NodeCount(t) :: t.leftChild[m] != c && t.rightChild[m] != c
    ensures ParentFrom(t, c, n) != TREE_LEAF ==>
      forall m | n <= m < ParentFrom(t, c, n) :: t.leftChild[m] != c && t.rightChild[m] != c
    decreases NodeCount(t) - n
  {
    if n < NodeCount(t) && !(t.leftChild[n] == c || t.rightChild[n] == c) {
      ParentFromIsFirst(t, c, n + 1);
    }
  }

  /**
   * The structure of a fitted tree: every node is a leaf (no children, feature
   * TREE_UNDEFINED) or a split whose children are numbered after it; each
   * child of a split has that split as the first (and so only) node naming it
   * as a child, on one side only; every node has a count per class.
   */
  predicate WellFormed(t: Tree) {
    && Shaped(t)
    && t.nClasses >= 1
    && (forall n | 0 <= n < |t.feature| :: |t.value[n]| == t.nClasses)
    && (forall n | 0 <= n < |t.feature| ::
          || (t.leftChild[n] == TREE_LEAF && t.rightChild[n] == TREE_LEAF && t.feature[n] == TREE_UNDEFINED)
          || (n < t.leftChild[n] < |t.feature| && n < t.rightChild[n] < |t.feature| && 0 <= t.feature[n] < t.nFeatures))
    && (forall n | 0 <= n < |t.feature| :: t.leftChild[n] != TREE_LEAF ==> t.leftChild[n] != t.rightChild[n])
    && (forall n | 0 <= n < |t.feature| :: OwnsChildren(t, n))
  }

  /** Node n, if it is a split, is the first node that names either of its children as a child. */
  predicate OwnsChildren(t: Tree, n: nat)
    requires Shaped(t) && n < NodeCount(t)
  {
    t.leftChild[n] != TREE_LEAF ==> ParentFrom(t, t.leftChild[n], 0) == n && ParentFrom(t, t.rightChild[n], 0) == n
  }

  /** A tree as fitting produces it. */
  type FittedTree = t: Tree | WellFormed(t)
    witness Tree(0, 1, [TREE_UNDEFINED], [0.0], [TREE_LEAF], [TREE_LEAF], [[0.0]])

  /**
   * The feature a node tests, looked up only for split nodes: a leaf has none.
   * The source turns tree_.feature into feature names for every node, leaves
   * included (see module FeatureNames); the model asks only about split nodes.
   */
  function SplitFeature(t: FittedTree, n: nat): (f: Option<nat>)
    requires n < NodeCount(t)
    ensures f.Some? <==> IsSplit(t, n)
    ensures f.Some? ==> f.value == t.feature[n] && f.value < t.nFeatures
  {
    if IsLeaf(t, n) then None else Some(t.feature[n] as nat)
  }

  /** The child a row is sent to at a split: left when row[feature] <= threshold. */
  function Next(t: FittedTree, row: seq<real>, n: nat): (c: nat)
    requires |row| == t.nFeatures && n < NodeCount(t) && IsSplit(t, n)
    ensures n < c < NodeCount(t)
    ensures c == t.leftChild[n] <==> row[t.feature[n]] <= t.threshold[n]
    ensures c == t.rightChild[n] <==> row[t.feature[n]] > t.threshold[n]
  {
    if row[t.feature[n]] <= t.threshold[n] then t.leftChild[n] else t.rightChild[n]
  }

  /** Step i of p goes from a split node to one of its children. */
  predicate StepAt(t: FittedTree, p: seq<nat>, i: nat)
    requires 1 <= i < |p| && p[i - 1] < NodeCount(t)
  {
    IsSplit(t, p[i - 1]) && (p[i] == t.leftChild[p[i - 1]] || p[i] == t.rightChild[p[i - 1]])
  }

  /** p goes down the tree: each node after the first is a child of the one before. */
  predicate IsChain(t: FittedTree, p: seq<nat>)
  {
    && |p| >= 1
    && (forall i | 0 <= i < |p| :: p[i] < NodeCount(t))
    && (forall i | 1 <= i < |p| :: StepAt(t, p, i))
  }

  /** A decision path: a chain from the root to a leaf. */
  predicate IsPath(t: FittedTree, p: seq<nat>)
  {
    IsChain(t, p) && p[0] == 0 && IsLeaf(t, p[|p| - 1])
  }

  /** Step i of the chain p is the step row takes. */
  predicate RowStepAt(t: FittedTree, row: seq<real>, p: seq<nat>, i: nat)
    requires |row| == t.nFeatures && IsChain(t, p) && 1 <= i < |p|
  {
    assert StepAt(t, p, i);
    p[i] == Next(t, row, p[i - 1])
  }

  /** Every step of the chain p is the step row takes. */
  predicate FollowsRow(t: FittedTree, row: seq<real>, p: seq<nat>)
    requires |row| == t.nFeatures && IsChain(t, p)
  {
    forall i | 1 <= i < |p| :: RowStepAt(t, row, p, i)
  }

  /** Putting a split node in front of a chain that starts at its child gives a chain. */
  lemma ConsChain(t: FittedTree, n: nat, rest: seq<nat>)
    requires n < NodeCount(t) && IsSplit(t, n) && IsChain(t, rest)
    requires rest[0] == t.leftChild[n] || rest[0] == t.rightChild[n]
    ensures IsChain(t, [n] + rest)
  {
    var p := [n] + rest;
    forall i | 1 <= i < |p| ensures StepAt(t, p, i) {
      if i > 1 { assert StepAt(t, rest, i - 1); }
    }
  }

  /** Putting a split node in front of row's route from its chosen child gives row's route. */
  lemma ConsRoute(t: FittedTree, row: seq<real>, n: nat, rest: seq<nat>)
    requires |row| == t.nFeatures && n < NodeCount(t) && IsSplit(t, n)
    requires IsChain(t, rest) && rest[0] == Next(t, row, n) && FollowsRow(t, row, rest)
    ensures IsChain(t, [n] + rest) && FollowsRow(t, row, [n] + rest)
  {
    ConsChain(t, n, rest);
    var p := [n] + rest;
    forall i | 1 <= i < |p| ensures RowStepAt(t, row, p, i) {
      if i > 1 { assert RowStepAt(t, row, rest, i - 1); }
    }
  }

  /** The nodes row visits from node n down to a leaf. */
  function RouteFrom(t: FittedTree, row: seq<real>, n: nat): (p: seq<nat>)
    requires |row| == t.nFeatures && n < NodeCount(t)
    ensures IsChain(t, p) && p[0] == n && IsLeaf(t, p[|p| - 1]) && FollowsRow(t, row, p)
    decreases NodeCount(t) - n
  {
    if IsLeaf(t, n) then [n]
    else
      var rest := RouteFrom(t, row, Next(t, row, n));
      ConsRoute(t, row, n, rest);
      [n] + rest
  }

  /** decision_path for one row: the nodes it visits, root first, leaf last. */
  function DecisionPath(t: FittedTree, row: seq<real>): (p: seq<nat>)
    requires |row| == t.nFeatures
    ensures IsPath(t, p) && FollowsRow(t, row, p)
  {
    RouteFrom(t, row, 0)
  }

  /** apply for one row: the leaf it reaches. */
  function Apply(t: FittedTree, row: seq<real>): (leaf: nat)
    requires |row| == t.nFeatures
    ensures leaf < NodeCount(t) && IsLeaf(t, leaf)
  {
    var p := DecisionPath(t, row);
    p[|p| - 1]
  }

  /** Node numbers strictly increase along a chain: an earlier node is numbered below every later one. */
  lemma {:induction false} ChainRises(t: FittedTree, p: seq<nat>, i: nat, j: nat)
    requires IsChain(t, p) && i < j < |p|
    ensures p[i] < p[j]
  {
    assert StepAt(t, p, j);
    if i < j - 1 {
      ChainRises(t, p, i, j - 1);
    }
  }

  /** A node is the child of at most one node. */
  lemma UniqueParent(t: FittedTree, a: nat, b: nat, c: nat)
    requires a < NodeCount(t) && b < NodeCount(t)
    requires c == t.leftChild[a] || c == t.rightChild[a]
    requires c == t.leftChild[b] || c == t.rightChild[b]
    ensures a == b
  {
    assert OwnsChildren(t, a) && OwnsChildren(t, b);
  }

  /** A child of a split is named by that split on one side only, and by no other node. */
  lemma OneSideOnly(t: FittedTree, p: nat, c: nat)
    requires p < NodeCount(t) && (c == t.leftChild[p] || c == t.rightChild[p])
    ensures c == t.leftChild[p] ==> c !in t.rightChild
    ensures c == t.rightChild[p] ==> c !in t.leftChild
  {
    forall j | 0 <= j < NodeCount(t) ensures t.leftChild[j] == c || t.rightChild[j] == c ==> j == p {
      if t.leftChild[j] == c || t.rightChild[j] == c {
        UniqueParent(t, p, j, c);
      }
    }
  }

  /** The root is nobody's child: every child is numbered after its parent. */
  lemma RootIsNoChild(t: FittedTree)
    ensures 0 !in t.leftChild && 0 !in t.rightChild
  {
  }

  /** Every node of a chain but the last is a split. */
  lemma InnerNodeIsSplit(t: FittedTree, p: seq<nat>, i: nat)
    requires IsChain(t, p) && i + 1 < |p|
    ensures IsSplit(t, p[i]) && !IsLeaf(t, p[i])
  {
    assert StepAt(t, p, i + 1);
  }

  /** A leaf can only be the last node of a chain. */
  lemma LeafEndsChain(t: FittedTree, p: seq<nat>, i: nat)
    requires IsChain(t, p) && i < |p| && IsLeaf(t, p[i])
    ensures i == |p| - 1
  {
    if i + 1 < |p| {
      InnerNodeIsSplit(t, p, i);
    }
  }

  /**
   * Two chains that start at the same node and end at the same node are the
   * same chain: in a tree, a node is reached by one route only.
   */
  lemma {:induction false} SameEndsSameChain(t: FittedTree, p: seq<nat>, q: seq<nat>)
    requires IsChain(t, p) && IsChain(t, q)
    requires p[0] == q[0] && p[|p| - 1] == q[|q| - 1]
    ensures p == q
  {
    if |p| > 1 { ChainRises(t, p, 0, |p| - 1); }
    if |q| > 1 { ChainRises(t, q, 0, |q| - 1); }
    if |p| > 1 && |q| > 1 {
      assert StepAt(t, p, |p| - 1) && StepAt(t, q, |q| - 1);
      UniqueParent(t, p[|p| - 2], q[|q| - 2], p[|p| - 1]);
      var p', q' := p[..|p| - 1], q[..|q| - 1];
      PrefixChain(t, p, |p| - 1);
      PrefixChain(t, q, |q| - 1);
      SameEndsSameChain(t, p', q');
      assert p == p' + [p[|p| - 1]];
      assert q == q' + [q[|q| - 1]];
    }
  }

  /** A nonempty prefix of a chain is a chain. */
  lemma PrefixChain(t: FittedTree, p: seq<nat>, k: nat)
    requires IsChain(t, p) && 1 <= k <= |p|
    ensures IsChain(t, p[..k])
  {
    var p' := p[..k];
    forall i | 1 <= i < |p'| ensures StepAt(t, p', i) {
      assert StepAt(t, p, i);
    }
  }

  /** Rows that reach the same leaf follow the same decision path. */
  lemma SameLeafSamePath(t: FittedTree, row1: seq<real>, row2: seq<real>)
    requires |row1| == t.nFeatures && |row2| == t.nFeatures
    requires Apply(t, row1) == Apply(t, row2)
    ensures DecisionPath(t, row1) == DecisionPath(t, row2)
  {
    SameEndsSameChain(t, DecisionPath(t, row1), DecisionPath(t, row2));
  }

  /** A leaf lies on a row's decision path exactly when the row reaches that leaf. */
  lemma LeafOnPathIffApply(t: FittedTree, row: seq<real>, leaf: nat)
    requires |row| == t.nFeatures && leaf < NodeCount(t) && IsLeaf(t, leaf)
    ensures leaf in DecisionPath(t, row) <==> Apply(t, row) == leaf
  {
    var p := DecisionPath(t, row);
    if leaf in p {
      var i :| 0 <= i < |p| && p[i] == leaf;
      LeafEndsChain(t, p, i);
    }
  }

  /**
   * The nodes from the topmost ancestor of n down to n, found by following
   * parents upwards; for a node some row reaches this starts at the root.
   */
  function PathTo(t: FittedTree, n: nat): (p: seq<nat>)
    requires n < NodeCount(t)
    ensures IsChain(t, p) && p[|p| - 1] == n
    decreases n
  {
    var parent := ParentFrom(t, n, 0);
    if parent == TREE_LEAF then [n]
    else
      var up := PathTo(t, parent as nat);
      ConsChainEnd(t, up, n);
      up + [n]
  }

  /** Appending a child of a chain's last node gives a chain. */
  lemma ConsChainEnd(t: FittedTree, p: seq<nat>, c: nat)
    requires IsChain(t, p) && c < NodeCount(t)
    requires c == t.leftChild[p[|p| - 1]] || c == t.rightChild[p[|p| - 1]]
    ensures IsChain(t, p + [c])
  {
    var q := p + [c];
    forall i | 1 <= i < |q| ensures StepAt(t, q, i) {
      if i < |p| { assert StepAt(t, p, i); }
    }
  }

  /**
   * Dropping the last node of a chain of two or more nodes leaves a chain whose
   * last node is the first (and only) parent of the dropped node.
   */
  lemma ChainLastStep(t: FittedTree, q: seq<nat>)
    requires IsChain(t, q) && |q| >= 2
    ensures IsChain(t, q[..|q| - 1]) && q == q[..|q| - 1] + [q[|q| - 1]]
    ensures ParentFrom(t, q[|q| - 1], 0) == q[|q| - 2]
  {
    assert StepAt(t, q, |q| - 1);
    assert OwnsChildren(t, q[|q| - 2]);
    PrefixChain(t, q, |q| - 1);
  }

  /** A chain from the root is the path to its last node. */
  lemma {:induction false} RootChainIsPathTo(t: FittedTree, q: seq<nat>)
    requires IsChain(t, q) && q[0] == 0
    ensures q == PathTo(t, q[|q| - 1])
  {
    if |q| == 1 {
      RootIsNoChild(t);
    } else {
      ChainLastStep(t, q);
      RootChainIsPathTo(t, q[..|q| - 1]);
    }
  }

  /** The decision path of a row is the path to the leaf it reaches. */
  lemma DecisionPathIsPathTo(t: FittedTree, row: seq<real>)
    requires |row| == t.nFeatures
    ensures DecisionPath(t, row) == PathTo(t, Apply(t, row))
  {
    RootChainIsPathTo(t, DecisionPath(t, row));
  }
}
