/**
 * clfDmn.generateTableFromClf: one rule per distinct leaf reached by a
 * training row, built from the decision path of the first such row and
 * labelled with the leaf's majority class, after the table header.
 */
module Extraction {
  import opened Optional
  import opened Bounds
  import opened Cells
  import opened DecisionTree
  import opened PathWalk
  import opened DmnTable
  import opened SeqFacts

  /** Every training row has one value per feature. */
  predicate RowsFit(t: FittedTree, rows: seq<seq<real>>) {
    forall r | 0 <= r < |rows| :: |rows[r]| == t.nFeatures
  }

  /** The fitted tree, the training rows and the class names fit together. */
  predicate Fitted(t: FittedTree, rows: seq<seq<real>>, classes: seq<string>) {
    RowsFit(t, rows) && |classes| == t.nClasses
  }

  /** apply(data): the leaf each training row reaches. */
  function LeafIds(t: FittedTree, rows: seq<seq<real>>): (ids: seq<nat>)
    requires RowsFit(t, rows)
    ensures |ids| == |rows|
    ensures forall r | 0 <= r < |rows| :: ids[r] == Apply(t, rows[r])
  {
    seq(|rows|, r requires 0 <= r < |rows| => Apply(t, rows[r]))
  }

  /** The values in ids from n up to (excluding) bound, each once, in ascending order. */
  function DistinctFrom(ids: seq<nat>, n: nat, bound: nat): (ls: seq<nat>)
    requires n <= bound
    ensures forall i, j | 0 <= i < j < |ls| :: ls[i] < ls[j]
    ensures forall x: nat :: x in ls <==> n <= x < bound && x in ids
    decreases bound - n
  {
    if n == bound then []
    else
      var rest := DistinctFrom(ids, n + 1, bound);
      assert forall j | 0 <= j < |rest| :: n < rest[j] by {
        forall j | 0 <= j < |rest| ensures n < rest[j] { assert rest[j] in rest; }
      }
      if n in ids then [n] + rest else rest
  }

  /**
   * set(leafIds), iterated in ascending order: every leaf some row reaches,
   * each exactly once.
   */
  function ReachedLeaves(t: FittedTree, rows: seq<seq<real>>): (ls: seq<nat>)
    requires RowsFit(t, rows)
    ensures forall i, j | 0 <= i < j < |ls| :: ls[i] < ls[j]
    ensures forall k | 0 <= k < |ls| :: ls[k] in LeafIds(t, rows) && ls[k] < NodeCount(t)
  {
    var ls := DistinctFrom(LeafIds(t, rows), 0, NodeCount(t));
    assert forall k | 0 <= k < |ls| :: ls[k] in ls;
    ls
  }

  /** The leaf each training row reaches is among the reached leaves. */
  lemma RowLeafIsReached(t: FittedTree, rows: seq<seq<real>>, r: nat)
    requires RowsFit(t, rows) && r < |rows|
    ensures Apply(t, rows[r]) in ReachedLeaves(t, rows)
  {
    var ids := LeafIds(t, rows);
    assert ids[r] in ids;
  }

  /** The first row, from start on, whose decision path passes through node. */
  function FirstRowFrom(t: FittedTree, rows: seq<seq<real>>, node: nat, start: nat): (r: nat)
    requires RowsFit(t, rows) && start <= |rows|
    requires exists r | start <= r < |rows| :: node in DecisionPath(t, rows[r])
    ensures start <= r < |rows| && node in DecisionPath(t, rows[r])
    ensures forall r' | start <= r' < r :: node !in DecisionPath(t, rows[r'])
    decreases |rows| - start
  {
    if node in DecisionPath(t, rows[start]) then start else FirstRowFrom(t, rows, node, start + 1)
  }

  /**
   * decPath.getcol(node).nonzero()[0][0]: the first row, in row order, whose
   * decision path passes through node.
   */
  function FirstRowThrough(t: FittedTree, rows: seq<seq<real>>, node: nat): (r: nat)
    requires RowsFit(t, rows)
    requires exists r | 0 <= r < |rows| :: node in DecisionPath(t, rows[r])
    ensures r < |rows| && node in DecisionPath(t, rows[r])
    ensures forall r' | 0 <= r' < r :: node !in DecisionPath(t, rows[r'])
  {
    FirstRowFrom(t, rows, node, 0)
  }

  /** np.argmax: the first index of a largest element. */
  function Argmax(s: seq<real>): (i: nat)
    requires |s| >= 1
    ensures i < |s|
    ensures forall j | 0 <= j < |s| :: s[j] <= s[i]
    ensures forall j | 0 <= j < i :: s[j] < s[i]
  {
    if |s| == 1 then 0
    else
      var i := Argmax(s[..|s| - 1]);
      if s[|s| - 1] > s[i] then |s| - 1 else i
  }

  /**
   * The class name of a leaf: classes_[argmax(value[leaf])], the first class
   * with the largest count at that leaf.
   */
  function ClassName(t: FittedTree, classes: seq<string>, leaf: nat): (name: string)
    requires |classes| == t.nClasses && leaf < NodeCount(t)
    ensures exists i | 0 <= i < |classes| ::
      (&& name == classes[i]
       && (forall j | 0 <= j < |classes| :: t.value[leaf][j] <= t.value[leaf][i])
       && (forall j | 0 <= j < i :: t.value[leaf][j] < t.value[leaf][i]))
  {
    classes[Argmax(t.value[leaf])]
  }

  /** A reached node is a leaf, and it lies on the decision path of some row. */
  lemma HitLeaf(t: FittedTree, rows: seq<seq<real>>, leaf: nat)
    requires RowsFit(t, rows) && leaf in LeafIds(t, rows)
    ensures leaf < NodeCount(t) && IsLeaf(t, leaf)
    ensures exists r | 0 <= r < |rows| :: leaf in DecisionPath(t, rows[r])
  {
    var r :| 0 <= r < |rows| && LeafIds(t, rows)[r] == leaf;
    LeafOnPathIffApply(t, rows[r], leaf);
  }

  /**
   * The rule generated for a leaf: one input cell per feature, in feature
   * order, rendered from the bounds along the leaf's path, then the leaf's
   * class name.
   */
  function LeafRule(t: FittedTree, classes: seq<string>, leaf: nat): (e: Element)
    requires |classes| == t.nClasses && leaf < NodeCount(t)
    ensures e.RuleRow? && |e.inputEntries| == t.nFeatures
    ensures e.outputEntry == ClassName(t, classes, leaf)
    ensures forall f | 0 <= f < t.nFeatures ::
      e.inputEntries[f].Between? ==> e.inputEntries[f].lo < e.inputEntries[f].hi
  {
    RuleRow(RenderRow(PathBounds(t, PathTo(t, leaf))), ClassName(t, classes, leaf))
  }

  /** The rules for the given leaves, in the same order. */
  function LeafRules(t: FittedTree, classes: seq<string>, leaves: seq<nat>): (rules: seq<Element>)
    requires |classes| == t.nClasses && forall k | 0 <= k < |leaves| :: leaves[k] < NodeCount(t)
    ensures |rules| == |leaves|
    ensures forall k | 0 <= k < |leaves| :: rules[k] == LeafRule(t, classes, leaves[k])
  {
    seq(|leaves|, k requires 0 <= k < |leaves| => LeafRule(t, classes, leaves[k]))
  }

  /**
   * The decision table generateTableFromClf leaves behind: an input column per
   * feature, the output column named by the class column, then one rule per
   * reached leaf in ascending leaf order.
   */
  function DecisionTableFor(t: FittedTree, rows: seq<seq<real>>, features: seq<string>, classColumn: string,
                            classes: seq<string>): (table: seq<Element>)
    requires Fitted(t, rows, classes) && |features| == t.nFeatures
    ensures |table| == |features| + 1 + |ReachedLeaves(t, rows)|
    ensures forall i | 0 <= i < |features| :: table[i] == InputColumn(features[i])
    ensures table[|features|] == OutputColumn(classColumn)
    ensures table[|features| + 1..] == LeafRules(t, classes, ReachedLeaves(t, rows))
  {
    var names := features + [classColumn];
    var body := LeafRules(t, classes, ReachedLeaves(t, rows));
    var table := Columns(names) + body;
    assert table[|names|..] == body;
    table
  }

  /**
   * Which row stands for a leaf does not matter: the rule built from the
   * decision path of any row that reaches the leaf is the leaf's rule.
   */
  lemma AnyRowGivesLeafRule(t: FittedTree, classes: seq<string>, row: seq<real>)
    requires |classes| == t.nClasses && |row| == t.nFeatures
    ensures var leaf := Apply(t, row);
      RuleRow(RenderRow(PathBounds(t, DecisionPath(t, row))), ClassName(t, classes, leaf))
        == LeafRule(t, classes, leaf)
  {
    DecisionPathIsPathTo(t, row);
  }

  /** A row passes every input test of the rule of the leaf it reaches. */
  lemma RuleHoldsForReachingRow(t: FittedTree, classes: seq<string>, row: seq<real>)
    requires |classes| == t.nClasses && |row| == t.nFeatures
    ensures forall f | 0 <= f < t.nFeatures :: Satisfies(row[f], LeafRule(t, classes, Apply(t, row)).inputEntries[f])
  {
    DecisionPathIsPathTo(t, row);
    forall f | 0 <= f < t.nFeatures
      ensures Satisfies(row[f], LeafRule(t, classes, Apply(t, row)).inputEntries[f])
    {
      PathCellsHoldForRow(t, row, f);
    }
  }

  /**
   * In the rule of a leaf that a row reaches, a feature with both a "<=" and a
   * ">" bound always gets the interval between them, never the empty cell.
   */
  lemma ReachedLeafBoundsGiveInterval(t: FittedTree, classes: seq<string>, row: seq<real>, f: nat)
    requires |classes| == t.nClasses && |row| == t.nFeatures && f < t.nFeatures
    ensures var leaf := Apply(t, row);
      var d := PathBounds(t, PathTo(t, leaf))[f];
      Lookup(d, Le).Some? && Lookup(d, Gt).Some? ==>
        LeafRule(t, classes, leaf).inputEntries[f] == Between(Lookup(d, Gt).value, Lookup(d, Le).value)
  {
    DecisionPathIsPathTo(t, row);
    PathBoundsNeverCross(t, row, f);
  }

  /**
   * A feature that no node on a row's path splits on gets an empty cell in the
   * rule of the leaf the row reaches, and only such a feature has no bound.
   */
  lemma UnsplitFeatureHasEmptyCell(t: FittedTree, classes: seq<string>, row: seq<real>, f: nat)
    requires |classes| == t.nClasses && |row| == t.nFeatures && f < t.nFeatures
    ensures var p := DecisionPath(t, row);
      (forall i | 0 <= i < |p| - 1 :: t.feature[p[i]] != f) <==> PathBounds(t, p)[f] == []
    ensures var p := DecisionPath(t, row);
      PathBounds(t, p)[f] == [] ==> LeafRule(t, classes, Apply(t, row)).inputEntries[f] == Empty
  {
    UnsplitFeatureStaysEmpty(t, DecisionPath(t, row), f);
    DecisionPathIsPathTo(t, row);
  }

  /**
   * The table covers the training data: for every row there is a rule for the
   * leaf it reaches, the row passes all of that rule's input tests, and the
   * rule's output is that leaf's class name; no two rules are for the same leaf.
   */
  lemma TableCoversEveryRow(t: FittedTree, rows: seq<seq<real>>, features: seq<string>, classColumn: string,
                            classes: seq<string>, r: nat)
    requires Fitted(t, rows, classes) && |features| == t.nFeatures && r < |rows|
    ensures var rules := DecisionTableFor(t, rows, features, classColumn, classes)[|features| + 1..];
      var leaves := ReachedLeaves(t, rows);
      exists k | 0 <= k < |leaves| ::
        && leaves[k] == Apply(t, rows[r])
        && rules[k].RuleRow?
        && rules[k].outputEntry == ClassName(t, classes, Apply(t, rows[r]))
        && (forall f | 0 <= f < t.nFeatures :: Satisfies(rows[r][f], rules[k].inputEntries[f]))
    ensures var leaves := ReachedLeaves(t, rows);
      forall k, k' | 0 <= k < k' < |leaves| :: leaves[k] != leaves[k']
  {
    var leaves := ReachedLeaves(t, rows);
    var leaf := Apply(t, rows[r]);
    RowLeafIsReached(t, rows, r);
    var k :| 0 <= k < |leaves| && leaves[k] == leaf;
    RuleHoldsForReachingRow(t, classes, rows[r]);
    var rules := DecisionTableFor(t, rows, features, classColumn, classes)[|features| + 1..];
    assert rules[k] == LeafRule(t, classes, leaf);
  }

  /** clfDmn, with the outcome of reading the CSV file and fitting the tree given. */
  class ClfDmn {
    const dmn: XmlDmn
    const tree: FittedTree
    const data: seq<seq<real>>
    const features: seq<string>
    const classColumn: string
    /** clf.classes_: the sorted class labels, indexed by the argmax of a leaf's counts. */
    const classes: seq<string>

    predicate Valid() {
      Fitted(tree, data, classes) && |features| == tree.nFeatures
    }

    constructor (dmn: XmlDmn, tree: FittedTree, data: seq<seq<real>>, features: seq<string>, classColumn: string,
                 classes: seq<string>)
      requires Fitted(tree, data, classes) && |features| == tree.nFeatures
      ensures Valid()
      ensures this.dmn == dmn && this.tree == tree && this.data == data
      ensures this.features == features && this.classColumn == classColumn && this.classes == classes
    {
      this.dmn := dmn;
      this.tree := tree;
      this.data := data;
      this.features := features;
      this.classColumn := classColumn;
      this.classes := classes;
    }

    /**
     * One pass of generateTableFromClf's loop: the first row through the leaf,
     * the bounds along its decision path, and the rule appended for them.
     */
    method AddLeafRule(i: nat)
      requires Valid() && i in LeafIds(tree, data)
      modifies dmn
      ensures dmn.elements == old(dmn.elements) + [LeafRule(tree, classes, i)]
    {
      HitLeaf(tree, data, i);
      var sampleId := FirstRowThrough(tree, data, i);
      var nodeIndex := DecisionPath(tree, data[sampleId]);
      LeafOnPathIffApply(tree, data[sampleId], i);
      var className := ClassName(tree, classes, i);
      var inputOutput := WalkPath(tree, nodeIndex);
      dmn.GenerateTableRows([(className, inputOutput)]);
      AnyRowGivesLeafRule(tree, classes, data[sampleId]);
      assert RuleRows([(className, inputOutput)]) == [LeafRule(tree, classes, i)];
    }

    /** The loop of generateTableFromClf: one rule per given leaf, in order. */
    method AddLeafRules(leaves: seq<nat>)
      requires Valid() && forall j | 0 <= j < |leaves| :: leaves[j] in LeafIds(tree, data) && leaves[j] < NodeCount(tree)
      modifies dmn
      ensures dmn.elements == old(dmn.elements) + LeafRules(tree, classes, leaves)
    {
      ghost var rules := LeafRules(tree, classes, leaves);
      for k := 0 to |leaves|
        invariant dmn.elements == old(dmn.elements) + rules[..k]
      {
        AddLeafRule(leaves[k]);
        AppendNext(old(dmn.elements), rules, k);
      }
      assert rules[..|leaves|] == rules;
    }

    /** Replaces the document's decision table by the one extracted from the tree. */
    method GenerateTableFromClf()
      requires Valid()
      modifies dmn
      ensures dmn.elements == DecisionTableFor(tree, data, features, classColumn, classes)
    {
      var featuresForDiagram := features + [classColumn];
      dmn.ClearDecisionTable();
      dmn.GenerateTableColumns(featuresForDiagram);
      assert dmn.elements == Columns(featuresForDiagram);
      var leaves := ReachedLeaves(tree, data);
      AddLeafRules(leaves);
    }
  }
}
