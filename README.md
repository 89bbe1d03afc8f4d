# clf_dmn: decision table extraction from a fitted classification tree

`clf_dmn.py` fits a classification tree to a CSV table. It then writes the tree
into the decision table of a DMN document:

- one input column per feature;
- one output column named after the class column;
- one rule per distinct leaf that some training row reaches.

To build a leaf's rule, the source walks the decision path of the first row
that reaches the leaf. Every step into a left child records a `<=` bound on the
parent's feature, and every step into a right child records a `>` bound. The
bounds of each feature become one input cell; the leaf's majority class becomes
the output entry.

This project models that core in Dafny:

| module | what it models |
|---|---|
| `Bounds` | the per-feature bound dictionary, as an insertion-ordered Python dict |
| `Cells` | the input cell a dictionary becomes, and its reading as a DMN unary test |
| `DecisionTree` | the fitted tree's node arrays, how a row is routed, and the shape of decision paths |
| `PathWalk` | the walk that fills the bound dictionaries from a decision path |
| `DmnTable` | `xmlDmn`: the decision table as a sequence of child elements, plus its three table operations |
| `Extraction` | `clfDmn.generateTableFromClf`: the reached leaves, the class label, the table it produces, and what that table says about the training rows |
| `PythonIndex` | Python's integer indexing, where negative indices count from the end |
| `FeatureNames` | the `featureNames` list of line 117 as written, which fails for single-feature data |
| `SeqFacts` | two facts about sequence prefixes, used by the loop proofs |

The central results are these:

- `ClfDmn.GenerateTableFromClf` leaves exactly `DecisionTableFor(...)` in the document. This uses the corrected feature lookup; as written, the source fails on single-feature data (see "## Findings").
- Any row that reaches a leaf produces that leaf's rule: the source's choice of the first such row does not matter (`AnyRowGivesLeafRule`).
- Every training row passes all input tests of its leaf's rule, and that rule's output is the leaf's argmax class (`TableCoversEveryRow`).

## Model

| member | source | states |
|---|---|---|
| `Bounds.Assign` | clf_dmn.py:142-145 | `d[s] = v` on an insertion-ordered dict: the key then maps to `v` and the other key is untouched; an existing key is overwritten in its place, a new key is appended; no key ever occurs twice |
| `Bounds.Lookup` | clf_dmn.py:62-71 | `v[keyValues][sign]`: a value found under a sign comes from an entry with that sign |
| `Bounds.LookupFindsEntry` | clf_dmn.py:62-71 | in a well-keyed dict, a lookup yields `v` if and only if the entry `(sign, v)` is present, and yields nothing if and only if no entry carries the sign |
| `Bounds.KeysDistinct` | clf_dmn.py:142-145 | a dict over the two signs is well keyed if and only if no two of its entries share a sign |
| `Bounds.FirstTwoEntries` | clf_dmn.py:58-73 | in a dict with two entries, the entries carry the two different signs, and each lookup finds its own entry |
| `Bounds.SingleEntry` | clf_dmn.py:61-62 | a one-entry dict has no value under the other sign |
| `Bounds.EmptyIffNoBound` | clf_dmn.py:59-60 | a dict is empty if and only if neither sign has a value |
| `Cells.RenderCell` | clf_dmn.py:58-73 | the cell written for one feature: no bound gives an empty cell; a single bound gives `<= hi` or `> lo`; both bounds give `]lo..hi]` when `lo < hi` and an empty cell otherwise. The result depends only on the two lookups, never on insertion order, and an interval is never inverted |
| `Cells.BoundsMetSatisfiesCell` | clf_dmn.py:58-73 | a value that meets every bound in a dict passes the DMN test of the cell built from that dict |
| `DmnTable.InputColumns` | clf_dmn.py:44-48 | one input column per name, in order |
| `DmnTable.Columns` | clf_dmn.py:40-49 | the header: an input column for every name but the last, in order, then one output column named by the last name |
| `DmnTable.RenderRow` | clf_dmn.py:55-73 | one input cell per feature dictionary, in dictionary order, each given by `RenderCell` |
| `DmnTable.RuleRows` | clf_dmn.py:51-76 | one rule per item, in order: the rendered cells, then the item's class name as the output entry |
| `DmnTable.XmlDmn.constructor` | clf_dmn.py:12-18 | the object holds the decision table of the document it is given |
| `DmnTable.XmlDmn.ClearDecisionTable` | clf_dmn.py:30-38 | afterwards the table has no input, output or rule child |
| `DmnTable.XmlDmn.GenerateTableColumns` | clf_dmn.py:40-49 | appends exactly `Columns(names)` and changes nothing before it; the names must be non-empty |
| `DmnTable.XmlDmn.GenerateTableRows` | clf_dmn.py:51-76 | appends exactly `RuleRows(mlDict)` and changes nothing before it |
| `DecisionTree.ParentFrom` | clf_dmn.py:119-120 | returns either no node, or a node at or after `n` that has `c` as its left or right child; `ParentFromIsFirst` shows it is the first such node, and `TREE_LEAF` exactly when there is none |
| `DecisionTree.ParentFromIsFirst` | clf_dmn.py:119-120 | `ParentFrom` returns the first node at or after `n` that has `c` as a child, and `TREE_LEAF` exactly when there is none |
| `DecisionTree.SplitFeature` | clf_dmn.py:117 | a node has a feature exactly when it is a split, and that feature is a valid column index |
| `DecisionTree.Next` | clf_dmn.py:118-121 | a row goes to the left child exactly when its value is `<=` the threshold, and to the right child exactly when it is `>` |
| `DecisionTree.RouteFrom` | clf_dmn.py:121 | the nodes a row visits from a node: a chain that ends at a leaf, where every step is the row's own test outcome |
| `DecisionTree.DecisionPath` | clf_dmn.py:121 | a row's decision path starts at the root, ends at a leaf, and follows the row's test outcomes |
| `DecisionTree.Apply` | clf_dmn.py:118 | every row reaches a leaf |
| `DecisionTree.ConsChain` | clf_dmn.py:121 | putting a split in front of a chain that starts at its child gives a chain |
| `DecisionTree.ConsRoute` | clf_dmn.py:121 | putting a split in front of the row's route from the child it picks gives the row's route |
| `DecisionTree.ChainRises` | clf_dmn.py:134 | node numbers strictly increase along a path: every node of a chain is numbered below every later node |
| `DecisionTree.UniqueParent` | clf_dmn.py:119-120 | a node is the child of at most one node |
| `DecisionTree.OneSideOnly` | clf_dmn.py:142-145 | a child of a split appears in only one of the two child arrays, so the two membership tests never both hold |
| `DecisionTree.RootIsNoChild` | clf_dmn.py:139-145 | the root is in neither child array, so its position on a path records nothing |
| `DecisionTree.InnerNodeIsSplit` | clf_dmn.py:134 | every node of a path but the last is a split |
| `DecisionTree.LeafEndsChain` | clf_dmn.py:131-133 | a leaf can only be the last node of a path |
| `DecisionTree.SameEndsSameChain` | clf_dmn.py:134 | two chains with the same first node and the same last node are equal |
| `DecisionTree.PrefixChain` | clf_dmn.py:134 | a non-empty prefix of a chain is a chain |
| `DecisionTree.SameLeafSamePath` | clf_dmn.py:131-134 | rows that reach the same leaf have the same decision path |
| `DecisionTree.LeafOnPathIffApply` | clf_dmn.py:131-133 | a leaf lies on a row's decision path if and only if the row reaches that leaf |
| `DecisionTree.PathTo` | clf_dmn.py:134 | following parents up from a node gives a chain that ends at that node |
| `DecisionTree.ConsChainEnd` | clf_dmn.py:134 | appending a child of a chain's last node gives a chain |
| `DecisionTree.ChainLastStep` | clf_dmn.py:134 | dropping the last node of a chain leaves a chain that ends at the dropped node's only parent |
| `DecisionTree.RootChainIsPathTo` | clf_dmn.py:134 | every chain from the root equals the parent path to its last node |
| `DecisionTree.DecisionPathIsPathTo` | clf_dmn.py:131-134 | a row's decision path depends only on the leaf it reaches |
| `PythonIndex.PyIndex` | clf_dmn.py:117 | Python's `s[i]` on a list or pandas Index: defined if and only if `-len(s) <= i < len(s)`, counting from the end for negative `i`; IndexError otherwise |
| `PythonIndex.FromTheEnd` | clf_dmn.py:140-141 | an index and the same index minus the length name the same element |
| `PathWalk.EmptyAccumulator` | clf_dmn.py:136-138 | before the walk, every feature has an empty bound dictionary |
| `PathWalk.RecordAt` | clf_dmn.py:140-145 | recording a bound keeps one well-keyed dictionary per feature |
| `PathWalk.Predecessor` | clf_dmn.py:140-141 | `nodeIndex[index-1]` with Python's indexing: at index 0 it is the last node of the path, otherwise the node before |
| `PathWalk.Step` | clf_dmn.py:139-145 | one iteration of the walk keeps one well-keyed dictionary per feature |
| `PathWalk.BoundsAfter` | clf_dmn.py:139-145 | the same holds after any number of iterations |
| `PathWalk.PathBounds` | clf_dmn.py:136-145 | the same holds after the whole walk |
| `PathWalk.WalkPath` | clf_dmn.py:136-145 | the two loops, run on a path, produce exactly `PathBounds` of that path |
| `PathWalk.RootStepIsNoOp` | clf_dmn.py:139-141 | the first iteration, which reads `nodeIndex[-1]`, leaves the accumulator unchanged |
| `PathWalk.StepAlongPath` | clf_dmn.py:139-145 | every later iteration records exactly one bound: the side taken, with the parent's threshold, under the parent's feature |
| `PathWalk.LookupAfterAssign` | clf_dmn.py:143-145 | an assignment under one feature and sign changes only the lookup under that feature and sign, to the assigned value |
| `PathWalk.LookupAfterStep` | clf_dmn.py:142-145 | one step changes the bound under a feature and sign only when it leaves a node splitting on that feature towards that side, and then sets it to that node's threshold |
| `PathWalk.BoundsAfterIsLastSplit` | clf_dmn.py:142-145 | under each feature and sign, the walk leaves the threshold of the last step in that direction at a node splitting on that feature (overwritten, not compared) |
| `PathWalk.NoBoundIffNoSplit` | clf_dmn.py:139-145 | a feature has no bound in either direction if and only if no node before the current position splits on it |
| `PathWalk.UnsplitFeatureStaysEmpty` | clf_dmn.py:137-145 | after the walk, a feature's dictionary is empty if and only if no node on the path before the leaf splits on it |
| `PathWalk.LastSplitHoldsForRow` | clf_dmn.py:142-145 | on a row's own path, the recorded threshold for a direction is a test the row passes |
| `PathWalk.RowMeetsPathBounds` | clf_dmn.py:136-145 | a row meets both bounds that the walk over its own path leaves under each feature |
| `PathWalk.PathCellsHoldForRow` | clf_dmn.py:58-73 | a row passes the test of every cell built from its own path |
| `PathWalk.PathBoundsNeverCross` | clf_dmn.py:63-73 | on a row's own path, the `>` bound is below the `<=` bound, so both together always give the interval cell |
| `Extraction.LeafIds` | clf_dmn.py:118 | one entry per training row: the leaf that row reaches |
| `Extraction.DistinctFrom` | clf_dmn.py:130 | the values of a list within a range, each once, in ascending order |
| `Extraction.ReachedLeaves` | clf_dmn.py:130 | `set(leafIds)` in ascending order: no repeats, and only leaves that some row reaches |
| `Extraction.RowLeafIsReached` | clf_dmn.py:130 | the leaf reached by every training row is among the iterated leaves |
| `Extraction.FirstRowFrom` | clf_dmn.py:131-133 | the first row, from a given row on, whose decision path contains the node |
| `Extraction.FirstRowThrough` | clf_dmn.py:131-133 | `rows[0]`: a row whose decision path contains the node, with no earlier row doing so |
| `Extraction.Argmax` | clf_dmn.py:135 | `np.argmax`: an index of a largest element, with every earlier element strictly smaller |
| `Extraction.ClassName` | clf_dmn.py:135 | the class whose count at the leaf is largest, the first such class on a tie |
| `Extraction.HitLeaf` | clf_dmn.py:130-133 | a node in `leafIds` is a leaf, and some row's decision path passes through it, so `rows[0]` exists |
| `Extraction.LeafRule` | clf_dmn.py:134-146 | the rule for a leaf has one cell per feature, no inverted interval, and the leaf's argmax class as output |
| `Extraction.LeafRules` | clf_dmn.py:130-146 | one rule per given leaf, in the same order |
| `Extraction.DecisionTableFor` | clf_dmn.py:124-146 | the final table: the feature columns in order, the class column, then one rule per reached leaf in ascending leaf order |
| `Extraction.AnyRowGivesLeafRule` | clf_dmn.py:131-146 | the rule built from the path of any row that reaches a leaf is that leaf's rule, so the choice of the first row does not matter |
| `Extraction.RuleHoldsForReachingRow` | clf_dmn.py:134-146 | a row passes every input test of the rule of the leaf it reaches |
| `Extraction.ReachedLeafBoundsGiveInterval` | clf_dmn.py:63-73 | in a reached leaf's rule, a feature with both bounds always gets the interval cell; the empty fallback for inverted bounds never fires |
| `Extraction.UnsplitFeatureHasEmptyCell` | clf_dmn.py:136-146 | a feature has no bound if and only if no split on the path tests it, and such a feature gets an empty cell |
| `Extraction.TableCoversEveryRow` | clf_dmn.py:115-147 | every training row has a rule for its leaf; the row passes all of that rule's input tests; its output is the leaf's class; no two rules are for the same leaf |
| `Extraction.ClfDmn.constructor` | clf_dmn.py:93-107 | the object holds the document, the fitted tree, the training rows, the feature names, the class column and the class labels it is given. The class labels stand for `clf.classes_`, the sorted label list that line 135 indexes with the argmax, not `dfClassNames` of line 102, which lists labels in order of appearance. Fitting on the features of the data guarantees they fit together, so the object starts valid |
| `Extraction.ClfDmn.AddLeafRule` | clf_dmn.py:131-146 | one pass of the loop appends exactly the leaf's rule |
| `Extraction.ClfDmn.AddLeafRules` | clf_dmn.py:130-146 | the loop appends exactly `LeafRules` of the given leaves |
| `Extraction.ClfDmn.GenerateTableFromClf` | clf_dmn.py:115-147 | afterwards the document's decision table is exactly `DecisionTableFor` of the tree, the rows, the feature names, the class column and the classes |
| `FeatureNames.NamesOf` | clf_dmn.py:117 | a Python list comprehension of look-ups succeeds if and only if every look-up does, and then yields each looked-up name in order |
| `FeatureNames.FeatureNamesAsWritten` | clf_dmn.py:117 | `featureNames` as written, over every node: it can be built if and only if the feature index of every node, leaves included, is a valid Python index into the names; it then holds each node's looked-up name |
| `FeatureNames.LastNodeIsLeaf` | clf_dmn.py:117 | the last node of a fitted tree is a leaf, with feature `-2` |
| `FeatureNames.FeatureNamesFailIffFewerThanTwo` | clf_dmn.py:117 | as written, building `featureNames` fails if and only if there are fewer than two features |
| `FeatureNames.StumpShowsTheFailure` | clf_dmn.py:117 | on the one-feature stump, the source's list cannot be built, while the corrected lookup finds the root's feature and no feature at the leaves |
| `FeatureNames.CorrectedLookupAtSplits` | clf_dmn.py:117 | the corrected lookup succeeds at every split; wherever the source's list can be built, it agrees with that list |

## Left out

- XML parsing, namespaces and saving the document are not modelled. The same goes for element ids (`idGen` is random), `createRuleCell`, `printDecisionTable` and the `print` calls in `generateTableRows`. The decision table is a sequence of abstract input, output and rule elements.
- Cell text is not modelled: `{:.4f}` formatting becomes a `Cell` value holding its thresholds exactly.
- Reading the CSV file and fitting the tree (`clfDmn.__init__`) are not modelled; their outcome is given to the constructor. `visualizeTree` and graphviz are not modelled either.
- sklearn's `apply` and `decision_path` are computed by routing a row through the node arrays (`<=` goes left). The sparse-matrix indexing of lines 131-134 is replaced by the row's path.
- Thresholds and feature values are `real`. sklearn casts the feature values to float32, computes the thresholds from them and stores them as float64, and compares the float32 value with the threshold; rounding is not modelled.
- `DecisionTree.FittedTree` is assumed, not checked. It requires every node to be a leaf or a split whose children are numbered after it, with each child having exactly one parent. The source assumes this of sklearn's trees too.
- `Extraction.ReachedLeaves`: `set(leafIds)` is taken in ascending order. The program's order is CPython's hash-table order. It is ascending only while every leaf id is below the table size: a set of 5 to 18 elements has 32 slots; an id of 32 or more is placed at slot id − 32, among the smallest ids, so the iteration is no longer ascending. On trees with such leaves, the order of the rules in `DecisionTableFor` differs from the program's. The set of rules, and each rule, are the same.
- Bounds are keyed by feature index, where the source keys them by feature name. The two agree when the column names are distinct. With duplicate names, the source would merge the bounds of two columns into one dictionary.
- clearDecisionTable also keeps children of the decision table that are not input, output or rule elements. Those are not in the model's element list, so the model's table becomes empty.
- `DmnTable.XmlDmn.GenerateTableColumns` requires at least one name, because `names[-1]` raises IndexError on an empty list. `generateTableFromClf` always passes at least the class column.
- A later bound in the same direction overwrites the earlier one, instead of keeping the tighter of the two bounds; the model does the same (`PathWalk.BoundsAfterIsLastSplit`). No error is raised for a malformed tree or an unreachable leaf: only reached leaves get a rule, by construction.
- On a tree where a later split in the same direction is looser than an earlier one, a rule's region is wider than its leaf's region. sklearn does not produce such splits.
- `clfDmn` inherits from `xmlDmn`; the model uses composition instead. `Extraction.ClfDmn` holds an `XmlDmn`.
- `inputOutput` is a `defaultdict` with a single class-name key per iteration, so it is modelled as one `(className, bounds)` item.
- `writeTree` (line 147) is not modelled.
- `Extraction.ClfDmn.GenerateTableFromClf` uses the corrected feature lookup, so it writes a table for single-feature data. The program raises IndexError at line 117 on such data, before it clears the table, and leaves the document unchanged (see "## Findings").
- `Bounds.Lookup`: its own contract states only that a value found comes from an entry with that sign; the exact characterisation for well-keyed dictionaries is `Bounds.LookupFindsEntry`.

## Findings

| source | as written | input that shows it | evidently intended | confidence | as-written member | corrected member |
|---|---|---|---|---|---|---|
| clf_dmn.py:117 | `featureNames` looks up a column name for every node, leaves included. At a leaf `tree_.feature` is `-2`, which Python reads as the second column from the end. | A CSV with one feature column, and any tree fitted to it: the `FeatureNames.Stump` tree with the feature named `x`. The lookup `dfFeature[-2]` raises IndexError before any table is written. | Look up a feature name only at split nodes, which are the only nodes whose name is used. | not executed | `FeatureNames.FeatureNamesAsWritten`, shown by `FeatureNames.StumpShowsTheFailure` and `FeatureNames.FeatureNamesFailIffFewerThanTwo` | `DecisionTree.SplitFeature`, used by `PathWalk.RecordAt` and proved by `FeatureNames.CorrectedLookupAtSplits` |
