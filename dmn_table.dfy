/**
 * The decision table of the DMN document as an abstract sequence of its child
 * elements (input columns, the output column, rules), and the xmlDmn methods
 * that append to it. Element ids, the XML tree and file I/O are not modelled.
 */
module DmnTable {
  import opened Bounds
  import opened Cells
  import opened SeqFacts

  datatype Element =
    | InputColumn(name: string)                            // <input> whose inputExpression text is name
    | OutputColumn(name: string)                           // <output name=name>
    | RuleRow(inputEntries: seq<Cell>, outputEntry: string) // <rule>: input entries, then one output entry

  /** One input column per name. */
  function InputColumns(names: seq<string>): (cols: seq<Element>)
    ensures |cols| == |names|
    ensures forall i | 0 <= i < |names| :: cols[i] == InputColumn(names[i])
  {
    if names == [] then [] else [InputColumn(names[0])] + InputColumns(names[1..])
  }

  /**
   * The header that generateTableColumns writes: an input column for every name
   * but the last, in order, then a single output column named by the last name.
   */
  function Columns(names: seq<string>): (cols: seq<Element>)
    requires |names| >= 1
    ensures |cols| == |names|
    ensures forall i | 0 <= i < |names| - 1 :: cols[i] == InputColumn(names[i])
    ensures cols[|names| - 1] == OutputColumn(names[|names| - 1])
  {
    InputColumns(names[..|names| - 1]) + [OutputColumn(names[|names| - 1])]
  }

  predicate AllWellKeyed(bounds: seq<BoundDict>) {
    forall f | 0 <= f < |bounds| :: WellKeyed(bounds[f])
  }

  /** One input cell per bound dictionary, in the same order. */
  function RenderRow(bounds: seq<BoundDict>): (cells: seq<Cell>)
    requires AllWellKeyed(bounds)
    ensures |cells| == |bounds|
    ensures forall f | 0 <= f < |bounds| :: cells[f] == RenderCell(bounds[f])
  {
    if bounds == [] then [] else [RenderCell(bounds[0])] + RenderRow(bounds[1..])
  }

  /** The rules generateTableRows appends for the (class name, bounds) items it is given. */
  function RuleRows(items: seq<(string, seq<BoundDict>)>): (rules: seq<Element>)
    requires forall k | 0 <= k < |items| :: AllWellKeyed(items[k].1)
    ensures |rules| == |items|
    ensures forall k | 0 <= k < |items| :: rules[k] == RuleRow(RenderRow(items[k].1), items[k].0)
  {
    if items == [] then [] else [RuleRow(RenderRow(items[0].1), items[0].0)] + RuleRows(items[1..])
  }

  class XmlDmn {
    /** The children of the decisionTable element, in document order. */
    var elements: seq<Element>

    /** The decision table of a parsed document, given by its children. */
    constructor (table: seq<Element>)
      ensures elements == table
    {
      elements := table;
    }

    /**
     * clearDecisionTable: removes every input, output and rule child. The
     * abstract table holds no other kind of child, so it becomes empty.
     */
    method ClearDecisionTable()
      modifies this
      ensures elements == []
    {
      elements := [];
    }

    /** Appends the header for names; names[-1] needs at least one name. */
    method GenerateTableColumns(names: seq<string>)
      requires |names| >= 1
      modifies this
      ensures elements == old(elements) + Columns(names)
    {
      var outputName := names[|names| - 1];
      var inputNames := names[..|names| - 1];
      for i := 0 to |inputNames|
        invariant elements == old(elements) + InputColumns(inputNames[..i])
      {
        TakeSnoc(inputNames, i);
        assert InputColumns(inputNames[..i + 1]) == InputColumns(inputNames[..i]) + [InputColumn(inputNames[i])];
        elements := elements + [InputColumn(inputNames[i])];
      }
      assert inputNames[..|inputNames|] == inputNames;
      elements := elements + [OutputColumn(outputName)];
    }

    /**
     * Appends one rule per item: an input cell for every bound dictionary, in
     * order, then one output entry holding the class name.
     */
    method GenerateTableRows(mlDict: seq<(string, seq<BoundDict>)>)
      requires forall k | 0 <= k < |mlDict| :: AllWellKeyed(mlDict[k].1)
      modifies this
      ensures elements == old(elements) + RuleRows(mlDict)
    {
      for k := 0 to |mlDict|
        invariant elements == old(elements) + RuleRows(mlDict[..k])
      {
        var (className, v) := mlDict[k];
        var cells: seq<Cell> := [];
        for f := 0 to |v|
          invariant |cells| == f
          invariant forall g | 0 <= g < f :: cells[g] == RenderCell(v[g])
        {
          cells := cells + [RenderCell(v[f])];
        }
        assert cells == RenderRow(v);
        TakeSnoc(mlDict, k);
        assert RuleRows(mlDict[..k + 1]) == RuleRows(mlDict[..k]) + [RuleRow(RenderRow(v), className)];
        elements := elements + [RuleRow(cells, className)];
      }
      assert mlDict[..|mlDict|] == mlDict;
    }
  }
}
