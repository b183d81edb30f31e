/**
 * The "Table View" tab. Starting from the sidebar's view, every selected
 * column narrows the table in turn: a numeric column to the slider's
 * inclusive range, a column with at most ten distinct values to the values
 * ticked in its picker, any other column not at all. Then a search box
 * matches against the whole row's text, and the rows left are shown
 * projected onto the selected columns, in the order they were selected.
 */
module TableView {
  import opened Dataset
  import opened Text
  import opened Selection

  /**
   * The widgets of the tab. A column missing from `ranges` (`picks`) has its
   * slider (picker) at the default, the column's full [min, max] (all its
   * values), which every non-NaN cell meets.
   */
  datatype Controls = Controls(
    columns: seq<Column>,
    search: string,
    ranges: map<Column, (real, real)>,
    picks: map<Column, set<Value>>)

  /** One displayed row; `highlighted` rows are tinted as radioactive. */
  datatype ShownRow = ShownRow(values: seq<Value>, highlighted: bool)

  datatype Payload =
    | NoColumnsSelected                          // the "select at least one column" warning
    | Shown(header: seq<Column>, rows: seq<ShownRow>)

  /** The distinct non-NaN values of a column (`nunique` counts these). */
  function Distinct(rows: seq<Element>, c: Column): set<Value> {
    set i | 0 <= i < |rows| && !Cell(rows[i], c).Absent? :: Cell(rows[i], c)
  }

  predicate LowCardinality(rows: seq<Element>, c: Column) {
    |Distinct(rows, c)| <= 10
  }

  /** The slider's mask on a numeric column. */
  function RangeTest(c: Column, ctl: Controls): Test {
    if c in ctl.ranges then ValueBetween(c, ctl.ranges[c].0, ctl.ranges[c].1) else ValuePresent(c)
  }

  /** The picker's mask on a low-cardinality column. */
  function PickTest(c: Column, ctl: Controls): Test {
    if c in ctl.picks then ValueOneOf(c, ctl.picks[c]) else ValuePresent(c)
  }

  /** The mask a column's widget would impose, were it shown. */
  function ColumnTest(c: Column, numericHeaders: set<string>, ctl: Controls): Test {
    if IsNumeric(c, numericHeaders) then RangeTest(c, ctl) else PickTest(c, ctl)
  }

  /**
   * One pass of the column loop, on the table as it stands: a column with a
   * widget keeps the rows its mask admits, a column without one keeps all.
   */
  function NarrowByColumn(rows: seq<Element>, c: Column, numericHeaders: set<string>, ctl: Controls): (out: seq<Element>)
    ensures forall r :: r in out <==>
              r in rows && ((!IsNumeric(c, numericHeaders) && !LowCardinality(rows, c))
                            || Holds(ColumnTest(c, numericHeaders, ctl), r))
    ensures Subsequence(out, rows)
  {
    SubsequenceReflexive(rows);
    if IsNumeric(c, numericHeaders) then Keep(rows, RangeTest(c, ctl))
    else if LowCardinality(rows, c) then Keep(rows, PickTest(c, ctl))
    else rows
  }

  /** The column loop, column by column: what is left is some of the rows, in their order. */
  function ColumnFilter(rows: seq<Element>, cols: seq<Column>, numericHeaders: set<string>, ctl: Controls): (out: seq<Element>)
    ensures Subsequence(out, rows)
    decreases |cols|
  {
    if cols == [] then SubsequenceReflexive(rows); rows
    else
      var narrowed := NarrowByColumn(rows, cols[0], numericHeaders, ctl);
      var out := ColumnFilter(narrowed, cols[1..], numericHeaders, ctl);
      SubsequenceTransitive(out, narrowed, rows);
      out
  }

  /** The rows whose text (`row.to_string()`, given as `render`) contains the query, case ignored. */
  function SearchRows(rows: seq<Element>, query: string, render: Element -> string): (found: seq<Element>)
    ensures forall r :: r in found <==> r in rows && ContainsIgnoringCase(render(r), query)
    ensures Subsequence(found, rows)
  {
    if rows == [] then []
    else if ContainsIgnoringCase(render(rows[0]), query) then [rows[0]] + SearchRows(rows[1..], query, render)
    else SearchRows(rows[1..], query, render)
  }

  /** `filtered_table` as it is displayed: the column loop, then the search if one is typed. */
  function TableRows(view: seq<Element>, numericHeaders: set<string>, ctl: Controls, render: Element -> string): seq<Element> {
    var narrowed := ColumnFilter(view, ctl.columns, numericHeaders, ctl);
    if ctl.search != "" then SearchRows(narrowed, ctl.search, render) else narrowed
  }

  /** The row's cells under the selected columns, in their order. */
  function ProjectRow(r: Element, cols: seq<Column>): (values: seq<Value>)
    ensures |values| == |cols|
    ensures forall j :: 0 <= j < |cols| ==> values[j] == Cell(r, cols[j])
  {
    if cols == [] then [] else [Cell(r, cols[0])] + ProjectRow(r, cols[1..])
  }

  /** `highlight_radioactive`: only when Radioactive is a displayed column holding "yes". */
  predicate Highlighted(r: Element, cols: seq<Column>) {
    RadioactiveCol in cols && Cell(r, RadioactiveCol) == Text("yes")
  }

  /** `filtered_table[selected_columns]`, with each row's highlight. */
  function Project(rows: seq<Element>, cols: seq<Column>): (shown: seq<ShownRow>)
    ensures |shown| == |rows|
    ensures forall i :: 0 <= i < |rows| ==> shown[i] == ShownRow(ProjectRow(rows[i], cols), Highlighted(rows[i], cols))
  {
    if rows == [] then [] else [ShownRow(ProjectRow(rows[0], cols), Highlighted(rows[0], cols))] + Project(rows[1..], cols)
  }

  /**
   * The column loop as the tab runs it: `filtered_table` is reassigned once
   * per selected column.
   */
  method FilterColumns(view: seq<Element>, numericHeaders: set<string>, ctl: Controls) returns (table: seq<Element>)
    ensures table == ColumnFilter(view, ctl.columns, numericHeaders, ctl)
    ensures Subsequence(table, view)
  {
    table := view;
    SubsequenceReflexive(view);
    var k := 0;
    while k < |ctl.columns|
      invariant 0 <= k <= |ctl.columns|
      invariant ColumnFilter(table, ctl.columns[k..], numericHeaders, ctl) == ColumnFilter(view, ctl.columns, numericHeaders, ctl)
      invariant Subsequence(table, view)
    {
      var column := ctl.columns[k];
      assert ctl.columns[k..][1..] == ctl.columns[k + 1..];
      var before := table;
      if IsNumeric(column, numericHeaders) {
        table := Keep(table, RangeTest(column, ctl));
        SubsequenceTransitive(table, before, view);
      } else if |Distinct(table, column)| <= 10 {
        table := Keep(table, PickTest(column, ctl));
        SubsequenceTransitive(table, before, view);
      }
      k := k + 1;
    }
  }

  /**
   * The tab: a warning and no rows when no column is selected; otherwise
   * the filtered, searched rows projected onto the selected columns.
   */
  method ShowTable(view: seq<Element>, numericHeaders: set<string>, ctl: Controls, render: Element -> string)
    returns (payload: Payload)
    ensures ctl.columns == [] <==> payload == NoColumnsSelected
    ensures ctl.columns != [] ==>
      payload == Shown(ctl.columns, Project(TableRows(view, numericHeaders, ctl, render), ctl.columns))
  {
    if |ctl.columns| == 0 {
      return NoColumnsSelected;
    }
    var table := FilterColumns(view, numericHeaders, ctl);
    if ctl.search != "" {
      table := SearchRows(table, ctl.search, render);
    }
    payload := Shown(ctl.columns, Project(table, ctl.columns));
  }

  /**
   * Whatever the column loop keeps came from the input and meets the range
   * of every selected numeric column; it also meets the picker of every
   * selected column that had at most ten distinct values in the input
   * (narrowing never adds values, so that picker was shown).
   */
  lemma {:induction false} ColumnFilterSound(rows: seq<Element>, cols: seq<Column>, numericHeaders: set<string>, ctl: Controls, r: Element)
    requires r in ColumnFilter(rows, cols, numericHeaders, ctl)
    ensures r in rows
    ensures forall c :: c in cols && IsNumeric(c, numericHeaders) ==> Holds(RangeTest(c, ctl), r)
    ensures forall c :: c in cols && !IsNumeric(c, numericHeaders) && LowCardinality(rows, c) ==> Holds(PickTest(c, ctl), r)
    decreases |cols|
  {
    if cols != [] {
      var next := NarrowByColumn(rows, cols[0], numericHeaders, ctl);
      ColumnFilterSound(next, cols[1..], numericHeaders, ctl, r);
      forall c | c in cols[1..] && !IsNumeric(c, numericHeaders) && LowCardinality(rows, c)
        ensures LowCardinality(next, c)
      {
        DistinctShrinks(next, rows, c);
      }
      assert forall c :: c in cols ==> c == cols[0] || c in cols[1..];
    }
  }

  /**
   * Conversely, a row of the input that meets every selected column's
   * widget is kept, whether or not the widget was shown.
   */
  lemma {:induction false} ColumnFilterComplete(rows: seq<Element>, cols: seq<Column>, numericHeaders: set<string>, ctl: Controls, r: Element)
    requires r in rows
    requires forall c :: c in cols ==> Holds(ColumnTest(c, numericHeaders, ctl), r)
    ensures r in ColumnFilter(rows, cols, numericHeaders, ctl)
    decreases |cols|
  {
    if cols != [] {
      var next := NarrowByColumn(rows, cols[0], numericHeaders, ctl);
      assert Holds(ColumnTest(cols[0], numericHeaders, ctl), r) by {
        assert cols[0] in cols;
      }
      assert r in next;
      assert forall c :: c in cols[1..] ==> c in cols;
      ColumnFilterComplete(next, cols[1..], numericHeaders, ctl, r);
    }
  }

  /** A sub-table never has more distinct values in a column. */
  lemma DistinctShrinks(sub: seq<Element>, rows: seq<Element>, c: Column)
    requires forall r :: r in sub ==> r in rows
    ensures Distinct(sub, c) <= Distinct(rows, c)
    ensures |Distinct(sub, c)| <= |Distinct(rows, c)|
  {
    var small, big := Distinct(sub, c), Distinct(rows, c);
    forall v | v in small ensures v in big {
      var i :| 0 <= i < |sub| && !Cell(sub[i], c).Absent? && Cell(sub[i], c) == v;
      assert sub[i] in rows;
      var j :| 0 <= j < |rows| && rows[j] == sub[i];
    }
    assert big == small + (big - small);
  }

  /**
   * Every displayed row is the projection of a row of the input view that
   * meets each numeric column's range and contains the search text.
   */
  lemma ShownRowsMatch(view: seq<Element>, numericHeaders: set<string>, ctl: Controls, render: Element -> string, i: nat)
    requires ctl.columns != []
    requires i < |TableRows(view, numericHeaders, ctl, render)|
    ensures var r := TableRows(view, numericHeaders, ctl, render)[i];
            && r in view
            && Project(TableRows(view, numericHeaders, ctl, render), ctl.columns)[i].values == ProjectRow(r, ctl.columns)
            && (forall c :: c in ctl.columns && IsNumeric(c, numericHeaders) ==> Holds(RangeTest(c, ctl), r))
            && (ctl.search != "" ==> ContainsIgnoringCase(render(r), ctl.search))
  {
    var rows := TableRows(view, numericHeaders, ctl, render);
    var r := rows[i];
    var narrowed := ColumnFilter(view, ctl.columns, numericHeaders, ctl);
    assert r in narrowed;
    ColumnFilterSound(view, ctl.columns, numericHeaders, ctl, r);
  }
}
