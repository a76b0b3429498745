/**
 * The frame handling of the chart helpers: the sorted table view, the rows a
 * bar chart shows, the y-axis of the quarterly bar chart and the frame a donut
 * chart is drawn from. The helpers keep no state, so each is a function of its
 * inputs; the chart objects they build are not modelled.
 */
module Plots {
  import opened Tables
  import opened Ordering
  import opened Grouping

  // ----- sorted table view -----

  /**
   * May a row with key a come before a row with key b? Missing keys go last
   * in either direction; the others follow the cell order, reversed when
   * descending.
   */
  predicate NoLater(a: Cell, b: Cell, ascending: bool) {
    b.Missing? || (!a.Missing? && if ascending then !CellLt(b, a) else !CellLt(a, b))
  }

  lemma NoLaterTotal(a: Cell, b: Cell, ascending: bool)
    ensures NoLater(a, b, ascending) || NoLater(b, a, ascending)
  {
    if !a.Missing? && !b.Missing? && CellLt(a, b) && CellLt(b, a) {
      CellLtTransitive(a, b, a);
      CellLtIrreflexive(a);
    }
  }

  lemma NoLaterTransitive(a: Cell, b: Cell, c: Cell, ascending: bool)
    requires NoLater(a, b, ascending) && NoLater(b, c, ascending)
    ensures NoLater(a, c, ascending)
  {
    if !c.Missing? {
      CellLtTotal(a, b);
      if ascending && CellLt(c, a) && CellLt(a, b) {
        CellLtTransitive(c, a, b);
      }
      if !ascending && CellLt(a, c) && CellLt(b, a) {
        CellLtTransitive(b, a, c);
      }
    }
  }

  /** Every row has a cell at position p, the sort column. */
  predicate HasKey(rows: seq<Row>, p: nat) {
    forall i :: 0 <= i < |rows| ==> p < |rows[i].cells|
  }

  /** The rows are in the order sort_values produces on the cells at position p. */
  predicate SortedBy(rows: seq<Row>, p: nat, ascending: bool)
    requires HasKey(rows, p)
  {
    forall i, j :: 0 <= i < j < |rows| ==> NoLater(rows[i].cells[p], rows[j].cells[p], ascending)
  }

  /** Places x before the first row it may precede. */
  function InsertRow(x: Row, s: seq<Row>, p: nat, ascending: bool): (r: seq<Row>)
    requires p < |x.cells| && HasKey(s, p)
    ensures HasKey(r, p) && multiset(r) == multiset(s) + multiset{x}
  {
    if s == [] then [x]
    else if NoLater(x.cells[p], s[0].cells[p], ascending) then [x] + s
    else
      assert s == [s[0]] + s[1..];
      [s[0]] + InsertRow(x, s[1..], p, ascending)
  }

  /** A row that may precede the first of a sorted list may precede all of it. */
  lemma PrependSorted(x: Row, s: seq<Row>, p: nat, ascending: bool)
    requires p < |x.cells| && HasKey(s, p) && SortedBy(s, p, ascending)
    requires s != [] && NoLater(x.cells[p], s[0].cells[p], ascending)
    ensures HasKey([x] + s, p) && SortedBy([x] + s, p, ascending)
  {
    var r := [x] + s;
    forall i, j | 0 <= i < j < |r| ensures NoLater(r[i].cells[p], r[j].cells[p], ascending) {
      if i == 0 {
        if j > 1 { NoLaterTransitive(x.cells[p], s[0].cells[p], s[j - 1].cells[p], ascending); }
      } else {
        assert r[i] == s[i - 1] && r[j] == s[j - 1];
      }
    }
  }

  /** A row that may precede every row of a sorted list may head it. */
  lemma ConsSorted(y: Row, rest: seq<Row>, p: nat, ascending: bool)
    requires p < |y.cells| && HasKey(rest, p) && SortedBy(rest, p, ascending)
    requires forall k :: 0 <= k < |rest| ==> NoLater(y.cells[p], rest[k].cells[p], ascending)
    ensures HasKey([y] + rest, p) && SortedBy([y] + rest, p, ascending)
  {
    var r := [y] + rest;
    forall i, j | 0 <= i < j < |r| ensures NoLater(r[i].cells[p], r[j].cells[p], ascending) {
      assert r[j] == rest[j - 1];
      if i > 0 { assert r[i] == rest[i - 1]; }
    }
  }

  lemma {:induction false} InsertRowSorted(x: Row, s: seq<Row>, p: nat, ascending: bool)
    requires p < |x.cells| && HasKey(s, p) && SortedBy(s, p, ascending)
    ensures SortedBy(InsertRow(x, s, p, ascending), p, ascending)
  {
    if s == [] {
    } else if NoLater(x.cells[p], s[0].cells[p], ascending) {
      PrependSorted(x, s, p, ascending);
    } else {
      NoLaterTotal(x.cells[p], s[0].cells[p], ascending);
      InsertRowSorted(x, s[1..], p, ascending);
      var rest := InsertRow(x, s[1..], p, ascending);
      forall m | 0 <= m < |s[1..]| ensures NoLater(s[0].cells[p], s[1..][m].cells[p], ascending) {
        assert s[1..][m] == s[m + 1];
      }
      HeadPrecedesAll(s[0], x, s[1..], rest, p, ascending);
      ConsSorted(s[0], rest, p, ascending);
    }
  }

  /** A row that may precede x and every row of others may precede every row of others with x added. */
  lemma HeadPrecedesAll(h: Row, x: Row, others: seq<Row>, rest: seq<Row>, p: nat, ascending: bool)
    requires p < |h.cells| && p < |x.cells| && HasKey(others, p) && HasKey(rest, p)
    requires multiset(rest) == multiset(others) + multiset{x}
    requires NoLater(h.cells[p], x.cells[p], ascending)
    requires forall m :: 0 <= m < |others| ==> NoLater(h.cells[p], others[m].cells[p], ascending)
    ensures forall k :: 0 <= k < |rest| ==> NoLater(h.cells[p], rest[k].cells[p], ascending)
  {
    forall k | 0 <= k < |rest| ensures NoLater(h.cells[p], rest[k].cells[p], ascending) {
      var y := rest[k];
      assert y in multiset(rest);
      if y != x {
        assert y in multiset(others);
        var m :| 0 <= m < |others| && others[m] == y;
      }
    }
  }

  /** Insertion sort on the cells at position p: a reference for sort_values. */
  function SortRows(rows: seq<Row>, p: nat, ascending: bool): (r: seq<Row>)
    requires HasKey(rows, p)
    ensures HasKey(r, p) && multiset(r) == multiset(rows)
  {
    if rows == [] then []
    else
      assert rows == rows[..|rows| - 1] + [rows[|rows| - 1]];
      InsertRow(rows[|rows| - 1], SortRows(rows[..|rows| - 1], p, ascending), p, ascending)
  }

  lemma {:induction false} SortRowsSorted(rows: seq<Row>, p: nat, ascending: bool)
    requires HasKey(rows, p)
    ensures SortedBy(SortRows(rows, p, ascending), p, ascending)
  {
    if rows != [] {
      SortRowsSorted(rows[..|rows| - 1], p, ascending);
      InsertRowSorted(rows[|rows| - 1], SortRows(rows[..|rows| - 1], p, ascending), p, ascending);
    }
  }

  /** The column mixes numbers and text, which the frame library refuses to compare. */
  predicate Mixed(t: Table, name: string)
    requires WellFormed(t) && name in t.columns
  {
    (exists i :: 0 <= i < |t.rows| && At(t, i, name).Num?) && (exists i :: 0 <= i < |t.rows| && At(t, i, name).Text?)
  }

  /**
   * `sorted_df_visual(frame, sortBy, ascending)`: the same rows, labels
   * included, rearranged into sortBy order; the input frame is left as it is.
   */
  function SortedDf(t: Table, sortBy: string, ascending: bool): (r: Table)
    requires WellFormed(t) && sortBy in t.columns && !Mixed(t, sortBy)
    ensures WellFormed(r) && r.columns == t.columns
    ensures multiset(r.rows) == multiset(t.rows)
    ensures HasKey(r.rows, IndexOf(t.columns, sortBy)) && SortedBy(r.rows, IndexOf(t.columns, sortBy), ascending)
  {
    var p := IndexOf(t.columns, sortBy);
    var rows := SortRows(t.rows, p, ascending);
    SortRowsSorted(t.rows, p, ascending);
    forall i | 0 <= i < |rows| ensures |rows[i].cells| == |t.columns| {
      assert rows[i] in multiset(t.rows);
    }
    Table(t.columns, rows)
  }

  /** In an ascending sort, the first row holds a smallest key. */
  lemma SortedFirstIsSmallest(t: Table, sortBy: string, k: nat)
    requires WellFormed(t) && sortBy in t.columns && !Mixed(t, sortBy)
    requires k < |t.rows| && !At(t, k, sortBy).Missing?
    ensures var r := SortedDf(t, sortBy, true);
      |r.rows| > 0 && !CellLt(At(t, k, sortBy), At(r, 0, sortBy))
  {
    var r := SortedDf(t, sortBy, true);
    var p := IndexOf(t.columns, sortBy);
    assert t.rows[k] in multiset(r.rows);
    var j :| 0 <= j < |r.rows| && r.rows[j] == t.rows[k];
    assert At(r, 0, sortBy) == r.rows[0].cells[p] && At(t, k, sortBy) == r.rows[j].cells[p];
    if j > 0 {
      assert NoLater(r.rows[0].cells[p], r.rows[j].cells[p], true);
    } else {
      CellLtIrreflexive(At(t, k, sortBy));
    }
  }

  /** The frame of the chart helpers' example: three states and their net expenditure. */
  function SampleFrame(): Table {
    Table(["Länder", "NetExpenditure(TEUR)"],
          [Row(0, [Text("Berlin"), Num(1000)]), Row(1, [Text("Bayern"), Num(2000)]), Row(2, [Text("Hamburg"), Num(1500)])])
  }

  /** Sorting the example by expenditure, ascending, puts Berlin first. */
  lemma SampleSortsBerlinFirst()
    ensures var r := SortedDf(SampleFrame(), "NetExpenditure(TEUR)", true);
      |r.rows| > 0 && At(r, 0, "Länder") == Text("Berlin")
  {
    var t := SampleFrame();
    var r := SortedDf(t, "NetExpenditure(TEUR)", true);
    assert IndexOf(t.columns, "NetExpenditure(TEUR)") == 1;
    assert IndexOf(t.columns, "Länder") == 0;
    SortedFirstIsSmallest(t, "NetExpenditure(TEUR)", 0);
    assert r.rows[0] in multiset(t.rows);
    OnlyBerlinIsSmallest(r.rows[0]);
  }

  /** Of the example's rows, only Berlin's has no expenditure below Berlin's 1000. */
  lemma OnlyBerlinIsSmallest(first: Row)
    requires first in multiset(SampleFrame().rows) && |first.cells| == 2 && !CellLt(Num(1000), first.cells[1])
    ensures first.cells[0] == Text("Berlin")
  {
    assert first in SampleFrame().rows;
  }

  // ----- rows of the bar chart -----

  /** A non-empty list of states restricts the chart; None and the empty list do not. */
  predicate Restricts(chosenStates: Option<seq<string>>) {
    chosenStates.Some? && chosenStates.value != []
  }

  /** `frame[name] == value` for one row. */
  predicate CellIs(t: Table, row: Row, name: string, value: string)
    requires WellFormed(t) && name in t.columns
  {
    IndexOf(t.columns, name) < |row.cells| && row.cells[IndexOf(t.columns, name)] == Text(value)
  }

  /** `frame[name].isin(states)` for one row. */
  predicate CellIn(t: Table, row: Row, name: string, states: seq<string>)
    requires WellFormed(t) && name in t.columns
  {
    IndexOf(t.columns, name) < |row.cells| && row.cells[IndexOf(t.columns, name)].Text?
    && row.cells[IndexOf(t.columns, name)].s in states
  }

  /**
   * The rows `bar_plot_visual` draws: those whose columnName cell is filterBy
   * and, when chosenStates is a non-empty list, whose typeArea cell is one of
   * them; kept in the input's order.
   */
  function BarSelection(t: Table, columnName: string, filterBy: string, typeArea: string, chosenStates: Option<seq<string>>): (r: Table)
    requires WellFormed(t) && columnName in t.columns
    requires Restricts(chosenStates) ==> typeArea in t.columns
    ensures WellFormed(r) && r.columns == t.columns && |r.rows| <= |t.rows|
    ensures forall x :: x in r.rows <==>
      && x in t.rows && CellIs(t, x, columnName, filterBy)
      && (Restricts(chosenStates) ==> CellIn(t, x, typeArea, chosenStates.value))
    ensures IsSubsequence(r.rows, t.rows)
  {
    var byCategory := Select(t, x => CellIs(t, x, columnName, filterBy));
    if Restricts(chosenStates) then
      var r := Select(byCategory, x => CellIn(t, x, typeArea, chosenStates.value));
      IsSubsequenceTransitive(r.rows, byCategory.rows, t.rows);
      r
    else byCategory
  }

  // ----- y-axis of the grouped bar chart -----

  /** The y-axis settings: the shown range and the tick placement. */
  datatype Axis = Axis(low: int, high: int, tick0: int, dtick: int)

  /**
   * `update_yaxes(range=[0, max_value], tick0=0, dtick=max_value // 5)`: the
   * tick step is the largest whole step of which five still fit below the
   * maximum (floor division, also for a negative maximum).
   */
  function YAxis(maxValue: int): (a: Axis)
    ensures a.low == 0 && a.high == maxValue && a.tick0 == 0
    ensures 5 * a.dtick <= maxValue < 5 * a.dtick + 5
  {
    Axis(0, maxValue, 0, maxValue / 5)
  }

  /** The step is the only one with that property: floor division is determined by it. */
  lemma YAxisStepUnique(maxValue: int, d: int)
    requires 5 * d <= maxValue < 5 * d + 5
    ensures YAxis(maxValue).dtick == d
  {
    var a := YAxis(maxValue);
    assert 5 * a.dtick <= maxValue < 5 * a.dtick + 5;
  }

  // ----- frame of the donut chart -----

  const PercentageColumn := "Percentage"

  /**
   * The frame `donut_visual` hands to the chart: with inPercent, a copy of the
   * input with a Percentage column (its values are fractions, outside this
   * model, so its cells are Missing); without, the input itself. The caller's
   * frame is a value here and never gains the column.
   */
  function DonutData(t: Table, groupingType: string, inPercent: bool): (r: Table)
    requires WellFormed(t)
    requires inPercent ==> groupingType in t.columns && Summable(t, [groupingType])
    ensures !inPercent ==> r == t
    ensures inPercent ==> WellFormed(r) && |r.rows| == |t.rows|
    ensures inPercent ==> r.columns == if PercentageColumn in t.columns then t.columns else t.columns + [PercentageColumn]
    ensures inPercent ==> forall i, c :: 0 <= i < |r.rows| && c in t.columns && c != PercentageColumn ==> At(r, i, c) == At(t, i, c)
  {
    if inPercent then SetColumn(t, PercentageColumn, seq(|t.rows|, i => Missing)) else t
  }
}
