/**
 * The quarterly reshaping of the basic security benefits: a wide frame with
 * one column per quarter is melted into one (id, quarter, value) row per
 * cell, and the largest quarterly value is reported alongside.
 */
module Reshape {
  import opened Tables
  import opened Grouping

  // ----- arithmetic on the block layout of a melted frame -----

  lemma MulMonotone(a: int, b: int, n: int)
    requires a <= b && n >= 0
    ensures a * n <= b * n
  {
  }

  /** Position k of a frame made of m blocks of n rows lies in block k / n. */
  lemma BlockOf(k: int, n: int, m: int)
    requires 0 <= k < n * m && n >= 0 && m >= 0
    ensures n > 0 && 0 <= k / n < m && 0 <= k % n < n
  {
    if k / n >= m {
      MulMonotone(m, k / n, n);
    }
  }

  /** Row i of block j sits at position j * n + i. */
  lemma BlockPosition(i: int, j: int, n: int)
    requires 0 <= i < n && 0 <= j
    ensures (j * n + i) / n == j && (j * n + i) % n == i
  {
    var k := j * n + i;
    var q, r := k / n, k % n;
    assert q * n + r == j * n + i;
    if q < j {
      MulMonotone(q + 1, j, n);
    } else if q > j {
      MulMonotone(j + 1, q, n);
    }
  }

  // ----- melt -----

  /** What `pd.melt` refuses (a value_name that is already a column) or we cannot represent (duplicate columns). */
  predicate MeltNames(cols: seq<string>, varName: string, valueName: string) {
    && |cols| >= 1 && Distinct(cols)
    && varName !in cols && valueName !in cols && varName != valueName
  }

  /** Where the melt puts row i of period column j (j >= 1): block j - 1, offset i. */
  function Slot(i: nat, j: nat, n: nat): nat
    requires j >= 1
  {
    (j - 1) * n + i
  }

  lemma SlotInRange(i: nat, j: nat, n: nat, width: nat)
    requires i < n && 1 <= j < width
    ensures Slot(i, j, n) < n * (width - 1)
  {
    MulMonotone(j, width - 1, n);
  }

  /** Row k of the melt: the id cell, the name of the period column, and that column's cell. */
  function MeltRow(t: Table, cols: seq<string>, k: nat): (r: Row)
    requires WellFormed(t) && |cols| >= 1 && forall j :: 0 <= j < |cols| ==> cols[j] in t.columns
    requires k < |t.rows| * (|cols| - 1)
    ensures r.indexLabel == k && |r.cells| == 3
  {
    var n := |t.rows|;
    BlockOf(k, n, |cols| - 1);
    var i, j := k % n, k / n + 1;
    Row(k, [At(t, i, cols[0]), Text(cols[j]), At(t, i, cols[j])])
  }

  /** The melted row for input row i and period column j. */
  function Triple(t: Table, cols: seq<string>, i: nat, j: nat): seq<Cell>
    requires WellFormed(t) && forall j :: 0 <= j < |cols| ==> cols[j] in t.columns
    requires i < |t.rows| && 1 <= j < |cols|
  {
    [At(t, i, cols[0]), Text(cols[j]), At(t, i, cols[j])]
  }

  /**
   * `pd.melt(frame[cols], id_vars=[cols[0]], var_name=varName, value_name=valueName)`:
   * the period columns cols[1..] one after the other, each contributing one
   * row per input row, renumbered from 0.
   */
  function Melt(t: Table, cols: seq<string>, varName: string, valueName: string): (m: Table)
    requires WellFormed(t) && MeltNames(cols, varName, valueName)
    requires forall j :: 0 <= j < |cols| ==> cols[j] in t.columns
    ensures WellFormed(m) && m.columns == [cols[0], varName, valueName]
    ensures |m.rows| == |t.rows| * (|cols| - 1) && Renumbered(m.rows)
    ensures forall i, j :: 0 <= i < |t.rows| && 1 <= j < |cols| ==>
      Slot(i, j, |t.rows|) < |m.rows| && m.rows[Slot(i, j, |t.rows|)].cells == Triple(t, cols, i, j)
  {
    var m := Table([cols[0], varName, valueName],
                   seq(|t.rows| * (|cols| - 1), k requires 0 <= k < |t.rows| * (|cols| - 1) => MeltRow(t, cols, k)));
    forall i, j | 0 <= i < |t.rows| && 1 <= j < |cols|
      ensures Slot(i, j, |t.rows|) < |m.rows| && m.rows[Slot(i, j, |t.rows|)].cells == Triple(t, cols, i, j)
    {
      MeltRowAtSlot(t, cols, i, j);
    }
    m
  }

  /** The melted row at the slot of input row i and period column j holds that row's cells. */
  lemma MeltRowAtSlot(t: Table, cols: seq<string>, i: nat, j: nat)
    requires WellFormed(t) && forall j :: 0 <= j < |cols| ==> cols[j] in t.columns
    requires i < |t.rows| && 1 <= j < |cols|
    ensures Slot(i, j, |t.rows|) < |t.rows| * (|cols| - 1)
    ensures MeltRow(t, cols, Slot(i, j, |t.rows|)).cells == Triple(t, cols, i, j)
  {
    BlockPosition(i, j - 1, |t.rows|);
    SlotInRange(i, j, |t.rows|, |cols|);
  }

  /** Every row of the melt comes from one input row and one period column. */
  lemma MeltRowsFromCells(t: Table, cols: seq<string>, varName: string, valueName: string, k: nat)
    requires WellFormed(t) && MeltNames(cols, varName, valueName)
    requires forall j :: 0 <= j < |cols| ==> cols[j] in t.columns
    requires k < |Melt(t, cols, varName, valueName).rows|
    ensures exists i, j :: 0 <= i < |t.rows| && 1 <= j < |cols| &&
                           Melt(t, cols, varName, valueName).rows[k].cells == Triple(t, cols, i, j)
  {
    var n := |t.rows|;
    BlockOf(k, n, |cols| - 1);
    var i, j := k % n, k / n + 1;
    assert k == Slot(i, j, n);
  }

  /** Cell k of the melted value column is the value cell of melted row k. */
  lemma MeltValueCell(t: Table, cols: seq<string>, varName: string, valueName: string, k: nat)
    requires WellFormed(t) && MeltNames(cols, varName, valueName)
    requires forall j :: 0 <= j < |cols| ==> cols[j] in t.columns
    requires k < |Melt(t, cols, varName, valueName).rows|
    ensures Column(Melt(t, cols, varName, valueName), valueName)[k] == Melt(t, cols, varName, valueName).rows[k].cells[2]
  {
    var m := Melt(t, cols, varName, valueName);
    assert IndexOf(m.columns, valueName) == 2;
  }

  /** Every value of the melted value column is a cell of a period column. */
  lemma MeltValuesFromCells(t: Table, cols: seq<string>, varName: string, valueName: string, c: Cell)
    requires WellFormed(t) && MeltNames(cols, varName, valueName)
    requires forall j :: 0 <= j < |cols| ==> cols[j] in t.columns
    requires c in Column(Melt(t, cols, varName, valueName), valueName)
    ensures exists i, j :: 0 <= i < |t.rows| && 1 <= j < |cols| && At(t, i, cols[j]) == c
  {
    var m := Melt(t, cols, varName, valueName);
    var values := Column(m, valueName);
    var k :| 0 <= k < |values| && values[k] == c;
    MeltValueCell(t, cols, varName, valueName, k);
    MeltRowsFromCells(t, cols, varName, valueName, k);
    var i, j :| 0 <= i < |t.rows| && 1 <= j < |cols| && m.rows[k].cells == Triple(t, cols, i, j);
    assert At(t, i, cols[j]) == c;
  }

  /** Every cell of a period column appears in the melted value column. */
  lemma MeltValuesToCells(t: Table, cols: seq<string>, varName: string, valueName: string, i: nat, j: nat)
    requires WellFormed(t) && MeltNames(cols, varName, valueName)
    requires forall j :: 0 <= j < |cols| ==> cols[j] in t.columns
    requires i < |t.rows| && 1 <= j < |cols|
    ensures At(t, i, cols[j]) in Column(Melt(t, cols, varName, valueName), valueName)
  {
    var m := Melt(t, cols, varName, valueName);
    var k := Slot(i, j, |t.rows|);
    MeltValueCell(t, cols, varName, valueName, k);
    assert Column(m, valueName)[k] == At(t, i, cols[j]);
  }

  // ----- maxima that skip missing values -----

  /** No cell is text: `max()` over numbers and NaN only (text beside a number raises TypeError). */
  predicate NoTextCells(cells: seq<Cell>) {
    forall k :: 0 <= k < |cells| ==> !cells[k].Text?
  }

  /** The named columns hold numbers and NaN only. */
  predicate NumericColumns(t: Table, names: seq<string>)
    requires WellFormed(t) && forall j :: 0 <= j < |names| ==> names[j] in t.columns
  {
    forall i, j :: 0 <= i < |t.rows| && 0 <= j < |names| ==> !At(t, i, names[j]).Text?
  }

  /** The period columns cols[1..] that exist hold numbers and NaN only. */
  predicate PeriodsNumeric(t: Table, cols: seq<string>)
    requires WellFormed(t)
  {
    forall i, j :: 0 <= i < |t.rows| && 1 <= j < |cols| && cols[j] in t.columns ==> !At(t, i, cols[j]).Text?
  }

  /** The running maximum after one more cell; a missing value leaves it as it is. */
  function Join(m: Option<int>, c: Cell): Option<int> {
    match c
    case Num(x) => if m.None? || m.value < x then Some(x) else m
    case _ => m
  }

  /** `Series.max()`: the largest number among the cells, None (NaN) if there is none. */
  function CellsMax(cells: seq<Cell>): (m: Option<int>)
    requires NoTextCells(cells)
    ensures m.None? <==> forall k :: 0 <= k < |cells| ==> cells[k].Missing?
    ensures m.Some? ==> Num(m.value) in cells
    ensures m.Some? ==> forall k :: 0 <= k < |cells| && cells[k].Num? ==> cells[k].n <= m.value
  {
    if cells == [] then None
    else
      var prefix := cells[..|cells| - 1];
      assert forall k :: 0 <= k < |cells| - 1 ==> cells[k] == prefix[k];
      var rest := CellsMax(prefix);
      Join(rest, cells[|cells| - 1])
  }

  /** The maximum of a list of column maxima, skipping the columns that have none. */
  function MaxOfMaxima(ms: seq<Option<int>>): (m: Option<int>)
    ensures m.None? <==> forall k :: 0 <= k < |ms| ==> ms[k].None?
    ensures m.Some? ==> Some(m.value) in ms
    ensures m.Some? ==> forall k :: 0 <= k < |ms| && ms[k].Some? ==> ms[k].value <= m.value
  {
    if ms == [] then None
    else
      var prefix := ms[..|ms| - 1];
      var rest := MaxOfMaxima(prefix);
      assert forall k :: 0 <= k < |ms| - 1 ==> ms[k] == prefix[k];
      var last := ms[|ms| - 1];
      if last.None? then rest
      else if rest.None? || rest.value < last.value then last
      else rest
  }

  /** `frame[names].max().max()`: the maximum of each column, then the maximum of those. */
  function MaxOfColumns(t: Table, names: seq<string>): Option<int>
    requires WellFormed(t) && (forall j :: 0 <= j < |names| ==> names[j] in t.columns) && NumericColumns(t, names)
  {
    MaxOfMaxima(ColumnMaxima(t, names))
  }

  /** The maximum of the maxima is the maximum over every cell of the named columns. */
  lemma MaxOfColumnsIsMax(t: Table, names: seq<string>)
    requires WellFormed(t) && (forall j :: 0 <= j < |names| ==> names[j] in t.columns) && NumericColumns(t, names)
    ensures var m := MaxOfColumns(t, names);
      && (m.None? <==> forall c :: InColumns(t, names, c) ==> c.Missing?)
      && (m.Some? ==> InColumns(t, names, Num(m.value)))
      && (m.Some? ==> forall c :: InColumns(t, names, c) && c.Num? ==> c.n <= m.value)
  {
    var ms := ColumnMaxima(t, names);
    var m := MaxOfMaxima(ms);
    assert m == MaxOfColumns(t, names);
    forall c | InColumns(t, names, c) && c.Num?
      ensures m.Some? && c.n <= m.value
    {
      CellUnderColumnMax(t, names, c);
      var j :| 0 <= j < |ms| && ms[j].Some? && c.n <= ms[j].value;
    }
    if m.Some? {
      var j :| 0 <= j < |ms| && ms[j] == Some(m.value);
      ColumnMaxIsCell(t, names, j);
    }
  }

  /** The maximum of each named column, in order. */
  function ColumnMaxima(t: Table, names: seq<string>): (ms: seq<Option<int>>)
    requires WellFormed(t) && (forall j :: 0 <= j < |names| ==> names[j] in t.columns) && NumericColumns(t, names)
    ensures |ms| == |names|
    ensures forall j :: 0 <= j < |names| ==> NoTextCells(Column(t, names[j])) && ms[j] == CellsMax(Column(t, names[j]))
  {
    assert forall j :: 0 <= j < |names| ==> NoTextCells(Column(t, names[j]));
    seq(|names|, j requires 0 <= j < |names| => CellsMax(Column(t, names[j])))
  }

  /** A cell of a named column is bounded by that column's maximum, which then exists. */
  lemma CellUnderColumnMax(t: Table, names: seq<string>, c: Cell)
    requires WellFormed(t) && (forall j :: 0 <= j < |names| ==> names[j] in t.columns) && NumericColumns(t, names)
    requires InColumns(t, names, c)
    ensures var ms := ColumnMaxima(t, names);
      c.Num? ==> exists j :: 0 <= j < |ms| && ms[j].Some? && c.n <= ms[j].value
  {
    var i, j :| 0 <= i < |t.rows| && 0 <= j < |names| && At(t, i, names[j]) == c;
    var col := Column(t, names[j]);
    assert col[i] == c;
    if c.Num? {
      assert ColumnMaxima(t, names)[j] == CellsMax(col);
      assert CellsMax(col).Some? && c.n <= CellsMax(col).value;
    }
  }

  /** A column's maximum is one of that column's cells. */
  lemma ColumnMaxIsCell(t: Table, names: seq<string>, j: nat)
    requires WellFormed(t) && (forall j :: 0 <= j < |names| ==> names[j] in t.columns) && NumericColumns(t, names)
    requires j < |names| && ColumnMaxima(t, names)[j].Some?
    ensures InColumns(t, names, Num(ColumnMaxima(t, names)[j].value))
  {
    var col := Column(t, names[j]);
    var i :| 0 <= i < |col| && col[i] == Num(ColumnMaxima(t, names)[j].value);
    assert At(t, i, names[j]) == col[i];
  }

  /**
   * `max_quarterly_assessment(frame, cols, varName, valueName)`: None when a
   * column of cols is missing (the KeyError the method catches); otherwise the
   * melted frame and the largest value of the period columns cols[1..].
   */
  function MaxQuarterlyAssessment(t: Table, cols: seq<string>, varName: string, valueName: string): (r: Option<(Table, Option<int>)>)
    requires WellFormed(t) && MeltNames(cols, varName, valueName) && PeriodsNumeric(t, cols)
    ensures r.None? <==> exists j :: 0 <= j < |cols| && cols[j] !in t.columns
    ensures r.Some? ==> NumericColumns(t, cols[1..])
    ensures r.Some? ==> r.value.0 == Melt(t, cols, varName, valueName) && r.value.1 == MaxOfColumns(t, cols[1..])
  {
    if exists j :: 0 <= j < |cols| && cols[j] !in t.columns then None
    else
      PeriodsAreNumericColumns(t, cols);
      Some((Melt(t, cols, varName, valueName), MaxOfColumns(t, cols[1..])))
  }

  /** When every column is present, the period condition is NumericColumns of cols[1..]. */
  lemma PeriodsAreNumericColumns(t: Table, cols: seq<string>)
    requires WellFormed(t) && |cols| >= 1 && (forall j :: 0 <= j < |cols| ==> cols[j] in t.columns) && PeriodsNumeric(t, cols)
    ensures NumericColumns(t, cols[1..])
  {
    forall i, j | 0 <= i < |t.rows| && 0 <= j < |cols[1..]| ensures !At(t, i, cols[1..][j]).Text? {
      assert cols[1..][j] == cols[j + 1];
    }
  }

  /**
   * The reported maximum is the maximum of the melted value column: the chart
   * that draws the melted frame is scaled to its largest bar.
   */
  lemma MaxQuarterlyIsMeltedMax(t: Table, cols: seq<string>, varName: string, valueName: string)
    requires WellFormed(t) && MeltNames(cols, varName, valueName) && PeriodsNumeric(t, cols)
    requires forall j :: 0 <= j < |cols| ==> cols[j] in t.columns
    ensures var r := MaxQuarterlyAssessment(t, cols, varName, valueName);
      r.Some? && NoTextCells(Column(r.value.0, valueName)) && r.value.1 == CellsMax(Column(r.value.0, valueName))
  {
    PeriodsAreNumericColumns(t, cols);
    MeltValuesAreColumnCells(t, cols, varName, valueName);
    var values := Column(Melt(t, cols, varName, valueName), valueName);
    forall k | 0 <= k < |values| ensures !values[k].Text? {
      assert values[k] in values;
    }
    MaxOfColumnsIsMax(t, cols[1..]);
    MaxOfSameCells(t, cols[1..], Column(Melt(t, cols, varName, valueName), valueName), MaxOfColumns(t, cols[1..]));
  }

  /** The melted value column holds exactly the cells of the period columns cols[1..]. */
  lemma MeltValuesAreColumnCells(t: Table, cols: seq<string>, varName: string, valueName: string)
    requires WellFormed(t) && MeltNames(cols, varName, valueName)
    requires forall j :: 0 <= j < |cols| ==> cols[j] in t.columns
    ensures forall c :: c in Column(Melt(t, cols, varName, valueName), valueName) <==> InColumns(t, cols[1..], c)
  {
    forall c ensures c in Column(Melt(t, cols, varName, valueName), valueName) <==> InColumns(t, cols[1..], c) {
      if c in Column(Melt(t, cols, varName, valueName), valueName) {
        MeltValueInPeriods(t, cols, varName, valueName, c);
      }
      if InColumns(t, cols[1..], c) {
        PeriodCellInMelt(t, cols, varName, valueName, c);
      }
    }
  }

  lemma MeltValueInPeriods(t: Table, cols: seq<string>, varName: string, valueName: string, c: Cell)
    requires WellFormed(t) && MeltNames(cols, varName, valueName)
    requires forall j :: 0 <= j < |cols| ==> cols[j] in t.columns
    requires c in Column(Melt(t, cols, varName, valueName), valueName)
    ensures InColumns(t, cols[1..], c)
  {
    MeltValuesFromCells(t, cols, varName, valueName, c);
    var i, j :| 0 <= i < |t.rows| && 1 <= j < |cols| && At(t, i, cols[j]) == c;
    assert cols[1..][j - 1] == cols[j];
  }

  lemma PeriodCellInMelt(t: Table, cols: seq<string>, varName: string, valueName: string, c: Cell)
    requires WellFormed(t) && MeltNames(cols, varName, valueName)
    requires forall j :: 0 <= j < |cols| ==> cols[j] in t.columns
    requires InColumns(t, cols[1..], c)
    ensures c in Column(Melt(t, cols, varName, valueName), valueName)
  {
    var names := cols[1..];
    var i, j :| 0 <= i < |t.rows| && 0 <= j < |names| && At(t, i, names[j]) == c;
    MeltValuesToCells(t, cols, varName, valueName, i, j + 1);
  }

  /** c is a cell of one of the named columns. */
  predicate InColumns(t: Table, names: seq<string>, c: Cell)
    requires WellFormed(t) && forall j :: 0 <= j < |names| ==> names[j] in t.columns
  {
    exists i, j :: 0 <= i < |t.rows| && 0 <= j < |names| && At(t, i, names[j]) == c
  }

  /** A list holding exactly the cells of the named columns has their maximum. */
  lemma MaxOfSameCells(t: Table, names: seq<string>, values: seq<Cell>, m: Option<int>)
    requires WellFormed(t) && forall j :: 0 <= j < |names| ==> names[j] in t.columns
    requires NoTextCells(values) && forall c :: c in values <==> InColumns(t, names, c)
    requires m.None? <==> forall c :: InColumns(t, names, c) ==> c.Missing?
    requires m.Some? ==> InColumns(t, names, Num(m.value))
    requires m.Some? ==> forall c :: InColumns(t, names, c) && c.Num? ==> c.n <= m.value
    ensures CellsMax(values) == m
  {
    forall k | 0 <= k < |values| ensures InColumns(t, names, values[k]) {
      assert values[k] in values;
    }
    if m.Some? {
      assert Num(m.value) in values;
    }
    MaxIsUnique(values, m);
  }

  /** Whatever is the largest number of a list, and absent exactly when it has none, is its CellsMax. */
  lemma MaxIsUnique(values: seq<Cell>, m: Option<int>)
    requires NoTextCells(values)
    requires m.None? <==> forall k :: 0 <= k < |values| ==> values[k].Missing?
    requires m.Some? ==> Num(m.value) in values
    requires m.Some? ==> forall k :: 0 <= k < |values| && values[k].Num? ==> values[k].n <= m.value
    ensures CellsMax(values) == m
  {
    var v := CellsMax(values);
    if m.Some? {
      var k :| 0 <= k < |values| && values[k] == Num(m.value);
      var k' :| 0 <= k' < |values| && values[k'] == Num(v.value);
    }
  }
}
