/**
 * The clean-up steps a dataset applies to its frame after reading it: the
 * numeric conversion of chosen columns, the removal of "Total" rows with the
 * index reset that follows, and the year-range selection.
 */
module Cleaning {
  import opened Tables
  import opened Regions

  // ----- numeric conversion -----

  /** `pd.to_numeric(..., errors="coerce")` of one cell: integer text is read, anything else unreadable becomes missing. */
  function ToNumeric(c: Cell): (r: Cell)
    ensures !r.Text?
    ensures c.Num? ==> r == c
    ensures c.Missing? ==> r.Missing?
  {
    match c
    case Num(_) => c
    case Text(s) => (match ParseInt(s) case Some(n) => Num(n) case None => Missing)
    case Missing => Missing
  }

  /** Converting a converted cell changes nothing. */
  lemma ToNumericIdempotent(c: Cell)
    ensures ToNumeric(ToNumeric(c)) == ToNumeric(c)
  {
  }

  /** The text form of an integer is read back as that integer. */
  lemma ToNumericOfNumberText(n: int)
    ensures ToNumeric(Text(IntToString(n))) == Num(n)
  {
    ParseIntOfIntToString(n);
  }

  /** `fillna(0)` of one cell. */
  function FillCell(c: Cell): (r: Cell)
    ensures !r.Missing?
    ensures c.Missing? ==> r == Num(0)
    ensures !c.Missing? ==> r == c
  {
    if c.Missing? then Num(0) else c
  }

  /** `frame[name] = pd.to_numeric(frame[name], errors="coerce")`. */
  function ConvertColumn(t: Table, name: string): (r: Table)
    requires WellFormed(t) && name in t.columns
    ensures WellFormed(r) && r.columns == t.columns && |r.rows| == |t.rows|
    ensures forall i :: 0 <= i < |r.rows| ==> r.rows[i].indexLabel == t.rows[i].indexLabel
    ensures forall i :: 0 <= i < |r.rows| ==> At(r, i, name) == ToNumeric(At(t, i, name))
    ensures forall i, c :: 0 <= i < |r.rows| && c in t.columns && c != name ==> At(r, i, c) == At(t, i, c)
  {
    SetColumn(t, name, seq(|t.rows|, i requires 0 <= i < |t.rows| => ToNumeric(At(t, i, name))))
  }

  predicate AllColumns(t: Table, names: seq<string>) {
    forall j :: 0 <= j < |names| ==> names[j] in t.columns
  }

  /** The frame after the conversion loop has converted names, one after the other. */
  function ConvertColumns(t: Table, names: seq<string>): (r: Table)
    requires WellFormed(t) && AllColumns(t, names)
    ensures WellFormed(r) && r.columns == t.columns && |r.rows| == |t.rows|
    ensures forall i :: 0 <= i < |r.rows| ==> r.rows[i].indexLabel == t.rows[i].indexLabel
    decreases |names|
  {
    if names == [] then t
    else ConvertColumn(ConvertColumns(t, names[..|names| - 1]), names[|names| - 1])
  }

  /** After the loop, a listed column holds the conversion of its original cells and every other column is untouched. */
  lemma {:induction false} ConvertColumnsCells(t: Table, names: seq<string>, i: nat, c: string)
    requires WellFormed(t) && AllColumns(t, names) && i < |t.rows| && c in t.columns
    ensures At(ConvertColumns(t, names), i, c) == if c in names then ToNumeric(At(t, i, c)) else At(t, i, c)
    decreases |names|
  {
    if names != [] {
      var init := names[..|names| - 1];
      var last := names[|names| - 1];
      assert names == init + [last];
      ConvertColumnsCells(t, init, i, c);
      if c == last {
        ToNumericIdempotent(At(t, i, c));
      }
    }
  }

  /** `frame.fillna(0)`: every missing cell of the frame becomes 0. */
  function FillNa(t: Table): (r: Table)
    requires WellFormed(t)
    ensures WellFormed(r) && r.columns == t.columns && |r.rows| == |t.rows|
    ensures forall i :: 0 <= i < |r.rows| ==> r.rows[i].indexLabel == t.rows[i].indexLabel
    ensures forall i, c :: 0 <= i < |r.rows| && c in t.columns ==> At(r, i, c) == FillCell(At(t, i, c))
  {
    Table(t.columns, seq(|t.rows|, i requires 0 <= i < |t.rows| =>
      Row(t.rows[i].indexLabel, seq(|t.rows[i].cells|, k requires 0 <= k < |t.rows[i].cells| => FillCell(t.rows[i].cells[k])))))
  }

  /** The position of the first name that is not a column (the KeyError), or |names| when there is none. */
  function FirstAbsent(names: seq<string>, columns: seq<string>): (k: nat)
    ensures k <= |names|
    ensures forall j :: 0 <= j < k ==> names[j] in columns
    ensures k < |names| ==> names[k] !in columns
  {
    if names == [] || names[0] !in columns then 0 else 1 + FirstAbsent(names[1..], columns)
  }

  /**
   * A successful conversion leaves no missing cell anywhere, every listed
   * column numeric, unreadable text as 0 and the text form of an integer as
   * that integer.
   */
  lemma ConvertedCell(t: Table, names: seq<string>, i: nat, c: string)
    requires WellFormed(t) && AllColumns(t, names) && i < |t.rows| && c in t.columns
    ensures var r := FillNa(ConvertColumns(t, names));
      && !At(r, i, c).Missing?
      && (At(t, i, c).Missing? ==> At(r, i, c) == Num(0))
      && (c in names ==> At(r, i, c).Num?)
      && (c in names && At(t, i, c).Text? && ParseInt(At(t, i, c).s).None? ==> At(r, i, c) == Num(0))
      && (forall n :: c in names && At(t, i, c) == Text(IntToString(n)) ==> At(r, i, c) == Num(n))
      && (c !in names ==> At(r, i, c) == FillCell(At(t, i, c)))
  {
    ConvertColumnsCells(t, names, i, c);
    forall n | c in names && At(t, i, c) == Text(IntToString(n)) ensures ToNumeric(At(t, i, c)) == Num(n) {
      ToNumericOfNumberText(n);
    }
  }

  // ----- removing "Total" rows -----

  /** `row.astype(str).str.contains("Total").any()`. */
  predicate HasTotal(row: Row) {
    exists k :: 0 <= k < |row.cells| && Contains(CellText(row.cells[k]), "Total")
  }

  /** No cell of the frame, printed, contains "Total". */
  predicate NoTotalCells(t: Table) {
    forall i, k :: 0 <= i < |t.rows| && 0 <= k < |t.rows[i].cells| ==> !Contains(CellText(t.rows[i].cells[k]), "Total")
  }

  /** The frame without the rows that mention "Total" in some cell, labels kept. */
  function DropTotals(t: Table): (r: Table)
    requires WellFormed(t)
    ensures WellFormed(r) && r.columns == t.columns && NoTotalCells(r)
    ensures forall x :: x in r.rows <==> x in t.rows && !HasTotal(x)
    ensures IsSubsequence(r.rows, t.rows)
  {
    var r := Select(t, row => !HasTotal(row));
    assert forall i :: 0 <= i < |r.rows| ==> r.rows[i] in r.rows;
    r
  }

  /**
   * `df[~df.apply(..., axis=1)]`, the first step of filter_data. On a frame
   * with rows the mask is boolean and the "Total" rows are dropped. On a
   * frame without rows `apply` yields an empty float Series instead, which
   * indexing reads as an empty list of column names, so no column is kept.
   */
  function WithoutTotals(t: Table): (r: Table)
    requires WellFormed(t)
    ensures WellFormed(r) && NoTotalCells(r)
    ensures forall x :: x in r.rows <==> x in t.rows && !HasTotal(x)
    ensures r.columns == if t.rows == [] then [] else t.columns
  {
    if t.rows == [] then Table([], []) else DropTotals(t)
  }

  /** The name `reset_index(drop=False)` gives the old labels: "index", or "level_0" when "index" is taken. */
  function LabelColumn(columns: seq<string>): (n: Option<string>)
    ensures n.None? <==> "index" in columns && "level_0" in columns
    ensures n.Some? ==> n.value !in columns && (n.value == "index" || n.value == "level_0")
    ensures "index" !in columns ==> n == Some("index")
  {
    if "index" !in columns then Some("index")
    else if "level_0" !in columns then Some("level_0")
    else None
  }

  /** `reset_index(drop=False)`: the old labels become the first column and the rows are renumbered; None is the ValueError when no name is free. */
  function ResetIndex(t: Table): (r: Option<Table>)
    requires WellFormed(t)
    ensures r.None? <==> "index" in t.columns && "level_0" in t.columns
    ensures r.Some? ==>
      && WellFormed(r.value) && Renumbered(r.value.rows) && |r.value.rows| == |t.rows|
      && r.value.columns == [LabelColumn(t.columns).value] + t.columns
      && forall i :: 0 <= i < |t.rows| ==> r.value.rows[i].cells == [Num(t.rows[i].indexLabel)] + t.rows[i].cells
  {
    match LabelColumn(t.columns)
    case None => None
    case Some(name) =>
      Some(Table([name] + t.columns, seq(|t.rows|, i requires 0 <= i < |t.rows| =>
        Row(i, [Num(t.rows[i].indexLabel)] + t.rows[i].cells))))
  }

  /** Reading a cell of the reset frame by name: the label column holds the old labels, every old column its old cells. */
  lemma ResetIndexCells(t: Table, i: nat)
    requires WellFormed(t) && ResetIndex(t).Some? && i < |t.rows|
    ensures var r := ResetIndex(t).value;
      && At(r, i, LabelColumn(t.columns).value) == Num(t.rows[i].indexLabel)
      && forall c :: c in t.columns ==> At(r, i, c) == At(t, i, c)
  {
    var r := ResetIndex(t).value;
    forall c | c in t.columns ensures IndexOf(r.columns, c) == 1 + IndexOf(t.columns, c) {
      assert r.columns[0] != c && r.columns[1..] == t.columns;
    }
  }

  lemma ResetIndexNoTotal(t: Table)
    requires WellFormed(t) && NoTotalCells(t) && ResetIndex(t).Some?
    ensures NoTotalCells(ResetIndex(t).value)
  {
    var r := ResetIndex(t).value;
    forall i, k | 0 <= i < |r.rows| && 0 <= k < |r.rows[i].cells|
      ensures !Contains(CellText(r.rows[i].cells[k]), "Total")
    {
      if k == 0 {
        NumberTextHasNoTotal(t.rows[i].indexLabel);
      } else {
        assert r.rows[i].cells[k] == t.rows[i].cells[k - 1];
      }
    }
  }

  /** `frame[regionCol] = frame["Länder"].astype(str)`; None is the KeyError when there is no state column. */
  function RegionAsText(t: Table, regionCol: string): (r: Option<Table>)
    requires WellFormed(t)
    ensures r.None? <==> RegionColumn !in t.columns
    ensures r.Some? ==> WellFormed(r.value) && |r.value.rows| == |t.rows|
    ensures r.Some? ==> r.value.columns == if regionCol in t.columns then t.columns else t.columns + [regionCol]
    ensures r.Some? ==> forall i :: 0 <= i < |t.rows| ==> r.value.rows[i].indexLabel == t.rows[i].indexLabel
    ensures r.Some? ==> forall i :: 0 <= i < |t.rows| ==> At(r.value, i, regionCol) == Text(CellText(At(t, i, RegionColumn)))
    ensures r.Some? ==> forall i, c :: 0 <= i < |t.rows| && c in t.columns && c != regionCol ==> At(r.value, i, c) == At(t, i, c)
  {
    if RegionColumn !in t.columns then None
    else Some(SetColumn(t, regionCol, seq(|t.rows|, i requires 0 <= i < |t.rows| => Text(CellText(At(t, i, RegionColumn))))))
  }

  lemma RegionAsTextNoTotal(t: Table, regionCol: string)
    requires WellFormed(t) && NoTotalCells(t) && RegionAsText(t, regionCol).Some?
    ensures NoTotalCells(RegionAsText(t, regionCol).value)
  {
    var r := RegionAsText(t, regionCol).value;
    forall i, k | 0 <= i < |r.rows| && 0 <= k < |r.rows[i].cells|
      ensures !Contains(CellText(r.rows[i].cells[k]), "Total")
    {
      IndexOfDistinct(r.columns, k);
      var c := r.columns[k];
      assert r.rows[i].cells[k] == At(r, i, c);
      var p := IndexOf(t.columns, RegionColumn);
      assert At(t, i, RegionColumn) == t.rows[i].cells[p];
      if c != regionCol {
        var q := IndexOf(t.columns, c);
        assert At(t, i, c) == t.rows[i].cells[q];
      }
    }
  }

  /**
   * Dataset.filter_data: drop the "Total" rows, move the labels into a
   * column, and copy the state names as text into regionCol. Every exception
   * is swallowed by the `finally: return`, so a failing step leaves the frame
   * as the previous step made it; with no frame at all the result is None.
   */
  function FilterDataResult(df: Option<Table>, regionCol: string): (r: Option<Table>)
    requires df.Some? ==> WellFormed(df.value)
    ensures r.Some? <==> df.Some?
    ensures r.Some? ==> WellFormed(r.value)
  {
    match df
    case None => None
    case Some(t) =>
      var kept := WithoutTotals(t);
      match ResetIndex(kept)
      case None => Some(kept)
      case Some(reset) =>
        match RegionAsText(reset, regionCol)
        case None => Some(reset)
        case Some(r) => Some(r)
  }

  /** Whichever step fails, no cell of the filtered frame mentions "Total". */
  lemma FilterDataNoTotal(df: Option<Table>, regionCol: string)
    requires df.Some? && WellFormed(df.value)
    ensures NoTotalCells(FilterDataResult(df, regionCol).value)
  {
    var kept := WithoutTotals(df.value);
    if ResetIndex(kept).Some? {
      ResetIndexNoTotal(kept);
      var reset := ResetIndex(kept).value;
      if RegionAsText(reset, regionCol).Some? {
        RegionAsTextNoTotal(reset, regionCol);
      }
    }
  }

  /**
   * A failing step is not rolled back: without a free label name the frame
   * keeps its rows without "Total"; without "Länder" it keeps them with the
   * label column ("index" when that name is free) already added. A frame
   * without rows loses all its columns in the first step, so "Länder" is
   * always missing and only an empty "index" column is left.
   */
  lemma FilterDataPartial(t: Table, regionCol: string)
    requires WellFormed(t)
    ensures t.rows == [] ==> FilterDataResult(Some(t), regionCol) == Some(Table(["index"], []))
    ensures var kept := DropTotals(t);
      && (t.rows != [] && ResetIndex(kept).None? ==> FilterDataResult(Some(t), regionCol) == Some(kept))
      && (t.rows != [] && ResetIndex(kept).Some? && RegionColumn !in t.columns ==>
            && FilterDataResult(Some(t), regionCol) == ResetIndex(kept)
            && ("index" !in t.columns ==> ResetIndex(kept).value.columns == ["index"] + t.columns))
  {
    var kept := DropTotals(t);
    if t.rows == [] {
      var reset := ResetIndex(Table([], [])).value;
      assert LabelColumn([]) == Some("index") && reset.rows == [];
      assert reset == Table(["index"], []);
    } else if ResetIndex(kept).Some? && RegionColumn !in t.columns {
      assert RegionColumn !in ResetIndex(kept).value.columns;
    }
  }

  /**
   * When every step succeeds, the rows are exactly the rows without "Total"
   * in their original order, renumbered, with the old labels in the new first
   * column, the other columns unchanged and the state names copied as text.
   */
  lemma FilterDataRows(t: Table, regionCol: string)
    requires WellFormed(t) && RegionColumn in t.columns
    requires "index" !in t.columns || "level_0" !in t.columns
    ensures var kept := DropTotals(t);
      var r := FilterDataResult(Some(t), regionCol).value;
      var labelCol := LabelColumn(t.columns).value;
      && Renumbered(r.rows) && |r.rows| == |kept.rows|
      && (forall x :: x in kept.rows <==> x in t.rows && !HasTotal(x))
      && IsSubsequence(kept.rows, t.rows)
      && (forall i :: 0 <= i < |r.rows| ==> At(r, i, regionCol) == Text(CellText(At(kept, i, RegionColumn))))
      && (forall i :: 0 <= i < |r.rows| && labelCol != regionCol ==> At(r, i, labelCol) == Num(kept.rows[i].indexLabel))
      && (forall i, c :: 0 <= i < |r.rows| && c in t.columns && c != regionCol ==> At(r, i, c) == At(kept, i, c))
  {
    var kept := DropTotals(t);
    if t.rows != [] {
      RegionAfterReset(kept, regionCol);
    } else {
      FilterDataPartial(t, regionCol);
    }
  }

  /** The last two steps of filter_data, on any frame with a state column and a free label name. */
  lemma RegionAfterReset(kept: Table, regionCol: string)
    requires WellFormed(kept) && RegionColumn in kept.columns
    requires "index" !in kept.columns || "level_0" !in kept.columns
    ensures var reset := ResetIndex(kept).value;
      var r := RegionAsText(reset, regionCol).value;
      var labelCol := LabelColumn(kept.columns).value;
      && Renumbered(r.rows) && |r.rows| == |kept.rows|
      && (forall i :: 0 <= i < |r.rows| ==> At(r, i, regionCol) == Text(CellText(At(kept, i, RegionColumn))))
      && (forall i :: 0 <= i < |r.rows| && labelCol != regionCol ==> At(r, i, labelCol) == Num(kept.rows[i].indexLabel))
      && (forall i, c :: 0 <= i < |r.rows| && c in kept.columns && c != regionCol ==> At(r, i, c) == At(kept, i, c))
  {
    var reset := ResetIndex(kept).value;
    forall i | 0 <= i < |kept.rows|
      ensures At(reset, i, LabelColumn(kept.columns).value) == Num(kept.rows[i].indexLabel)
      ensures forall c :: c in kept.columns ==> At(reset, i, c) == At(kept, i, c)
    {
      ResetIndexCells(kept, i);
    }
    RegionOverReset(kept, reset, RegionAsText(reset, regionCol).value, LabelColumn(kept.columns).value, regionCol);
  }

  /** Reading the state-text step's frame back in terms of the frame before the index reset. */
  lemma RegionOverReset(kept: Table, reset: Table, r: Table, labelCol: string, regionCol: string)
    requires WellFormed(kept) && WellFormed(reset) && WellFormed(r) && RegionColumn in kept.columns
    requires reset.columns == [labelCol] + kept.columns && Renumbered(reset.rows) && |reset.rows| == |kept.rows|
    requires forall i :: 0 <= i < |kept.rows| ==> At(reset, i, labelCol) == Num(kept.rows[i].indexLabel)
    requires forall i, c :: 0 <= i < |kept.rows| && c in kept.columns ==> At(reset, i, c) == At(kept, i, c)
    requires r.columns == if regionCol in reset.columns then reset.columns else reset.columns + [regionCol]
    requires |r.rows| == |reset.rows|
    requires forall i :: 0 <= i < |reset.rows| ==> r.rows[i].indexLabel == reset.rows[i].indexLabel
    requires forall i :: 0 <= i < |reset.rows| ==> At(r, i, regionCol) == Text(CellText(At(reset, i, RegionColumn)))
    requires forall i, c :: 0 <= i < |reset.rows| && c in reset.columns && c != regionCol ==> At(r, i, c) == At(reset, i, c)
    ensures && Renumbered(r.rows) && |r.rows| == |kept.rows|
      && (forall i :: 0 <= i < |r.rows| ==> At(r, i, regionCol) == Text(CellText(At(kept, i, RegionColumn))))
      && (forall i :: 0 <= i < |r.rows| && labelCol != regionCol ==> At(r, i, labelCol) == Num(kept.rows[i].indexLabel))
      && (forall i, c :: 0 <= i < |r.rows| && c in kept.columns && c != regionCol ==> At(r, i, c) == At(kept, i, c))
  {
    assert labelCol in reset.columns;
    assert forall c :: c in kept.columns ==> c in reset.columns;
  }

  // ----- year range -----

  /** `frame["Year"].between(start, end)` for one row: a year within both bounds; a missing year is never in range. */
  predicate InYears(row: Row, p: nat, start: int, end: int) {
    p < |row.cells| && row.cells[p].Num? && start <= row.cells[p].n <= end
  }

  /** The year column holds no text (comparing text with a number raises). */
  predicate YearsComparable(t: Table, yearCol: string)
    requires WellFormed(t) && yearCol in t.columns
  {
    forall i :: 0 <= i < |t.rows| ==> !At(t, i, yearCol).Text?
  }

  /** Subsistence.filter_data: the rows whose year lies in [start, end], in order, labels kept. */
  function YearFilter(t: Table, yearCol: string, start: int, end: int): (r: Table)
    requires WellFormed(t) && yearCol in t.columns && YearsComparable(t, yearCol)
    ensures WellFormed(r) && r.columns == t.columns && IsSubsequence(r.rows, t.rows)
    ensures forall x :: x in r.rows <==> x in t.rows && InYears(x, IndexOf(t.columns, yearCol), start, end)
    ensures YearsComparable(r, yearCol)
  {
    var p := IndexOf(t.columns, yearCol);
    var r := Select(t, row => InYears(row, p, start, end));
    assert forall i :: 0 <= i < |r.rows| ==> r.rows[i] in r.rows;
    r
  }

  /** Filtering rows that already pass a test by a test they all pass changes nothing. */
  lemma {:induction false} WhereAgain(rows: seq<Row>, keep: Row -> bool)
    requires forall x :: x in rows ==> keep(x)
    ensures Where(rows, keep) == rows
  {
    if rows != [] {
      WhereAgain(rows[1..], keep);
    }
  }

  /** A narrower year range applied after a wider one gives what the narrower one alone gives. */
  lemma {:induction false} WhereNarrowing(rows: seq<Row>, p: nat, a: int, b: int, c: int, d: int)
    requires a <= c && d <= b
    ensures Where(Where(rows, row => InYears(row, p, a, b)), row => InYears(row, p, c, d))
         == Where(rows, row => InYears(row, p, c, d))
  {
    if rows != [] {
      WhereNarrowing(rows[1..], p, a, b, c, d);
    }
  }

  /** Filtering by a range inside the range already applied is the same as filtering once by the inner range. */
  lemma YearFilterNarrowing(t: Table, yearCol: string, a: int, b: int, c: int, d: int)
    requires WellFormed(t) && yearCol in t.columns && YearsComparable(t, yearCol)
    requires a <= c && d <= b
    ensures YearFilter(YearFilter(t, yearCol, a, b), yearCol, c, d) == YearFilter(t, yearCol, c, d)
  {
    WhereNarrowing(t.rows, IndexOf(t.columns, yearCol), a, b, c, d);
  }
}
