/**
 * What each dataset's file processing does to the frame once the CSV file is
 * parsed: the read options it passes, the column renaming, the rows and
 * columns it drops, and the state-name repair.
 */
module Shaping {
  import opened Tables
  import opened Regions

  /** The three datasets; each shapes its file differently. */
  datatype Variant = PublicAssistance | BasicSecurity | Subsistence

  /** The options the parse of the file receives. */
  datatype ReadOptions = ReadOptions(delimiter: string, skiprows: nat, skipfooter: nat)

  /**
   * The options each variant actually passes: public assistance never passes
   * its footer count (so no footer is skipped), and subsistence always splits
   * on ';' whatever delimiter it was given.
   */
  function ReadSettings(variant: Variant, delimiter: string, skiprows: nat, skipfooter: nat): (o: ReadOptions)
    ensures o.skiprows == skiprows
    ensures o.delimiter == (if variant == Subsistence then ";" else delimiter)
    ensures o.skipfooter == (if variant == PublicAssistance then 0 else skipfooter)
  {
    match variant
    case PublicAssistance => ReadOptions(delimiter, skiprows, 0)
    case BasicSecurity => ReadOptions(delimiter, skiprows, skipfooter)
    case Subsistence => ReadOptions(";", skiprows, skipfooter)
  }

  // ----- public assistance -----

  /** `frame.columns = columns` needs one name per column; the model keeps names distinct. */
  predicate PublicAssistanceReady(t: Table, columns: seq<string>) {
    && WellFormed(t) && |columns| == |t.columns| && Distinct(columns)
    && RegionsAreText(Table(columns, t.rows))
  }

  /** Public assistance: name the columns, then repair the state names. */
  function PublicAssistanceShape(t: Table, columns: seq<string>): (r: Table)
    requires PublicAssistanceReady(t, columns)
    ensures WellFormed(r) && r.columns == columns && |r.rows| == |t.rows| && RegionsAreText(r)
    ensures forall i :: 0 <= i < |r.rows| ==> r.rows[i].indexLabel == t.rows[i].indexLabel
    ensures forall i, k :: 0 <= i < |r.rows| && 0 <= k < |columns| && columns[k] != RegionColumn ==>
      At(r, i, columns[k]) == t.rows[i].cells[k]
    ensures forall i :: 0 <= i < |r.rows| ==>
      At(r, i, RegionColumn) == Text(NormaliseRegion(At(Table(columns, t.rows), i, RegionColumn).s))
  {
    var named := Table(columns, t.rows);
    RepairByPosition(named);
    NormaliseRegions(named)
  }

  /** The state-name repair keeps every other cell where it was, read by column position. */
  lemma RepairByPosition(t: Table)
    requires WellFormed(t) && RegionsAreText(t) && Distinct(t.columns)
    ensures forall i, k :: 0 <= i < |t.rows| && 0 <= k < |t.columns| && t.columns[k] != RegionColumn ==>
      At(NormaliseRegions(t), i, t.columns[k]) == t.rows[i].cells[k]
  {
    forall k | 0 <= k < |t.columns| ensures IndexOf(t.columns, t.columns[k]) == k { IndexOfDistinct(t.columns, k); }
  }

  // ----- basic security benefits -----

  /** The positional columns kept: state, gender and the four quarters. */
  const KeptPositions: seq<nat> := [0, 1, 30, 31, 32, 33]

  /** The label 0 that `drop(0)` removes is present, the kept positions exist and the new names fit. */
  predicate BasicSecurityReady(t: Table, columns: seq<string>) {
    && WellFormed(t) && |t.columns| >= 34
    && (exists i :: 0 <= i < |t.rows| && t.rows[i].indexLabel == 0)
    && |columns| == |KeptPositions| && Distinct(columns)
    && RegionsAreText(BasicSecuritySelect(t, columns))
  }

  /** Is this row one `drop(0)` keeps? */
  predicate NotLabelZero(row: Row) {
    row.indexLabel != 0
  }

  /**
   * `frame.drop(0).reset_index(drop=True).iloc[:, KeptPositions]` with the
   * columns then renamed: the rows not labelled 0, renumbered, cut down to
   * the kept positions.
   */
  function BasicSecuritySelect(t: Table, columns: seq<string>): (r: Table)
    requires WellFormed(t) && |t.columns| >= 34 && |columns| == |KeptPositions| && Distinct(columns)
    ensures WellFormed(r) && r.columns == columns && Renumbered(r.rows)
    ensures |r.rows| == |Select(t, NotLabelZero).rows|
    ensures forall i, k :: 0 <= i < |r.rows| && 0 <= k < |KeptPositions| ==>
      r.rows[i].cells[k] == Select(t, NotLabelZero).rows[i].cells[KeptPositions[k]]
  {
    var kept := Select(t, NotLabelZero).rows;
    Table(columns, seq(|kept|, i requires 0 <= i < |kept| =>
      Row(i, seq(|KeptPositions|, k requires 0 <= k < |KeptPositions| => kept[i].cells[KeptPositions[k]]))))
  }

  /** Basic security benefits: select and rename, then repair the state names. */
  function BasicSecurityShape(t: Table, columns: seq<string>): (r: Table)
    requires BasicSecurityReady(t, columns)
    ensures WellFormed(r) && r.columns == columns && Renumbered(r.rows) && RegionsAreText(r)
    ensures |r.rows| == |Select(t, NotLabelZero).rows|
  {
    NormaliseRegions(BasicSecuritySelect(t, columns))
  }

  /**
   * Row i of the shaped frame: each kept column holds its cell of the
   * selection (the cell at its kept position in the i-th row not labelled
   * 0), and the state column holds that state name repaired.
   */
  lemma BasicSecurityShapeCells(t: Table, columns: seq<string>, i: nat)
    requires BasicSecurityReady(t, columns) && i < |Select(t, NotLabelZero).rows|
    ensures var r := BasicSecurityShape(t, columns);
      var selected := BasicSecuritySelect(t, columns);
      && (forall k :: 0 <= k < |columns| && columns[k] != RegionColumn ==> At(r, i, columns[k]) == selected.rows[i].cells[k])
      && At(r, i, RegionColumn) == Text(NormaliseRegion(At(selected, i, RegionColumn).s))
  {
    RepairByPosition(BasicSecuritySelect(t, columns));
  }

  /** With the labels a parse gives (0, 1, ...), `drop(0)` removes exactly the first row. */
  lemma DropZeroIsFirstRow(t: Table)
    requires Renumbered(t.rows)
    ensures Where(t.rows, NotLabelZero) == if t.rows == [] then [] else t.rows[1..]
  {
    if t.rows != [] {
      assert forall i :: 0 <= i < |t.rows[1..]| ==> t.rows[1..][i].indexLabel == i + 1;
      WhereKeepsAll(t.rows[1..]);
    }
  }

  lemma {:induction false} WhereKeepsAll(rows: seq<Row>)
    requires forall i :: 0 <= i < |rows| ==> rows[i].indexLabel != 0
    ensures Where(rows, NotLabelZero) == rows
  {
    if rows != [] {
      assert forall i :: 0 <= i < |rows[1..]| ==> rows[1..][i] == rows[i + 1];
      WhereKeepsAll(rows[1..]);
    }
  }

  // ----- subsistence benefits -----

  /** The renaming the subsistence file receives (two source names both become "Year"). */
  const RenameMap: map<string, string> := map[
    "Unnamed: 0" := "Länder",
    "Unnamed: 1" := "Year",
    "Male" := "Non-Institution German Males",
    "Male.1" := "Non-Institution Foreign Males",
    "Male.2" := "Total Non-Insitution Males",
    "Male.3" := "Institution German Males",
    "Male.4" := "Insitution Foreign Males",
    "Male.5" := "Total Institution Males",
    "Male.6" := "Total German Males",
    "Male.7" := "Total Foreign Males",
    "Male.8" := "Total Males",
    "Female" := "Non-Institution German Females",
    "Female.1" := "Non-Institution Foreign Females",
    "Female.2" := "Total Non-Insitution Females",
    "Female.3" := "Institution German Females",
    "Female.4" := "Insitution Foreign Females",
    "Female.5" := "Total Institution Females",
    "Female.6" := "Total German Females",
    "Female.7" := "Total Foreign Females",
    "Female.8" := "Total Females",
    "Total" := "Non-Institution Germans Total",
    "Total.1" := "Non-Institution Foreign Total",
    "Total.2" := "Non-Institution Total",
    "Total.3" := "Institution Germans Total",
    "Total.4" := "Institution Foreign Total",
    "Total.5" := "Institution Total",
    "Total.6" := "Germans Total",
    "Total.7" := "Foreign Total",
    "Total.8" := "Total",
    "Date" := "Year"]

  const YearColumn := "Year"

  /** The new name of one column: renamed when the map lists it, kept otherwise. */
  function Renamed(c: string): string {
    if c in RenameMap then RenameMap[c] else c
  }

  /** `frame.rename(columns=RenameMap)`: every name looked up at once, so chains are not followed. */
  function RenameAll(columns: seq<string>): (r: seq<string>)
    ensures |r| == |columns| && forall k :: 0 <= k < |r| ==> r[k] == Renamed(columns[k])
  {
    seq(|columns|, k requires 0 <= k < |columns| => Renamed(columns[k]))
  }

  /**
   * `.str[:4]` on one cell of a text column: the first four characters of a
   * text (all of a shorter one); a cell that is not text becomes missing.
   */
  function YearPrefix(c: Cell): (r: Cell)
    ensures c.Text? ==> r.Text? && |r.s| == (if |c.s| < 4 then |c.s| else 4) && r.s == c.s[..|r.s|]
    ensures !c.Text? ==> r.Missing?
  {
    match c
    case Text(s) => Text(if |s| <= 4 then s else s[..4])
    case _ => Missing
  }

  /** The renamed frame without its first row, labels kept (`iloc[1:]`). */
  function SubsistenceBody(t: Table): (r: Table)
    requires WellFormed(t) && Distinct(RenameAll(t.columns))
    ensures WellFormed(r) && r.columns == RenameAll(t.columns)
    ensures |r.rows| == if t.rows == [] then 0 else |t.rows| - 1
    ensures forall i :: 0 <= i < |r.rows| ==> r.rows[i] == t.rows[i + 1]
  {
    Table(RenameAll(t.columns), if t.rows == [] then [] else t.rows[1..])
  }

  /**
   * What the shaping needs to run without an exception: the new names stay
   * distinct, the year and state columns are there, the state names are text,
   * and the year column is a text column (`.str` raises on a column with no
   * text at all, such as one of integers).
   */
  predicate SubsistenceReady(t: Table) {
    && WellFormed(t) && Distinct(RenameAll(t.columns))
    && YearColumn in RenameAll(t.columns) && RegionColumn in RenameAll(t.columns)
    && (forall i :: 0 <= i < |SubsistenceBody(t).rows| ==> At(SubsistenceBody(t), i, RegionColumn).Text?)
    && (SubsistenceBody(t).rows == [] || exists i :: 0 <= i < |SubsistenceBody(t).rows| && At(SubsistenceBody(t), i, YearColumn).Text?)
  }

  /** `frame.Year = frame["Year"].str[:4]` on the body. */
  function SubsistenceYears(t: Table): (r: Table)
    requires SubsistenceReady(t)
    ensures WellFormed(r) && RegionsAreText(r) && r.columns == RenameAll(t.columns)
    ensures |r.rows| == |SubsistenceBody(t).rows|
    ensures forall i :: 0 <= i < |r.rows| ==> r.rows[i].indexLabel == t.rows[i + 1].indexLabel
  {
    var body := SubsistenceBody(t);
    SetColumn(body, YearColumn, seq(|body.rows|, i requires 0 <= i < |body.rows| => YearPrefix(At(body, i, YearColumn))))
  }

  /** Row i after the year cut: the year prefix in "Year", every other cell as in row i + 1 of the input. */
  lemma SubsistenceYearsCells(t: Table, i: nat)
    requires SubsistenceReady(t) && i < |SubsistenceBody(t).rows|
    ensures var r := SubsistenceYears(t);
      && At(r, i, YearColumn) == YearPrefix(t.rows[i + 1].cells[IndexOf(RenameAll(t.columns), YearColumn)])
      && At(r, i, RegionColumn) == At(SubsistenceBody(t), i, RegionColumn)
      && forall k :: 0 <= k < |t.columns| && Renamed(t.columns[k]) != YearColumn ==> r.rows[i].cells[k] == t.rows[i + 1].cells[k]
  {
    var body := SubsistenceBody(t);
    forall k | 0 <= k < |t.columns| ensures IndexOf(body.columns, body.columns[k]) == k {
      IndexOfDistinct(body.columns, k);
    }
  }

  /**
   * Subsistence benefits: rename, drop the first row (labels kept), cut each
   * year to its first four characters, repair the state names.
   */
  function SubsistenceShape(t: Table): (r: Table)
    requires SubsistenceReady(t)
    ensures WellFormed(r) && r.columns == RenameAll(t.columns) && RegionsAreText(r)
    ensures |r.rows| == if t.rows == [] then 0 else |t.rows| - 1
    ensures forall i :: 0 <= i < |r.rows| ==> r.rows[i].indexLabel == t.rows[i + 1].indexLabel
  {
    NormaliseRegions(SubsistenceYears(t))
  }

  /**
   * Row i of the shaped frame comes from row i + 1 of the input: its year
   * cut to four characters, its state name repaired, every other cell kept
   * under its new name.
   */
  lemma SubsistenceShapeCells(t: Table, i: nat)
    requires SubsistenceReady(t) && i < |SubsistenceBody(t).rows|
    ensures var r := SubsistenceShape(t);
      && At(r, i, YearColumn) == YearPrefix(t.rows[i + 1].cells[IndexOf(RenameAll(t.columns), YearColumn)])
      && At(r, i, RegionColumn) == Text(NormaliseRegion(At(SubsistenceBody(t), i, RegionColumn).s))
      && forall k :: (0 <= k < |t.columns| && Renamed(t.columns[k]) != YearColumn && Renamed(t.columns[k]) != RegionColumn) ==>
           At(r, i, Renamed(t.columns[k])) == t.rows[i + 1].cells[k]
  {
    var years := SubsistenceYears(t);
    SubsistenceYearsCells(t, i);
    RepairByPosition(years);
  }
}
