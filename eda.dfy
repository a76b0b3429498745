/**
 * The dataset objects: each holds the file parameters it was created with,
 * the frame it has read (none yet at first), the frames its grouping steps
 * store as named attributes, and the last pivot table it built. The three
 * file kinds share one class, told apart by its variant.
 */
module Eda {
  import opened Tables
  import opened Regions
  import opened Grouping
  import opened Shaping
  import opened Cleaning

  class Dataset {
    const variant: Variant
    const pathToFile: string
    const delimiter: string
    const skiprows: nat
    const skipfooter: nat

    /** `self.df`: None until a file is processed. */
    var df: Option<Table>
    /** The frames stored with `setattr`, by attribute name. */
    var attrs: map<string, Table>
    /** `self.pivot_table` once a pivot has succeeded. */
    var pivotTable: Option<Pivot>

    predicate Valid()
      reads this
    {
      && (df.Some? ==> WellFormed(df.value))
      && forall name :: name in attrs ==> WellFormed(attrs[name])
    }

    constructor(variant: Variant, pathToFile: string, delimiter: string, skiprows: nat, skipfooter: nat)
      ensures Valid()
      ensures this.variant == variant && this.pathToFile == pathToFile && this.delimiter == delimiter
      ensures this.skiprows == skiprows && this.skipfooter == skipfooter
      ensures df == None && attrs == map[] && pivotTable == None
    {
      this.variant := variant;
      this.pathToFile := pathToFile;
      this.delimiter := delimiter;
      this.skiprows := skiprows;
      this.skipfooter := skipfooter;
      df := None;
      attrs := map[];
      pivotTable := None;
    }

    /**
     * PublicAssistance.file_processing and BasicSecurity.file_processing,
     * given the frame parsed with
     * `ReadSettings(variant, delimiter, skiprows, skipfooter)`: shape it and make it the
     * dataset's frame.
     */
    method FileProcessing(parsed: Table, columns: seq<string>)
      requires Valid() && variant != Subsistence
      requires variant == PublicAssistance ==> PublicAssistanceReady(parsed, columns)
      requires variant == BasicSecurity ==> BasicSecurityReady(parsed, columns)
      modifies this
      ensures Valid()
      ensures df == Some(if variant == PublicAssistance then PublicAssistanceShape(parsed, columns)
                         else BasicSecurityShape(parsed, columns))
      ensures attrs == old(attrs) && pivotTable == old(pivotTable)
    {
      if variant == PublicAssistance {
        df := Some(PublicAssistanceShape(parsed, columns));
      } else {
        df := Some(BasicSecurityShape(parsed, columns));
      }
    }

    /** Subsistence.file_processing, given the frame parsed with `ReadSettings(Subsistence, ...)`. */
    method SubsistenceFileProcessing(parsed: Table)
      requires Valid() && variant == Subsistence && SubsistenceReady(parsed)
      modifies this
      ensures Valid() && df == Some(SubsistenceShape(parsed))
      ensures attrs == old(attrs) && pivotTable == old(pivotTable)
    {
      df := Some(SubsistenceShape(parsed));
    }

    /**
     * Dataset.dtype_conversion: convert the named columns one by one, then
     * fill every missing cell of the frame with 0 and return the frame. At
     * the first name that is not a column the method returns None, and the
     * columns converted before it stay converted (no fill).
     */
    method DtypeConversion(args: seq<string>) returns (r: Option<Table>)
      requires Valid() && df.Some?
      modifies this
      ensures Valid() && attrs == old(attrs) && pivotTable == old(pivotTable)
      ensures FirstAbsent(args, old(df).value.columns) < |args| ==>
        var k := FirstAbsent(args, old(df).value.columns);
        r.None? && AllColumns(old(df).value, args[..k]) && df == Some(ConvertColumns(old(df).value, args[..k]))
      ensures FirstAbsent(args, old(df).value.columns) == |args| ==>
        AllColumns(old(df).value, args) && r == df && df == Some(FillNa(ConvertColumns(old(df).value, args)))
    {
      ghost var start := df.value;
      ghost var k := FirstAbsent(args, start.columns);
      var i := 0;
      while i < |args|
        invariant 0 <= i <= |args| && i <= k
        invariant AllColumns(start, args[..i])
        invariant df == Some(ConvertColumns(start, args[..i]))
        invariant attrs == old(attrs) && pivotTable == old(pivotTable)
      {
        if args[i] !in df.value.columns {
          assert args[i] !in start.columns;
          assert k == i;
          r := None;
          return;
        }
        assert args[..i + 1][..i] == args[..i];
        df := Some(ConvertColumn(df.value, args[i]));
        i := i + 1;
      }
      assert args[..i] == args;
      df := Some(FillNa(df.value));
      r := df;
    }

    /**
     * Dataset.filter_data: drops the "Total" rows, resets the index and copies
     * the state names as text. Each step replaces the frame as it goes; the
     * first step that fails ends the method, which returns the frame as it
     * then is.
     */
    method FilterData(regionCol: string) returns (r: Option<Table>)
      requires Valid() && variant != Subsistence
      modifies this
      ensures Valid() && r == df && df == FilterDataResult(old(df), regionCol)
      ensures attrs == old(attrs) && pivotTable == old(pivotTable)
    {
      if df.None? {
        return df;
      }
      df := Some(WithoutTotals(df.value));
      var reset := ResetIndex(df.value);
      if reset.None? {
        return df;
      }
      df := reset;
      var named := RegionAsText(df.value, regionCol);
      if named.None? {
        return df;
      }
      df := named;
      r := df;
    }

    /**
     * Dataset.data_group: the grouped sums are stored as the attribute
     * `<groupElement>_df` and returned; when a column is missing nothing is
     * stored and the result is None.
     */
    method DataGroup(cols: seq<string>, groupElement: string, includeTotal: bool) returns (r: Option<Table>)
      requires Valid() && df.Some? && Distinct([groupElement] + cols) && Summable(df.value, cols)
      modifies this
      ensures Valid() && df == old(df) && pivotTable == old(pivotTable)
      ensures r == DataGroupResult(df.value, cols, groupElement, includeTotal)
      ensures attrs == if r.Some? then old(attrs)[groupElement + "_df" := r.value] else old(attrs)
    {
      r := DataGroupResult(df.value, cols, groupElement, includeTotal);
      if r.Some? {
        attrs := attrs[groupElement + "_df" := r.value];
      }
    }

    /** The attribute name the pivot decorator stores its grouped frame under: both key names, then "_df". */
    static function PivotAttribute(keys: seq<string>): string
      requires |keys| >= 2
    {
      keys[0] + keys[1] + "_df"
    }

    /**
     * BasicSecurity.pivot_table behind its grouping decorator: group by the
     * key columns, store the sums with a row-total column named values as the
     * attribute `<key0><key1>_df`, then pivot them; a successful pivot is also
     * kept as the dataset's pivot table. That pivot is stored over the method
     * itself, so the method can be called only while no pivot is stored: a
     * second call finds a frame, which cannot be called.
     */
    method PivotTable(columns: seq<string>, groupElement: seq<string>, values: string, index: string, header: string)
      returns (r: Option<Pivot>)
      requires Valid() && variant == BasicSecurity && df.Some? && pivotTable.None?
      requires |groupElement| >= 2 && Groupable(df.value, groupElement, columns)
      requires index != header && values != index && values != header
      modifies this
      ensures Valid() && df == old(df)
      ensures var result := PivotTableResult(df.value, groupElement, columns, values, index, header);
        && attrs == old(attrs)[PivotAttribute(groupElement) := result.0]
        && r == result.1
      ensures pivotTable == r
    {
      var result := PivotTableResult(df.value, groupElement, columns, values, index, header);
      StorePivot(PivotAttribute(groupElement), result.0, result.1);
      r := result.1;
    }

    /** Stores the decorator's grouped frame under name and keeps a successful pivot. */
    method StorePivot(name: string, grouped: Table, built: Option<Pivot>)
      requires Valid() && WellFormed(grouped)
      modifies this
      ensures Valid() && df == old(df)
      ensures attrs == old(attrs)[name := grouped]
      ensures pivotTable == if built.Some? then built else old(pivotTable)
    {
      attrs := attrs[name := grouped];
      if built.Some? {
        pivotTable := built;
      }
    }

    /** Subsistence.filter_data: stores the rows within the year range as `filtered_df`; the frame itself is kept. */
    method FilterYears(yearStart: int, yearEnd: int)
      requires Valid() && variant == Subsistence && df.Some?
      requires YearColumn in df.value.columns && YearsComparable(df.value, YearColumn)
      modifies this
      ensures Valid() && df == old(df) && pivotTable == old(pivotTable)
      ensures attrs == old(attrs)["filtered_df" := YearFilter(df.value, YearColumn, yearStart, yearEnd)]
    {
      attrs := attrs["filtered_df" := YearFilter(df.value, YearColumn, yearStart, yearEnd)];
    }
  }
}
