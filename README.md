# Social benefit datasets: table transformations

This project models the table logic of a small analysis of German social-benefit
statistics, and proves what that logic does. It covers:

- the dataset classes of `visualizations/eda.py`:
  - the shaping every `file_processing` applies to a freshly parsed frame;
  - `dtype_conversion`, `filter_data` and `data_group`;
  - `pivot_table` together with its grouping decorator `modify_for_pivot`;
  - `max_quarterly_assessment`;
  - the year filter of the subsistence dataset;
- the row handling of `visualizations/plots.py`:
  - the sort of `sorted_df_visual`;
  - the row selection of `bar_plot_visual`;
  - the y-axis of `grouped_bar_plot`;
  - the frame that `donut_visual` charts.

A frame is a `Table`, which holds column names and rows. Each row has its index
label and its cells. A cell is `Num(int)`, `Text(string)` or `Missing`, where
Missing stands for NaN. Row labels are part of the model because `reset_index`
exposes them and `iloc[1:]` keeps them.

The dataset objects form one class, `Eda.Dataset`. A variant field stands in
for the three subclasses. The class has these mutable fields:

- `df`: the current frame;
- `attrs`: a map from attribute name to frame, standing in for `setattr`;
- `pivotTable`: the pivot that `pivot_table` stores under its own name.

Its methods assign these fields and are proved against the pure functions in
the other modules. The modules are:

- `Tables`: frames, column access, row selection (`Where`/`Select`), and the
  integer text round trip.
- `Ordering`: the order pandas uses for group keys, and sorted distinct
  insertion.
- `Regions`: the repair of the truncated state names "Baden-Württemberg" and
  "Thüringen". It is shared by all three `file_processing` methods.
- `Shaping`: the read settings and the post-read shaping of each file kind.
- `Cleaning`: `to_numeric`/`fillna`, the steps of `filter_data`, and the year
  filter.
- `Grouping`: group-by sums, row totals, `data_group`, the pivot decorator and
  the pivot.
- `Reshape`: melt and the maximum of `max_quarterly_assessment`.
- `Plots`: the chart helpers' frame handling.
- `Eda`: the `Dataset` class.

Where the code and its written description disagree, the model follows the
code:

- **`filter_data` without "Länder".** It does not leave the frame unchanged.
  The Total rows are already dropped and the index column already added when
  the KeyError is raised, and the `finally` returns that frame (eda.py:88-96).
- **`filter_data` on a frame without rows.** On such a frame `apply` returns an
  empty float Series, not a boolean mask. Indexing with it selects no columns,
  so every column is dropped. The result is an empty frame whose only column is
  "index" (eda.py:88-96).
- **The decorator's sum column.** It is named by the `values` argument, not
  "Total" (eda.py:225).
- **Missing pivot columns.** A missing `values` column cannot make the pivot
  fail, because the decorator has just created that column. Only a missing
  index or header column does (eda.py:225, 252).

## Model

| member | source | states |
|---|---|---|
| Regions.NormaliseRegions | visualizations/eda.py:153-159 | Both `endswith` masks are taken on the column as read, then the two `.loc` assignments run in order. Each state name ends up "Baden-Württemberg" if it ended in "ttemberg", "Thüringen" if it ended in "ingen", and unchanged otherwise. The order of the assignments does not matter. No other cell, label or column changes, and the state column stays text. |
| Regions.FragmentsExclusive | visualizations/eda.py:153-159 | No name ends in both "ttemberg" and "ingen", so the second assignment never overrides the first. |
| Regions.NormaliseRegionIdempotent | visualizations/eda.py:153-159 | Repairing a name twice is the same as repairing it once. A name becomes "Baden-Württemberg" exactly when it ends in "ttemberg" or already is that name. |
| Regions.NormaliseRegionsIdempotent | visualizations/eda.py:199-205 | Running the frame repair on an already repaired frame leaves it equal. |
| Regions.EndsWithMask | visualizations/eda.py:350-351 | The mask has one entry per row, true exactly when that row's state name ends in the suffix. |
| Shaping.ReadSettings | visualizations/eda.py:148 | The parser gets the dataset's skiprows. The delimiter is ";" for subsistence whatever was configured, and the configured delimiter otherwise. The skipfooter is 0 for public assistance, which never passes it, and the configured value otherwise. The parser is not modelled, so this function stands alone: the shaping members take the parsed frame as a parameter. |
| Shaping.PublicAssistanceShape | visualizations/eda.py:149-160 | The parsed frame gets the given column names by position. The rows and labels are kept, every non-state cell is unchanged, and each state name is repaired. |
| Shaping.RepairByPosition | visualizations/eda.py:153-159 | With distinct column names, the repair leaves the cell at every non-state position as it was. |
| Shaping.BasicSecuritySelect | visualizations/eda.py:193-197 | `drop(0)` removes the row labelled 0 and `reset_index(drop=True)` renumbers the rest. `iloc` keeps positions 0, 1, 30, 31, 32 and 33, in that order, under the given names. |
| Shaping.BasicSecurityShape | visualizations/eda.py:193-205 | The basic-security frame has the given columns, one row per row not labelled 0, renumbered rows and a text state column. |
| Shaping.BasicSecurityShapeCells | visualizations/eda.py:193-205 | Each kept column holds its selected cell, and the state column holds the repaired name. |
| Shaping.DropZeroIsFirstRow | visualizations/eda.py:193 | On a frame labelled 0, 1, … as parsed, dropping label 0 removes exactly the first row. |
| Shaping.WhereKeepsAll | visualizations/eda.py:193 | A selection on rows none of which is labelled 0 keeps them all. |
| Shaping.RenameAll | visualizations/eda.py:309-342 | Every column is renamed in place, position by position, through the fixed map. |
| Shaping.YearPrefix | visualizations/eda.py:346 | `.str[:4]` gives exactly the first four characters of a text, or the whole text when it is shorter. A non-text cell becomes NaN. |
| Shaping.SubsistenceBody | visualizations/eda.py:309-344 | After the rename, `iloc[1:]` drops the first row and keeps the other rows and their labels, in order. |
| Shaping.SubsistenceYears | visualizations/eda.py:344-346 | Cutting the years keeps the columns, the row count and the labels of rows 1 onwards. |
| Shaping.SubsistenceYearsCells | visualizations/eda.py:344-346 | Row i holds the year prefix of input row i + 1, and every other cell of that row. |
| Shaping.SubsistenceShape | visualizations/eda.py:309-356 | The shaped frame has the renamed columns, one row fewer than the input (none if the input is empty), the labels of rows 1 onwards, and a text state column. |
| Shaping.SubsistenceShapeCells | visualizations/eda.py:309-354 | Row i comes from input row i + 1. Its year is cut to four characters, its state name is repaired, and every other cell is kept under its new name. |
| Cleaning.ToNumeric | visualizations/eda.py:69 | `to_numeric(errors="coerce")` never yields text. Numbers stay as they are and NaN stays NaN. |
| Cleaning.ToNumericIdempotent | visualizations/eda.py:69 | Coercing a coerced cell changes nothing. |
| Cleaning.ToNumericOfNumberText | visualizations/eda.py:69 | The text form of an integer is read back as that integer. |
| Cleaning.FillCell | visualizations/eda.py:71 | `fillna(0)` turns NaN into 0 and changes nothing that was not NaN. |
| Cleaning.ConvertColumn | visualizations/eda.py:69 | One column is coerced and every other cell, label and column stays. |
| Cleaning.ConvertColumns | visualizations/eda.py:68-69 | Converting a list of columns keeps the columns, the row count and the labels. |
| Cleaning.ConvertColumnsCells | visualizations/eda.py:68-69 | After the loop, a listed column holds the coerced cell and any other column its original cell. |
| Cleaning.FillNa | visualizations/eda.py:71 | The fill runs over the whole frame, not only the converted columns, and keeps the columns, rows and labels. |
| Cleaning.FirstAbsent | visualizations/eda.py:68-76 | This is the position of the first name that is not a column, or the list length if there is none. Every earlier name is a column. |
| Cleaning.ConvertedCell | visualizations/eda.py:67-71 | After a successful conversion no cell is NaN and every listed column is numeric. A NaN, in any column, becomes 0. Unreadable text becomes 0 and an integer's text becomes that integer. Unlisted columns are only filled. |
| Cleaning.DropTotals | visualizations/eda.py:88 | A row survives exactly when none of its cells' text contains "Total". The survivors keep their relative order, and no cell of the result mentions "Total". |
| Cleaning.WithoutTotals | visualizations/eda.py:88 | The first step of `filter_data`: a row survives exactly when it mentions no "Total", and no surviving cell mentions it. A frame with rows keeps its columns; a frame without rows keeps none. |
| Cleaning.LabelColumn | visualizations/eda.py:90 | `reset_index` names the label column "index" whenever that name is free, else "level_0". The name is never one already used, and there is none when both are taken. |
| Cleaning.ResetIndex | visualizations/eda.py:90 | The old labels become the first column and the rows are renumbered. None stands for the ValueError when no name is free. |
| Cleaning.ResetIndexCells | visualizations/eda.py:90 | Read by name, the label column holds each row's old label and every old column its old cell. |
| Cleaning.ResetIndexNoTotal | visualizations/eda.py:88-90 | Adding the label column (numbers) brings no "Total" back. |
| Cleaning.RegionAsText | visualizations/eda.py:92 | The result is None exactly when "Länder" is absent, whatever regionCol is. Otherwise regionCol holds the text form of "Länder" ("nan" for NaN), and it is appended when new. Every other cell and label stays. |
| Cleaning.RegionAsTextNoTotal | visualizations/eda.py:88-92 | Copying the state names as text brings no "Total" back. |
| Cleaning.FilterDataResult | visualizations/eda.py:80-96 | The result exists exactly when a frame exists: the `finally` swallows every failure. A frame without rows loses all its columns in the first step. |
| Cleaning.FilterDataPartial | visualizations/eda.py:87-96 | A frame without rows becomes an empty frame whose only column is "index". For a frame with rows: when the reset fails, the frame without Total rows is returned. When the reset succeeds but "Länder" is absent, the reset frame is returned, and its first column is "index" unless "index" was already a column. |
| Cleaning.FilterDataNoTotal | visualizations/eda.py:88-96 | Whichever step fails, no cell of the filtered frame contains "Total". |
| Cleaning.FilterDataRows | visualizations/eda.py:87-92 | On a frame with "Länder" and a free label name, the rows are exactly the input rows without "Total", in their original order, renumbered. The label column holds their old labels, regionCol holds the states as text, and the other cells are unchanged. |
| Cleaning.RegionAfterReset | visualizations/eda.py:90-92 | The reset and the text copy together, stated in terms of the frame before the reset. |
| Cleaning.RegionOverReset | visualizations/eda.py:90-92 | Facts about the text-copy step over the reset frame carry over to the frame before the reset. |
| Cleaning.YearFilter | visualizations/eda.py:368 | A row is kept exactly when its year lies between both bounds, inclusive; a missing year never does. The rows keep their order and labels, and the columns are kept. |
| Cleaning.WhereAgain | visualizations/eda.py:368 | Filtering rows that all pass the filter keeps them all. |
| Cleaning.WhereNarrowing | visualizations/eda.py:368 | Filtering by a year range, then by a range inside it, equals filtering by the inner range. |
| Cleaning.YearFilterNarrowing | visualizations/eda.py:368 | The same holds for the frame filter: narrowing a filtered frame equals filtering once. |
| Ordering.StrLtTransitive | visualizations/eda.py:112 | The order of text keys used to sort groups is transitive. |
| Ordering.StrLtTotal | visualizations/eda.py:112 | Of two different texts one comes first. |
| Ordering.KeyLtTransitive | visualizations/eda.py:223 | The lexicographic order of multi-column keys is transitive. |
| Ordering.KeyLtTotal | visualizations/eda.py:223 | Of two different keys, one comes first. |
| Ordering.StrictlySortedDistinct | visualizations/eda.py:223 | A strictly sorted key list has no duplicates. |
| Ordering.InsertKey | visualizations/eda.py:112 | Inserting a key gives exactly the old keys and that key. |
| Ordering.SortedDistinct | visualizations/eda.py:112 | The key list holds exactly the keys of the input. |
| Ordering.SortedDistinctSorted | visualizations/eda.py:112 | The key list is strictly increasing. |
| Grouping.CompleteKeys | visualizations/eda.py:112 | The group keys are exactly the keys of rows with no NaN in a key column, because groupby drops NaN keys. |
| Grouping.Groups | visualizations/eda.py:112 | Every group key has one cell per key column. |
| Grouping.GroupsSorted | visualizations/eda.py:112 | Groups come out in increasing key order, each once. |
| Grouping.GroupsMembers | visualizations/eda.py:112 | A key is a group exactly when it has no NaN and some input row carries it. |
| Grouping.GroupSum | visualizations/eda.py:112 | `groupby(keys)[cols].sum().reset_index()` gives the key columns then the summed columns, renumbered, with one row per group in key order. |
| Grouping.GroupSumKeys | visualizations/eda.py:112 | The output's keys are strictly increasing, and they are exactly the complete keys occurring in the input. |
| Grouping.GroupSumTotals | visualizations/eda.py:112 | Each summed column of a group row holds that column's total over the input rows with the group's key, NaN counting as nothing. |
| Grouping.WithRowTotal | visualizations/eda.py:115 | `frame[name] = frame[cols].sum(axis=1)` adds, or replaces, a column holding each row's sum over cols. Nothing else changes. |
| Grouping.DataGroupResult | visualizations/eda.py:110-124 | The result is None exactly when the group column or a summed column is absent (the KeyError). Otherwise the columns are the key, the summed columns and, when asked and free, "Total", with one renumbered row per group. |
| Grouping.DataGroupSums | visualizations/eda.py:112-115 | Group row i holds the group totals of each column, and "Total" holds their sum. |
| Grouping.RowSumOfTotals | visualizations/eda.py:115 | Summing a row of group totals gives the group's total across the columns. |
| Grouping.DataGroupFrame | visualizations/eda.py:112-115 | The grouped frame, with the optional "Total" column, has one row per group. |
| Grouping.WithOptionalTotal | visualizations/eda.py:114-115 | Only when asked is the "Total" column added. |
| Grouping.TotalledGroups | visualizations/eda.py:223-225 | The decorator's frame has one row per group and a numeric values column. |
| Grouping.TotalledGroupsTotals | visualizations/eda.py:223-225 | The values column holds, for each group, the sum of its column totals. |
| Grouping.PivotKeys | visualizations/eda.py:252 | Each pivot row or column key is a single cell of the pivoted column. |
| Grouping.PivotKeysSorted | visualizations/eda.py:252 | Those keys are strictly increasing. |
| Grouping.PivotKeysExact | visualizations/eda.py:252 | A value is a pivot key exactly when it is not NaN and some row holds it. |
| Grouping.PivotOf | visualizations/eda.py:252 | The result is None exactly when the index or header column is absent. Otherwise there is one row per distinct index value, one column per distinct header value, and in each cell the mean (total and count) of the values of the rows with that pair. |
| Grouping.PivotGrid | visualizations/eda.py:252 | Each (row key, column key) pair has exactly one cell. |
| Grouping.PivotOfCells | visualizations/eda.py:252 | A pivot cell is empty (NaN) exactly when no row carries its pair. |
| Grouping.PivotCellEmpty | visualizations/eda.py:252 | The same, by column position. |
| Grouping.PairCountZero | visualizations/eda.py:252 | No row with the pair means a count of zero, and conversely. |
| Grouping.SinglePair | visualizations/eda.py:252 | When pairs are unique, the rows with a pair count one, and their total is that row's value. |
| Grouping.UniquePairCell | visualizations/eda.py:252 | With unique pairs, a non-empty cell is one row's value. |
| Grouping.PivotOfUniqueIsSingleValued | visualizations/eda.py:252 | With unique pairs, every cell is empty exactly when no row carries its pair. Otherwise its count is 1 and its total is the value of the row that carries the pair. |
| Grouping.PivotUniqueCell | visualizations/eda.py:252 | The same for one cell, by its row and column position. |
| Grouping.GroupedPairsUnique | visualizations/eda.py:222-252 | In the decorator's frame, no pair of the two group keys repeats, in either order. |
| Grouping.PivotOfGroupedIsSingleValued | visualizations/eda.py:222-252 | Pivoting the decorator's frame by its two keys always succeeds. Each cell is empty exactly when no group has its pair. Otherwise its count is 1 and its total is the summed value of the one group with that pair. |
| Grouping.PivotTableResult | visualizations/eda.py:222-258 | The decorator's frame is always built. The pivot from it is None exactly when the index or header column is absent. |
| Grouping.GroupSumKeyCells | visualizations/eda.py:223 | The first two cells of a row grouped by two keys are the group's key. |
| Grouping.TotalledGroupKeys | visualizations/eda.py:223-225 | Adding the values column keeps the key columns first. |
| Reshape.BlockOf | visualizations/eda.py:280 | Each melted row index falls in exactly one period block and one position within it. |
| Reshape.BlockPosition | visualizations/eda.py:280 | The melt's row numbering is invertible. |
| Reshape.Melt | visualizations/eda.py:280 | `melt(id_vars=[cols[0]])` gives the columns id, variable name and value, and \|rows\| × (\|cols\| − 1) renumbered rows. Row j·\|rows\| + i is (id of row i, period name j, its cell), period by period. |
| Reshape.MeltRowsFromCells | visualizations/eda.py:280 | Every melted row is such a triple. |
| Reshape.MeltValuesFromCells | visualizations/eda.py:280 | Every melted value is a cell of a period column. |
| Reshape.MeltValuesToCells | visualizations/eda.py:280 | Every cell of a period column appears among the melted values. |
| Reshape.MeltValuesAreColumnCells | visualizations/eda.py:280 | The melted value column holds exactly the cells of `cols[1:]`. |
| Reshape.CellsMax | visualizations/eda.py:278 | `max()` over a column without text skips NaN. The result is one of the column's numbers and no smaller than any of them. It is none exactly when every cell is NaN. |
| Reshape.MaxOfMaxima | visualizations/eda.py:278 | The outer `max()` is the largest per-column maximum, or none. |
| Reshape.ColumnMaxima | visualizations/eda.py:278 | This is the per-column maximum of each named column. |
| Reshape.MaxOfColumnsIsMax | visualizations/eda.py:278 | `frame[cols].max().max()` over columns without text is the largest number over all their cells, and one of them. It is none exactly when every one of those cells is NaN. |
| Reshape.MaxQuarterlyAssessment | visualizations/eda.py:262-284 | The result is None exactly when a named column is absent (the KeyError). Otherwise it is the melted frame and the maximum over `cols[1:]`, whose columns then hold no text. |
| Reshape.PeriodsAreNumericColumns | visualizations/eda.py:278 | When every named column is present, the period columns `cols[1:]` hold no text. |
| Reshape.MaxQuarterlyIsMeltedMax | visualizations/eda.py:275-284 | With every column present, the call succeeds, the melted value column holds no text, and the reported maximum equals that column's maximum. |
| Reshape.MaxOfSameCells | visualizations/eda.py:278-280 | Two cell collections with the same members have the same maximum. |
| Reshape.MaxIsUnique | visualizations/eda.py:278 | The maximum is determined by its defining property. |
| Plots.NoLaterTotal | visualizations/plots.py:64 | Of two sort keys, one never comes later than the other. |
| Plots.NoLaterTransitive | visualizations/plots.py:64 | The sort order is transitive. |
| Plots.InsertRow | visualizations/plots.py:64 | Inserting a row keeps all rows, adding that one. |
| Plots.InsertRowSorted | visualizations/plots.py:64 | Inserting into sorted rows keeps them sorted. |
| Plots.SortRows | visualizations/plots.py:64 | The sort is a permutation of the rows. |
| Plots.SortRowsSorted | visualizations/plots.py:64 | The sorted rows are in sortBy order, ascending or descending as asked. |
| Plots.SortedDf | visualizations/plots.py:52-68 | `sort_values` keeps the columns and the rows, labels included, as a permutation. The result is ordered by sortBy in the requested direction, and the input is a value that is not changed. |
| Plots.SortedFirstIsSmallest | visualizations/plots.py:64 | After an ascending sort, no key in the input is smaller than the first row's. |
| Plots.SampleSortsBerlinFirst | visualizations/plots.py:64 | For Berlin 1000, Bayern 2000 and Hamburg 1500, the ascending sort puts Berlin first. |
| Plots.OnlyBerlinIsSmallest | visualizations/plots.py:64 | In that frame, only Berlin's row has no expenditure below 1000. |
| Plots.BarSelection | visualizations/plots.py:84-86 | A row is kept exactly when its category cell equals filterBy and, when chosenStates is a non-empty list, its region is in it. The selection never adds rows and keeps the input order. |
| Plots.YAxis | visualizations/plots.py:188 | The range is [0, max_value], tick0 is 0, and dtick is floor(max_value / 5), also for a negative maximum. |
| Plots.YAxisStepUnique | visualizations/plots.py:188 | Only one step has that property. |
| Plots.DonutData | visualizations/plots.py:124-127 | Without in_percent the frame is charted as it is. With it, a copy gains the "Percentage" column and every other cell is kept. The caller's frame, a value, never gains the column. |
| Tables.IndexOf | visualizations/eda.py:69 | Reading a column by name gives its first position, which is in range exactly when the name is a column. |
| Tables.ParseIntOfIntToString | visualizations/eda.py:69 | The text form of any integer parses back to it. |
| Tables.IsSubsequenceTransitive | visualizations/plots.py:84-86 | Filtering a filtered frame still keeps the original order. |
| Tables.Where | visualizations/plots.py:84 | A boolean row filter keeps exactly the passing rows, in order. |
| Tables.WhereCounts | visualizations/plots.py:84 | A passing row keeps its number of occurrences and every other row has none. |
| Tables.Select | visualizations/plots.py:84 | The same on a frame, keeping its columns. |
| Tables.SetColumn | visualizations/eda.py:92 | Assigning a column replaces it or appends it. The other cells are unchanged. |
| Tables.NumberTextHasNoTotal | visualizations/eda.py:88 | A number's text form never contains "Total". |
| Eda.Dataset.constructor | visualizations/eda.py:12-27 | A new dataset records its file parameters and has no frame, attributes or pivot yet. |
| Eda.Dataset.FileProcessing | visualizations/eda.py:139-205 | The frame becomes the shaped public-assistance or basic-security frame. Attributes and pivot are untouched. |
| Eda.Dataset.SubsistenceFileProcessing | visualizations/eda.py:298-356 | The frame becomes the shaped subsistence frame. |
| Eda.Dataset.DtypeConversion | visualizations/eda.py:57-78 | Columns are converted one by one. On the first absent name, the result is None, the earlier columns stay converted and nothing is filled. Otherwise every listed column is converted, the whole frame is filled, and the frame is returned. |
| Eda.Dataset.FilterData | visualizations/eda.py:80-96 | The frame is replaced step by step. The frame as the last successful step left it is stored and returned. On a frame without rows that is an empty frame with only "index". |
| Eda.Dataset.DataGroup | visualizations/eda.py:98-124 | The grouped frame is stored as `<groupElement>_df` and returned. On a missing column nothing is stored and the result is None. |
| Eda.Dataset.PivotTable | visualizations/eda.py:222-260 | It can run only while no pivot is stored. The decorator's frame is stored as `<key0><key1>_df`. The returned pivot, None on the KeyError, is what is stored as the pivot. |
| Eda.Dataset.StorePivot | visualizations/eda.py:227-254 | The grouped frame is stored under the name. A successful pivot is stored as the pivot, and a failed one leaves the stored pivot as it was. |
| Eda.Dataset.FilterYears | visualizations/eda.py:360-370 | `filtered_df` becomes the year-filtered frame, and the frame itself is left untouched. |

## Left out

- **Reading the files.** Encoding detection, the `encoding_detection` decorator and `read_csv` are I/O. Each `file_processing` is modelled from the parsed frame onwards. The decorator's own faults (the misspelt attribute, an unbound encoding, `*kwargs`) go with it.
- **Shaping.PublicAssistanceShape, Shaping.BasicSecurityShape:** the length mismatch that `df.columns = columns` would raise is a precondition, not an error path.
- **Cleaning.ToNumeric:** it reads integer text only. Decimal and float text, and floating point generally, are not modelled; every number is an integer.
- **Grouping.PivotOf:** the mean is kept exactly, as a total and a count, instead of a float.
- **Plots.DonutData:** the Percentage values are float arithmetic, so the cells are Missing.
- **NaN in results.** `max()` over a column without numbers is NaN here, modelled as no value. A NaN sum is taken as 0 (pandas' skipna).
- **Grouping.GroupSum, Grouping.DataGroupResult, Eda.Dataset.DataGroup, Eda.Dataset.PivotTable:** summed text columns are excluded by a precondition (`Summable`); pandas would concatenate them. Key and summed columns are distinct names (`Groupable`).
- **Grouping.PivotOf:** index equal to header, or values equal to either, is excluded by a precondition. Those calls raise outside the caught KeyError.
- **Tables.WellFormed:** frames with duplicate column names are not modelled beyond first-match lookup. Where a proof needs distinct names, they are required.
- **Plots.SortedDf:** `sort_values` is not stable and its tie order is unspecified, so only "sorted and a permutation" is promised. A column mixing numbers and text, which pandas refuses to compare, is excluded.
- **Shaping.BasicSecurityShape, Shaping.PublicAssistanceShape, Shaping.SubsistenceShape:** the state column must hold text in every row (`RegionsAreText`). A column with no text at all makes the `.str` accessor raise an AttributeError. A text column with some NaN gets through `.str.endswith`, but masking `.loc` with the NaN it yields raises a ValueError. Neither failure is modelled.
- **Eda.Dataset.FilterYears:** `between` on a text year column raises. The model requires a year column without text (`YearsComparable`), as after `dtype_conversion("Year")`. Right after file processing the years are text.
- **Eda.Dataset.FileProcessing:** the subclasses are one class with a variant. Each method is required to match its variant.
- **Eda.Dataset.PivotTable:** storing the pivot over the method name is modelled as the `pivotTable` field. A second call after a stored pivot raises a TypeError, because the frame now shadows the method. The model excludes that call with the precondition that no pivot is stored.
- **Reshape.CellsMax, Reshape.MaxQuarterlyAssessment:** period columns holding text are excluded by a precondition. A column mixing text and numbers makes `max()` raise a TypeError, which is not caught. A column of text only, whose maximum pandas returns as text, is not modelled.
- **Grouping.PivotOf:** a key whose rows all have NaN in the other key column gets a row, or column, of empty cells. pandas drops such a row or column. The decorator's frame never holds NaN keys, because groupby drops them.
- **Shaping.SubsistenceShape:** `.str` raises an AttributeError on a year column holding no text at all. The model requires some year text in a non-empty body (`SubsistenceReady`).
- **Printing.** `print` calls are not modelled.
- **Chart construction.** Plotly figures, styling, GeoJSON loading, the choropleth, the heatmap and the line chart build opaque chart objects and are not modelled.
- **The web front end.** It is UI wiring and is not part of this model.
