/**
 * Group-by-sum and pivot, as the dataset classes call them:
 * `frame.groupby(keys)[cols].sum().reset_index()`, the row-wise total of the
 * summed columns, and `pivot_table(values, index, columns)` with its default
 * mean aggregation.
 */
module Grouping {
  import opened Tables
  import opened Ordering

  /** Every row has width cells. */
  predicate Rectangular(rows: seq<Row>, width: nat) {
    forall i :: 0 <= i < |rows| ==> |rows[i].cells| == width
  }

  predicate Positions(pos: seq<nat>, width: nat) {
    forall j :: 0 <= j < |pos| ==> pos[j] < width
  }

  /** The cells of a row at the given positions. */
  function KeyAt(row: Row, pos: seq<nat>): (k: Key)
    requires Positions(pos, |row.cells|)
    ensures |k| == |pos| && forall j :: 0 <= j < |pos| ==> k[j] == row.cells[pos[j]]
  {
    seq(|pos|, j requires 0 <= j < |pos| => row.cells[pos[j]])
  }

  /** Group-by leaves out rows whose key has a missing part (dropna). */
  predicate Complete(k: Key) {
    forall j :: 0 <= j < |k| ==> !k[j].Missing?
  }

  /** The complete keys of the rows, in row order, repeats kept. */
  function CompleteKeys(rows: seq<Row>, width: nat, pos: seq<nat>): (ks: seq<Key>)
    requires Rectangular(rows, width) && Positions(pos, width)
    ensures forall k :: k in ks <==> exists i :: 0 <= i < |rows| && KeyAt(rows[i], pos) == k && Complete(k)
    ensures forall k :: k in ks ==> |k| == |pos| && Complete(k)
  {
    if rows == [] then []
    else
      var rest := CompleteKeys(rows[1..], width, pos);
      CompleteKeysStep(rows, width, pos);
      var k0 := KeyAt(rows[0], pos);
      if Complete(k0) then [k0] + rest else rest
  }

  /** A complete key occurs in the rows iff it is the first row's or occurs in the rest. */
  lemma CompleteKeysStep(rows: seq<Row>, width: nat, pos: seq<nat>)
    requires Rectangular(rows, width) && Positions(pos, width) && rows != []
    ensures forall k :: (exists i :: 0 <= i < |rows| && KeyAt(rows[i], pos) == k && Complete(k)) <==>
      (k == KeyAt(rows[0], pos) && Complete(k)) || exists i :: 0 <= i < |rows| - 1 && KeyAt(rows[1..][i], pos) == k && Complete(k)
  {
    forall k | exists i :: 0 <= i < |rows| - 1 && KeyAt(rows[1..][i], pos) == k && Complete(k)
      ensures exists i :: 0 <= i < |rows| && KeyAt(rows[i], pos) == k && Complete(k)
    {
      var i :| 0 <= i < |rows| - 1 && KeyAt(rows[1..][i], pos) == k && Complete(k);
      assert KeyAt(rows[i + 1], pos) == k;
    }
    forall k | exists i :: 0 <= i < |rows| && KeyAt(rows[i], pos) == k && Complete(k)
      ensures k == KeyAt(rows[0], pos) || exists i :: 0 <= i < |rows| - 1 && KeyAt(rows[1..][i], pos) == k && Complete(k)
    {
      var i :| 0 <= i < |rows| && KeyAt(rows[i], pos) == k && Complete(k);
      if i > 0 { assert KeyAt(rows[1..][i - 1], pos) == k; }
    }
  }

  /** What a missing cell adds to a sum: nothing (skipna). */
  function Amount(c: Cell): int {
    match c
    case Num(n) => n
    case _ => 0
  }

  /** The sum of the cells at position v over the rows whose key is k. */
  function GroupTotal(rows: seq<Row>, width: nat, pos: seq<nat>, k: Key, v: nat): int
    requires Rectangular(rows, width) && Positions(pos, width) && v < width
  {
    if rows == [] then 0
    else (if KeyAt(rows[0], pos) == k then Amount(rows[0].cells[v]) else 0) + GroupTotal(rows[1..], width, pos, k, v)
  }

  /** The positions of the named columns. */
  function PositionsOf(t: Table, names: seq<string>): (pos: seq<nat>)
    requires forall j :: 0 <= j < |names| ==> names[j] in t.columns
    ensures |pos| == |names| && Positions(pos, |t.columns|)
    ensures forall j :: 0 <= j < |names| ==> pos[j] == IndexOf(t.columns, names[j])
  {
    seq(|names|, j requires 0 <= j < |names| => IndexOf(t.columns, names[j]))
  }

  /** The summed columns hold numbers or missing values only (text would be concatenated). */
  predicate Summable(t: Table, cols: seq<string>)
    requires WellFormed(t)
  {
    forall i, j :: 0 <= i < |t.rows| && 0 <= j < |cols| && cols[j] in t.columns ==> !At(t, i, cols[j]).Text?
  }

  /** What `groupby` accepts without an exception escaping `reset_index`. */
  predicate Groupable(t: Table, keys: seq<string>, cols: seq<string>)
  {
    && WellFormed(t)
    && (forall j :: 0 <= j < |keys| ==> keys[j] in t.columns)
    && (forall j :: 0 <= j < |cols| ==> cols[j] in t.columns)
    && Distinct(keys + cols)
    && Summable(t, cols)
  }

  /** The key tuple of output row i of a grouped frame. */
  function GroupedKey(g: Table, i: nat, nkeys: nat): Key
    requires i < |g.rows| && nkeys <= |g.rows[i].cells|
  {
    g.rows[i].cells[..nkeys]
  }

  /** The distinct complete keys of the frame, in increasing order: the groups. */
  function Groups(t: Table, keys: seq<string>): (gs: seq<Key>)
    requires WellFormed(t) && forall j :: 0 <= j < |keys| ==> keys[j] in t.columns
    ensures forall i :: 0 <= i < |gs| ==> |gs[i]| == |keys|
  {
    var gs := SortedDistinct(CompleteKeys(t.rows, |t.columns|, PositionsOf(t, keys)));
    assert forall i :: 0 <= i < |gs| ==> gs[i] in CompleteKeys(t.rows, |t.columns|, PositionsOf(t, keys));
    gs
  }

  /** The groups come out in increasing key order, each once. */
  lemma GroupsSorted(t: Table, keys: seq<string>)
    requires WellFormed(t) && forall j :: 0 <= j < |keys| ==> keys[j] in t.columns
    ensures StrictlySorted(Groups(t, keys))
  {
    SortedDistinctSorted(CompleteKeys(t.rows, |t.columns|, PositionsOf(t, keys)));
  }

  /** One output row of the group-by: the key, then each column's total over the group. */
  function GroupRow(t: Table, kpos: seq<nat>, vpos: seq<nat>, i: nat, k: Key): (r: Row)
    requires WellFormed(t) && Positions(kpos, |t.columns|) && Positions(vpos, |t.columns|)
    ensures r.indexLabel == i && |r.cells| == |k| + |vpos| && r.cells[..|k|] == k
  {
    Row(i, k + seq(|vpos|, j requires 0 <= j < |vpos| => Num(GroupTotal(t.rows, |t.columns|, kpos, k, vpos[j]))))
  }

  /**
   * `frame.groupby(keys)[cols].sum().reset_index()`: one row per group, in
   * increasing key order, renumbered from 0; the key columns come first, then
   * the summed columns.
   */
  function GroupSum(t: Table, keys: seq<string>, cols: seq<string>): (g: Table)
    requires Groupable(t, keys, cols)
    ensures WellFormed(g) && g.columns == keys + cols && Renumbered(g.rows)
    ensures |g.rows| == |Groups(t, keys)|
    ensures forall i :: 0 <= i < |g.rows| ==> GroupedKey(g, i, |keys|) == Groups(t, keys)[i]
  {
    var kpos := PositionsOf(t, keys);
    var vpos := PositionsOf(t, cols);
    var groups := Groups(t, keys);
    Table(keys + cols, seq(|groups|, i requires 0 <= i < |groups| => GroupRow(t, kpos, vpos, i, groups[i])))
  }

  /** The groups are exactly the complete keys that occur in the input, each once, in increasing order. */
  lemma GroupSumKeys(t: Table, keys: seq<string>, cols: seq<string>)
    requires Groupable(t, keys, cols)
    ensures var g := GroupSum(t, keys, cols);
      && StrictlySorted(seq(|g.rows|, i requires 0 <= i < |g.rows| => GroupedKey(g, i, |keys|)))
      && forall k :: (exists i :: 0 <= i < |g.rows| && GroupedKey(g, i, |keys|) == k)
                     <==> Complete(k) && exists r :: 0 <= r < |t.rows| && KeyAt(t.rows[r], PositionsOf(t, keys)) == k
  {
    var g := GroupSum(t, keys, cols);
    GroupsSorted(t, keys);
    GroupsMembers(t, keys);
    GroupedKeysAre(g, Groups(t, keys), |keys|);
  }

  /** A key is a group iff it is complete and some input row has it. */
  lemma GroupsMembers(t: Table, keys: seq<string>)
    requires WellFormed(t) && forall j :: 0 <= j < |keys| ==> keys[j] in t.columns
    ensures forall k :: k in Groups(t, keys) <==>
      Complete(k) && exists r :: 0 <= r < |t.rows| && KeyAt(t.rows[r], PositionsOf(t, keys)) == k
  {
    var ks := CompleteKeys(t.rows, |t.columns|, PositionsOf(t, keys));
    assert forall k :: k in Groups(t, keys) <==> k in ks;
  }

  /** Rows whose key prefixes are the list gs, one by one, have exactly gs as keys. */
  lemma GroupedKeysAre(g: Table, gs: seq<Key>, nkeys: nat)
    requires |g.rows| == |gs| && forall i :: 0 <= i < |g.rows| ==> nkeys <= |g.rows[i].cells|
    requires forall i :: 0 <= i < |g.rows| ==> GroupedKey(g, i, nkeys) == gs[i]
    ensures seq(|g.rows|, i requires 0 <= i < |g.rows| => GroupedKey(g, i, nkeys)) == gs
    ensures forall k :: (exists i :: 0 <= i < |g.rows| && GroupedKey(g, i, nkeys) == k) <==> k in gs
  {
    forall k | k in gs ensures exists i :: 0 <= i < |g.rows| && GroupedKey(g, i, nkeys) == k {
      var i :| 0 <= i < |gs| && gs[i] == k;
      assert GroupedKey(g, i, nkeys) == k;
    }
  }

  /** Each summed column of a group holds the total of that column over the input rows with the group's key. */
  lemma GroupSumTotals(t: Table, keys: seq<string>, cols: seq<string>, i: nat, j: nat)
    requires Groupable(t, keys, cols)
    requires i < |GroupSum(t, keys, cols).rows| && j < |cols|
    ensures var g := GroupSum(t, keys, cols);
      At(g, i, cols[j]) == Num(GroupTotal(t.rows, |t.columns|, PositionsOf(t, keys), GroupedKey(g, i, |keys|), IndexOf(t.columns, cols[j])))
  {
    var g := GroupSum(t, keys, cols);
    IndexOfDistinct(g.columns, |keys| + j);
    assert g.columns[|keys| + j] == cols[j];
  }

  /** The row-wise sum of the named columns. */
  function RowSum(t: Table, i: nat, cols: seq<string>): int
    requires WellFormed(t) && i < |t.rows| && forall j :: 0 <= j < |cols| ==> cols[j] in t.columns
  {
    if cols == [] then 0 else RowSum(t, i, cols[..|cols| - 1]) + Amount(At(t, i, cols[|cols| - 1]))
  }

  /**
   * `frame[name] = frame[cols].sum(axis=1)`: a column (replaced if it exists,
   * appended otherwise) holding each row's sum over cols; nothing else changes.
   */
  function WithRowTotal(t: Table, cols: seq<string>, name: string): (r: Table)
    requires WellFormed(t) && forall j :: 0 <= j < |cols| ==> cols[j] in t.columns
    ensures WellFormed(r) && r.columns == if name in t.columns then t.columns else t.columns + [name]
    ensures |r.rows| == |t.rows|
    ensures forall i :: 0 <= i < |r.rows| ==> r.rows[i].indexLabel == t.rows[i].indexLabel
    ensures forall i :: 0 <= i < |r.rows| ==> At(r, i, name) == Num(RowSum(t, i, cols))
    ensures forall i, c :: 0 <= i < |r.rows| && c in t.columns && c != name ==> At(r, i, c) == At(t, i, c)
  {
    SetColumn(t, name, seq(|t.rows|, i requires 0 <= i < |t.rows| => Num(RowSum(t, i, cols))))
  }

  // ----- pivot -----

  /** A pivot cell: the mean of the values of the rows with that pair, kept exactly as total / count. */
  datatype PivotCell = Empty | Mean(total: int, count: nat)

  /** Row keys (index values) and column keys (column_header values), both one-cell tuples, and the grid. */
  datatype Pivot = Pivot(index: seq<Key>, header: seq<Key>, cells: seq<seq<PivotCell>>)

  /** The number and the value total of the rows whose index cell is a and column cell is b. */
  function PairCount(rows: seq<Row>, width: nat, ip: nat, hp: nat, a: Cell, b: Cell): nat
    requires Rectangular(rows, width) && ip < width && hp < width
  {
    if rows == [] then 0
    else (if rows[0].cells[ip] == a && rows[0].cells[hp] == b then 1 else 0) + PairCount(rows[1..], width, ip, hp, a, b)
  }

  function PairTotal(rows: seq<Row>, width: nat, ip: nat, hp: nat, vp: nat, a: Cell, b: Cell): int
    requires Rectangular(rows, width) && ip < width && hp < width && vp < width
  {
    if rows == [] then 0
    else (if rows[0].cells[ip] == a && rows[0].cells[hp] == b then Amount(rows[0].cells[vp]) else 0)
         + PairTotal(rows[1..], width, ip, hp, vp, a, b)
  }

  /** The values column holds a number in every row, as the summed column does. */
  predicate NumericColumn(t: Table, name: string)
    requires WellFormed(t)
  {
    name in t.columns && forall i :: 0 <= i < |t.rows| ==> At(t, i, name).Num?
  }

  /** The distinct non-missing values of a column, in increasing order, as one-cell keys. */
  function PivotKeys(g: Table, name: string): (ks: seq<Key>)
    requires WellFormed(g) && name in g.columns
    ensures forall i :: 0 <= i < |ks| ==> |ks[i]| == 1
  {
    var ks := SortedDistinct(CompleteKeys(g.rows, |g.columns|, [IndexOf(g.columns, name)]));
    assert forall i :: 0 <= i < |ks| ==> ks[i] in CompleteKeys(g.rows, |g.columns|, [IndexOf(g.columns, name)]);
    ks
  }

  /** The pivot's row and column keys are in increasing order, each once. */
  lemma PivotKeysSorted(g: Table, name: string)
    requires WellFormed(g) && name in g.columns
    ensures StrictlySorted(PivotKeys(g, name))
  {
    SortedDistinctSorted(CompleteKeys(g.rows, |g.columns|, [IndexOf(g.columns, name)]));
  }

  /** One pivot cell: the rows carrying the pair (a, b), averaged, or Empty when there are none. */
  function PivotCellOf(g: Table, ip: nat, hp: nat, vp: nat, a: Cell, b: Cell): PivotCell
    requires WellFormed(g) && ip < |g.columns| && hp < |g.columns| && vp < |g.columns|
  {
    var n := PairCount(g.rows, |g.columns|, ip, hp, a, b);
    if n == 0 then Empty else Mean(PairTotal(g.rows, |g.columns|, ip, hp, vp, a, b), n)
  }

  /**
   * `grouped.pivot_table(values=values, index=index, columns=header)`:
   * None when index or header is not a column (the KeyError the caller
   * catches); otherwise one row per distinct index value and one column per
   * distinct header value, and in each cell the mean of the values of the
   * rows with that pair, or Empty (NaN) if none.
   */
  function PivotOf(g: Table, values: string, index: string, header: string): (p: Option<Pivot>)
    requires WellFormed(g) && NumericColumn(g, values)
    requires index != header && values != index && values != header
    ensures p.None? <==> index !in g.columns || header !in g.columns
    ensures p.Some? ==>
      && p.value.index == PivotKeys(g, index) && p.value.header == PivotKeys(g, header)
      && |p.value.cells| == |p.value.index|
      && forall i :: 0 <= i < |p.value.index| ==>
           (&& |p.value.cells[i]| == |p.value.header|
            && forall j :: 0 <= j < |p.value.header| ==>
                 p.value.cells[i][j] == PivotCellOf(g, IndexOf(g.columns, index), IndexOf(g.columns, header),
                                                    IndexOf(g.columns, values), p.value.index[i][0], p.value.header[j][0]))
  {
    if index !in g.columns || header !in g.columns then None
    else
      var ip, hp, vp := IndexOf(g.columns, index), IndexOf(g.columns, header), IndexOf(g.columns, values);
      var rowKeys, colKeys := PivotKeys(g, index), PivotKeys(g, header);
      Some(Pivot(rowKeys, colKeys, PivotGrid(g, ip, hp, vp, rowKeys, colKeys)))
  }

  /** One pivot cell per (row key, column key) pair. */
  function PivotGrid(g: Table, ip: nat, hp: nat, vp: nat, rowKeys: seq<Key>, colKeys: seq<Key>): (cells: seq<seq<PivotCell>>)
    requires WellFormed(g) && ip < |g.columns| && hp < |g.columns| && vp < |g.columns|
    requires forall i :: 0 <= i < |rowKeys| ==> |rowKeys[i]| == 1
    requires forall j :: 0 <= j < |colKeys| ==> |colKeys[j]| == 1
    ensures |cells| == |rowKeys|
    ensures forall i :: 0 <= i < |rowKeys| ==>
      && |cells[i]| == |colKeys|
      && forall j :: 0 <= j < |colKeys| ==> cells[i][j] == PivotCellOf(g, ip, hp, vp, rowKeys[i][0], colKeys[j][0])
  {
    seq(|rowKeys|, i requires 0 <= i < |rowKeys| =>
      seq(|colKeys|, j requires 0 <= j < |colKeys| => PivotCellOf(g, ip, hp, vp, rowKeys[i][0], colKeys[j][0])))
  }

  /** Does row r of the rows carry the pair (a, b) in positions ip and hp? */
  predicate HasPair(row: Row, ip: nat, hp: nat, a: Cell, b: Cell)
    requires ip < |row.cells| && hp < |row.cells|
  {
    row.cells[ip] == a && row.cells[hp] == b
  }

  lemma {:induction false} PairCountZero(rows: seq<Row>, width: nat, ip: nat, hp: nat, a: Cell, b: Cell)
    requires Rectangular(rows, width) && ip < width && hp < width
    ensures PairCount(rows, width, ip, hp, a, b) == 0 <==> forall r :: 0 <= r < |rows| ==> !HasPair(rows[r], ip, hp, a, b)
  {
    if rows != [] {
      PairCountZero(rows[1..], width, ip, hp, a, b);
      if forall r :: 0 <= r < |rows| - 1 ==> !HasPair(rows[1..][r], ip, hp, a, b) {
        forall r | 1 <= r < |rows| ensures !HasPair(rows[r], ip, hp, a, b) {
          assert rows[r] == rows[1..][r - 1];
        }
      }
    }
  }

  /** No two rows carry the same (ip, hp) pair. */
  predicate PairsUnique(rows: seq<Row>, width: nat, ip: nat, hp: nat)
    requires Rectangular(rows, width) && ip < width && hp < width
  {
    forall r, s :: 0 <= r < s < |rows| ==>
      rows[r].cells[ip] != rows[s].cells[ip] || rows[r].cells[hp] != rows[s].cells[hp]
  }

  /** With unique pairs, the one row that carries a pair is all its cell is made of. */
  lemma {:induction false} SinglePair(rows: seq<Row>, width: nat, ip: nat, hp: nat, vp: nat, r: nat)
    requires Rectangular(rows, width) && ip < width && hp < width && vp < width
    requires PairsUnique(rows, width, ip, hp) && r < |rows|
    ensures PairCount(rows, width, ip, hp, rows[r].cells[ip], rows[r].cells[hp]) == 1
    ensures PairTotal(rows, width, ip, hp, vp, rows[r].cells[ip], rows[r].cells[hp]) == Amount(rows[r].cells[vp])
  {
    var a, b := rows[r].cells[ip], rows[r].cells[hp];
    if r == 0 {
      NoPairTotal(rows[1..], width, ip, hp, vp, a, b);
    } else {
      assert rows[1..][r - 1] == rows[r];
      SinglePair(rows[1..], width, ip, hp, vp, r - 1);
    }
  }

  lemma {:induction false} NoPairTotal(rows: seq<Row>, width: nat, ip: nat, hp: nat, vp: nat, a: Cell, b: Cell)
    requires Rectangular(rows, width) && ip < width && hp < width && vp < width
    requires forall r :: 0 <= r < |rows| ==> !HasPair(rows[r], ip, hp, a, b)
    ensures PairCount(rows, width, ip, hp, a, b) == 0 && PairTotal(rows, width, ip, hp, vp, a, b) == 0
  {
    if rows != [] {
      assert forall r :: 0 <= r < |rows| - 1 ==> rows[1..][r] == rows[r + 1];
      NoPairTotal(rows[1..], width, ip, hp, vp, a, b);
    }
  }

  /** The pivot keys of a column are exactly its distinct non-missing values. */
  lemma PivotKeysExact(g: Table, name: string, a: Cell)
    requires WellFormed(g) && name in g.columns
    ensures [a] in PivotKeys(g, name) <==> !a.Missing? && exists r :: 0 <= r < |g.rows| && At(g, r, name) == a
  {
    var ip := IndexOf(g.columns, name);
    var ks := CompleteKeys(g.rows, |g.columns|, [ip]);
    PivotKeysMembers(g, name);
    forall r | 0 <= r < |g.rows| ensures KeyAt(g.rows[r], [ip]) == [a] <==> At(g, r, name) == a {
      KeyAtSingle(g.rows[r], ip);
    }
    assert Complete([a]) <==> !a.Missing?;
  }

  lemma PivotKeysMembers(g: Table, name: string)
    requires WellFormed(g) && name in g.columns
    ensures forall k :: k in PivotKeys(g, name) <==> k in CompleteKeys(g.rows, |g.columns|, [IndexOf(g.columns, name)])
  {
  }

  lemma KeyAtSingle(row: Row, p: nat)
    requires p < |row.cells|
    ensures KeyAt(row, [p]) == [row.cells[p]]
  {
  }

  /** A pivot cell is Empty exactly when no row carries its (index, header) pair. */
  lemma PivotOfCells(g: Table, values: string, index: string, header: string, i: nat, j: nat)
    requires WellFormed(g) && NumericColumn(g, values)
    requires index != header && values != index && values != header
    requires index in g.columns && header in g.columns
    requires i < |PivotKeys(g, index)| && j < |PivotKeys(g, header)|
    ensures var p := PivotOf(g, values, index, header).value;
      p.cells[i][j] == Empty <==>
        forall r :: 0 <= r < |g.rows| ==> !(At(g, r, index) == p.index[i][0] && At(g, r, header) == p.header[j][0])
  {
    var p := PivotOf(g, values, index, header).value;
    var ip, hp, vp := IndexOf(g.columns, index), IndexOf(g.columns, header), IndexOf(g.columns, values);
    var a, b := p.index[i][0], p.header[j][0];
    assert p.cells[i][j] == PivotCellOf(g, ip, hp, vp, a, b);
    PivotCellEmpty(g, ip, hp, vp, a, b);
    assert forall r :: 0 <= r < |g.rows| ==> At(g, r, index) == g.rows[r].cells[ip] && At(g, r, header) == g.rows[r].cells[hp];
  }

  /** A pivot cell is Empty exactly when no row carries its pair. */
  lemma PivotCellEmpty(g: Table, ip: nat, hp: nat, vp: nat, a: Cell, b: Cell)
    requires WellFormed(g) && ip < |g.columns| && hp < |g.columns| && vp < |g.columns|
    ensures PivotCellOf(g, ip, hp, vp, a, b) == Empty <==>
      forall r :: 0 <= r < |g.rows| ==> !(g.rows[r].cells[ip] == a && g.rows[r].cells[hp] == b)
  {
    PairCountZero(g.rows, |g.columns|, ip, hp, a, b);
  }

  /** The first two cells of a row grouped by two keys are the group's key. */
  lemma GroupSumKeyCells(t: Table, keys: seq<string>, cols: seq<string>, r: nat)
    requires Groupable(t, keys, cols) && |keys| == 2
    requires r < |GroupSum(t, keys, cols).rows|
    ensures var g0 := GroupSum(t, keys, cols);
      g0.rows[r].cells[0] == Groups(t, keys)[r][0] && g0.rows[r].cells[1] == Groups(t, keys)[r][1]
  {
    var g0 := GroupSum(t, keys, cols);
    assert GroupedKey(g0, r, 2) == Groups(t, keys)[r];
  }

  /** Adding the total column keeps the key columns first, holding the group's key. */
  lemma TotalledGroupKeys(t: Table, keys: seq<string>, cols: seq<string>, values: string, r: nat)
    requires Groupable(t, keys, cols) && |keys| == 2 && values !in keys
    requires r < |GroupSum(t, keys, cols).rows|
    ensures var g := WithRowTotal(GroupSum(t, keys, cols), cols, values);
      && IndexOf(g.columns, keys[0]) == 0 && IndexOf(g.columns, keys[1]) == 1
      && g.rows[r].cells[0] == Groups(t, keys)[r][0] && g.rows[r].cells[1] == Groups(t, keys)[r][1]
  {
    var g0 := GroupSum(t, keys, cols);
    GroupSumKeyCells(t, keys, cols, r);
    assert (keys + cols)[0] == keys[0] && (keys + cols)[1] == keys[1];
    KeyCellsKept(g0, WithRowTotal(g0, cols, values), values, r);
  }

  /** A frame that keeps the first two columns and their cells keeps them at positions 0 and 1. */
  lemma KeyCellsKept(g0: Table, g: Table, name: string, r: nat)
    requires WellFormed(g0) && WellFormed(g) && |g0.columns| >= 2 && g0.columns[0] != g0.columns[1]
    requires name != g0.columns[0] && name != g0.columns[1]
    requires g.columns == if name in g0.columns then g0.columns else g0.columns + [name]
    requires r < |g0.rows| && |g.rows| == |g0.rows|
    requires forall i, c :: 0 <= i < |g.rows| && c in g0.columns && c != name ==> At(g, i, c) == At(g0, i, c)
    ensures IndexOf(g.columns, g0.columns[0]) == 0 && IndexOf(g.columns, g0.columns[1]) == 1
    ensures g.rows[r].cells[0] == g0.rows[r].cells[0] && g.rows[r].cells[1] == g0.rows[r].cells[1]
  {
    var k0, k1 := g0.columns[0], g0.columns[1];
    assert g.columns[0] == k0 && g.columns[1] == k1;
    assert IndexOf(g0.columns, k0) == 0 && IndexOf(g0.columns, k1) == 1;
    assert IndexOf(g.columns, k0) == 0 && IndexOf(g.columns, k1) == 1;
    assert At(g, r, k0) == At(g0, r, k0) && At(g, r, k1) == At(g0, r, k1);
  }

  /** Rows whose (ip, hp) cells spell distinct two-cell keys (in either order) repeat no pair. */
  lemma PairsUniqueFromKeys(rows: seq<Row>, width: nat, ip: nat, hp: nat, gs: seq<Key>, swapped: bool)
    requires Rectangular(rows, width) && ip < width && hp < width
    requires |gs| == |rows| && Distinct(gs)
    requires forall r :: 0 <= r < |rows| ==> |gs[r]| == 2
    requires forall r :: 0 <= r < |rows| ==>
      if swapped then rows[r].cells[ip] == gs[r][1] && rows[r].cells[hp] == gs[r][0]
      else rows[r].cells[ip] == gs[r][0] && rows[r].cells[hp] == gs[r][1]
    ensures PairsUnique(rows, width, ip, hp)
  {
    forall r, s | 0 <= r < s < |rows|
      ensures rows[r].cells[ip] != rows[s].cells[ip] || rows[r].cells[hp] != rows[s].cells[hp]
    {
      assert gs[r] == [gs[r][0], gs[r][1]] && gs[s] == [gs[s][0], gs[s][1]];
    }
  }

  /** In a frame grouped by two keys, the two key columns never repeat a pair. */
  lemma GroupedPairsUnique(t: Table, keys: seq<string>, cols: seq<string>, values: string, index: string, header: string)
    requires Groupable(t, keys, cols) && |keys| == 2 && values !in keys
    requires (index == keys[0] && header == keys[1]) || (index == keys[1] && header == keys[0])
    ensures var g := WithRowTotal(GroupSum(t, keys, cols), cols, values);
      && index in g.columns && header in g.columns
      && PairsUnique(g.rows, |g.columns|, IndexOf(g.columns, index), IndexOf(g.columns, header))
  {
    var g := WithRowTotal(GroupSum(t, keys, cols), cols, values);
    var gs := Groups(t, keys);
    var ip, hp := IndexOf(g.columns, index), IndexOf(g.columns, header);
    GroupsSorted(t, keys);
    StrictlySortedDistinct(gs);
    var swapped := index != keys[0];
    forall r | 0 <= r < |g.rows|
      ensures if swapped then g.rows[r].cells[ip] == gs[r][1] && g.rows[r].cells[hp] == gs[r][0]
              else g.rows[r].cells[ip] == gs[r][0] && g.rows[r].cells[hp] == gs[r][1]
    {
      TotalledGroupKeys(t, keys, cols, values, r);
    }
    PairsUniqueFromKeys(g.rows, |g.columns|, ip, hp, gs, swapped);
  }

  /** With unique pairs, a non-empty pivot cell is the value of the one row carrying its pair. */
  lemma UniquePairCell(g: Table, ip: nat, hp: nat, vp: nat, a: Cell, b: Cell)
    requires WellFormed(g) && ip < |g.columns| && hp < |g.columns| && vp < |g.columns|
    requires PairsUnique(g.rows, |g.columns|, ip, hp)
    requires PivotCellOf(g, ip, hp, vp, a, b) != Empty
    ensures PivotCellOf(g, ip, hp, vp, a, b).count == 1
    ensures exists r :: 0 <= r < |g.rows| && HasPair(g.rows[r], ip, hp, a, b)
                        && PivotCellOf(g, ip, hp, vp, a, b).total == Amount(g.rows[r].cells[vp])
  {
    PairCountZero(g.rows, |g.columns|, ip, hp, a, b);
    var r :| 0 <= r < |g.rows| && HasPair(g.rows[r], ip, hp, a, b);
    SinglePair(g.rows, |g.columns|, ip, hp, vp, r);
  }

  /**
   * Cell (i, j) of p is the pivot of a single row: Empty exactly when no row
   * of g carries the cell's (index, header) pair, and otherwise the value of
   * the one row that does.
   */
  predicate SingleRowCell(g: Table, values: string, index: string, header: string, p: Pivot, i: nat, j: nat)
    requires WellFormed(g) && values in g.columns && index in g.columns && header in g.columns
    requires i < |p.cells| && i < |p.index| && |p.index[i]| == 1
    requires j < |p.cells[i]| && j < |p.header| && |p.header[j]| == 1
  {
    && (p.cells[i][j] == Empty <==>
          forall r :: 0 <= r < |g.rows| ==> !(At(g, r, index) == p.index[i][0] && At(g, r, header) == p.header[j][0]))
    && (p.cells[i][j] != Empty ==>
          && p.cells[i][j].count == 1
          && exists r :: 0 <= r < |g.rows| && At(g, r, index) == p.index[i][0] && At(g, r, header) == p.header[j][0]
                         && Num(p.cells[i][j].total) == At(g, r, values))
  }

  /** One cell of a pivot over rows that repeat no (index, header) pair is a single row's. */
  lemma PivotUniqueCell(g: Table, values: string, index: string, header: string, i: nat, j: nat)
    requires WellFormed(g) && NumericColumn(g, values)
    requires index != header && values != index && values != header
    requires index in g.columns && header in g.columns
    requires PairsUnique(g.rows, |g.columns|, IndexOf(g.columns, index), IndexOf(g.columns, header))
    requires i < |PivotKeys(g, index)| && j < |PivotKeys(g, header)|
    ensures SingleRowCell(g, values, index, header, PivotOf(g, values, index, header).value, i, j)
  {
    var ip, hp, vp := IndexOf(g.columns, index), IndexOf(g.columns, header), IndexOf(g.columns, values);
    var p := PivotOf(g, values, index, header).value;
    var a, b := p.index[i][0], p.header[j][0];
    PivotOfCells(g, values, index, header, i, j);
    assert p.cells[i][j] == PivotCellOf(g, ip, hp, vp, a, b);
    if p.cells[i][j] != Empty {
      UniquePairCell(g, ip, hp, vp, a, b);
      var r :| 0 <= r < |g.rows| && HasPair(g.rows[r], ip, hp, a, b) && p.cells[i][j].total == Amount(g.rows[r].cells[vp]);
      assert At(g, r, index) == a && At(g, r, header) == b;
      assert At(g, r, values).Num?;
    }
  }

  /** A pivot over rows that repeat no (index, header) pair: every cell is a single row's, or Empty when no row has its pair. */
  lemma PivotOfUniqueIsSingleValued(g: Table, values: string, index: string, header: string)
    requires WellFormed(g) && NumericColumn(g, values)
    requires index != header && values != index && values != header
    requires index in g.columns && header in g.columns
    requires PairsUnique(g.rows, |g.columns|, IndexOf(g.columns, index), IndexOf(g.columns, header))
    ensures var p := PivotOf(g, values, index, header).value;
      forall i, j :: 0 <= i < |p.cells| && 0 <= j < |p.cells[i]| ==> SingleRowCell(g, values, index, header, p, i, j)
  {
    var p := PivotOf(g, values, index, header).value;
    forall i, j | 0 <= i < |p.cells| && 0 <= j < |p.cells[i]| ensures SingleRowCell(g, values, index, header, p, i, j) {
      PivotUniqueCell(g, values, index, header, i, j);
    }
  }

  /**
   * Pivoting the frame the pivot decorator builds, with the two group keys as
   * index and header, always succeeds, and every pair occurs at most once: a
   * cell is Empty exactly when its pair never occurs, and otherwise holds the
   * values total of the one group with that pair.
   */
  lemma PivotOfGroupedIsSingleValued(t: Table, keys: seq<string>, cols: seq<string>, values: string, index: string, header: string)
    requires Groupable(t, keys, cols) && |keys| == 2 && values !in keys
    requires (index == keys[0] && header == keys[1]) || (index == keys[1] && header == keys[0])
    ensures index != header && values != index && values != header
    ensures var g := TotalledGroups(t, keys, cols, values);
      && PivotOf(g, values, index, header).Some?
      && var p := PivotOf(g, values, index, header).value;
         forall i, j :: 0 <= i < |p.cells| && 0 <= j < |p.cells[i]| ==> SingleRowCell(g, values, index, header, p, i, j)
  {
    assert keys[0] != keys[1] by { assert keys[0] == (keys + cols)[0] && keys[1] == (keys + cols)[1]; }
    var g := TotalledGroups(t, keys, cols, values);
    GroupedPairsUnique(t, keys, cols, values, index, header);
    PivotOfUniqueIsSingleValued(g, values, index, header);
  }

  // ----- data_group -----

  /** For the group with key k: the sum, over cols, of each column's group total. */
  function ColumnTotals(t: Table, keys: seq<string>, k: Key, cols: seq<string>): int
    requires WellFormed(t) && (forall j :: 0 <= j < |keys| ==> keys[j] in t.columns)
    requires forall j :: 0 <= j < |cols| ==> cols[j] in t.columns
    decreases |cols|
  {
    if cols == [] then 0
    else
      var last := GroupTotal(t.rows, |t.columns|, PositionsOf(t, keys), k, IndexOf(t.columns, cols[|cols| - 1]));
      ColumnTotals(t, keys, k, cols[..|cols| - 1]) + last
  }

  /** A row whose cells under cols are the group totals for k sums them to the column totals for k. */
  lemma {:induction false} RowSumOfTotals(t: Table, keys: seq<string>, k: Key, g: Table, i: nat, cols: seq<string>)
    requires WellFormed(t) && (forall j :: 0 <= j < |keys| ==> keys[j] in t.columns)
    requires forall j :: 0 <= j < |cols| ==> cols[j] in t.columns
    requires WellFormed(g) && i < |g.rows| && forall j :: 0 <= j < |cols| ==> cols[j] in g.columns
    requires forall j :: 0 <= j < |cols| ==>
      At(g, i, cols[j]) == Num(GroupTotal(t.rows, |t.columns|, PositionsOf(t, keys), k, IndexOf(t.columns, cols[j])))
    ensures RowSum(g, i, cols) == ColumnTotals(t, keys, k, cols)
    decreases |cols|
  {
    if cols != [] {
      var init := cols[..|cols| - 1];
      assert forall j :: 0 <= j < |init| ==> init[j] == cols[j];
      RowSumOfTotals(t, keys, k, g, i, init);
    }
  }

  /** The grouped sums of data_group, with the optional "Total" column of row sums. */
  function DataGroupFrame(t: Table, cols: seq<string>, groupElement: string, includeTotal: bool): (g: Table)
    requires Groupable(t, [groupElement], cols)
    ensures WellFormed(g) && Renumbered(g.rows) && |g.rows| == |Groups(t, [groupElement])|
    ensures g.columns == [groupElement] + cols + (if includeTotal && "Total" !in [groupElement] + cols then ["Total"] else [])
  {
    var sums := GroupSum(t, [groupElement], cols);
    assert sums.columns == [groupElement] + cols;
    WithOptionalTotal(sums, cols, includeTotal)
  }

  /** The frame with a "Total" column of row sums added when asked, or as it is. */
  function WithOptionalTotal(sums: Table, cols: seq<string>, includeTotal: bool): (g: Table)
    requires WellFormed(sums) && Renumbered(sums.rows) && forall j :: 0 <= j < |cols| ==> cols[j] in sums.columns
    ensures WellFormed(g) && Renumbered(g.rows) && |g.rows| == |sums.rows|
    ensures g.columns == sums.columns + (if includeTotal && "Total" !in sums.columns then ["Total"] else [])
  {
    if includeTotal then
      var g := WithRowTotal(sums, cols, "Total");
      assert Renumbered(g.rows);
      g
    else
      assert sums.columns + [] == sums.columns;
      sums
  }

  /**
   * Dataset.data_group: `groupby(groupElement)[cols].sum().reset_index()`,
   * with a "Total" column of row sums when asked; None is the KeyError the
   * method catches when a named column is absent.
   */
  function DataGroupResult(t: Table, cols: seq<string>, groupElement: string, includeTotal: bool): (r: Option<Table>)
    requires WellFormed(t) && Distinct([groupElement] + cols) && Summable(t, cols)
    ensures r.None? <==> groupElement !in t.columns || exists j :: 0 <= j < |cols| && cols[j] !in t.columns
    ensures r.Some? ==> WellFormed(r.value) && Renumbered(r.value.rows) && |r.value.rows| == |Groups(t, [groupElement])|
    ensures r.Some? ==> r.value.columns == [groupElement] + cols + (if includeTotal && "Total" !in [groupElement] + cols then ["Total"] else [])
  {
    if groupElement !in t.columns || exists j :: 0 <= j < |cols| && cols[j] !in t.columns then None
    else Some(DataGroupFrame(t, cols, groupElement, includeTotal))
  }

  /**
   * Each row of the grouped frame is one group: its summed columns hold the
   * group's column totals and, when asked, "Total" holds their sum.
   */
  lemma DataGroupSums(t: Table, cols: seq<string>, groupElement: string, includeTotal: bool, i: nat)
    requires WellFormed(t) && Distinct([groupElement] + cols) && Summable(t, cols)
    requires DataGroupResult(t, cols, groupElement, includeTotal).Some?
    requires i < |DataGroupResult(t, cols, groupElement, includeTotal).value.rows|
    ensures var r := DataGroupResult(t, cols, groupElement, includeTotal).value;
      var k := Groups(t, [groupElement])[i];
      && (forall j :: 0 <= j < |cols| && (!includeTotal || cols[j] != "Total") ==>
            At(r, i, cols[j]) == Num(GroupTotal(t.rows, |t.columns|, PositionsOf(t, [groupElement]), k, IndexOf(t.columns, cols[j]))))
      && (includeTotal ==> At(r, i, "Total") == Num(ColumnTotals(t, [groupElement], k, cols)))
  {
    var g := GroupSum(t, [groupElement], cols);
    var r := DataGroupResult(t, cols, groupElement, includeTotal).value;
    forall j | 0 <= j < |cols| ensures At(g, i, cols[j]) ==
      Num(GroupTotal(t.rows, |t.columns|, PositionsOf(t, [groupElement]), Groups(t, [groupElement])[i], IndexOf(t.columns, cols[j])))
    {
      GroupSumTotals(t, [groupElement], cols, i, j);
    }
    assert g.columns == [groupElement] + cols;
    RowSumOfTotals(t, [groupElement], Groups(t, [groupElement])[i], g, i, cols);
  }

  /** The frame the pivot decorator builds: the group sums of cols by keys, with their row totals in the column values. */
  function TotalledGroups(t: Table, keys: seq<string>, cols: seq<string>, values: string): (g: Table)
    requires Groupable(t, keys, cols)
    ensures WellFormed(g) && NumericColumn(g, values)
    ensures |g.rows| == |Groups(t, keys)|
  {
    var sums := GroupSum(t, keys, cols);
    assert forall j :: 0 <= j < |cols| ==> cols[j] in sums.columns;
    WithRowTotal(sums, cols, values)
  }

  /**
   * The pivot decorator and the pivot together: the totalled group sums the
   * decorator stores, and the pivot built from them (None on the KeyError).
   */
  function PivotTableResult(t: Table, keys: seq<string>, cols: seq<string>, values: string, index: string, header: string)
    : (r: (Table, Option<Pivot>))
    requires Groupable(t, keys, cols)
    requires index != header && values != index && values != header
    ensures WellFormed(r.0)
    ensures r.1.None? <==> index !in r.0.columns || header !in r.0.columns
  {
    var grouped := TotalledGroups(t, keys, cols, values);
    (grouped, PivotOf(grouped, values, index, header))
  }

  /** The values column of the decorator's frame holds, for each group, the sum of its column totals. */
  lemma TotalledGroupsTotals(t: Table, keys: seq<string>, cols: seq<string>, values: string, r: nat)
    requires Groupable(t, keys, cols) && r < |Groups(t, keys)|
    ensures var g := TotalledGroups(t, keys, cols, values);
      At(g, r, values) == Num(ColumnTotals(t, keys, Groups(t, keys)[r], cols))
  {
    var sums := GroupSum(t, keys, cols);
    assert forall j :: 0 <= j < |cols| ==> cols[j] in sums.columns;
    assert TotalledGroups(t, keys, cols, values) == WithRowTotal(sums, cols, values);
    forall j | 0 <= j < |cols| ensures At(sums, r, cols[j]) ==
      Num(GroupTotal(t.rows, |t.columns|, PositionsOf(t, keys), Groups(t, keys)[r], IndexOf(t.columns, cols[j])))
    {
      GroupSumTotals(t, keys, cols, r, j);
    }
    RowSumOfTotals(t, keys, Groups(t, keys)[r], sums, r, cols);
  }
}
