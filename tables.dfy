/**
 * The value model of the tabular frames that the dataset classes and the
 * chart helpers pass around: an ordered list of column names and an ordered
 * list of rows, each row carrying its index label and one cell per column.
 */
module Tables {

  datatype Option<T> = None | Some(value: T)

  /** One cell: an integer, a text value, or a missing value (NaN). */
  datatype Cell = Num(n: int) | Text(s: string) | Missing

  /** A row keeps its index label: filters and slices keep labels, reset_index renumbers them. */
  datatype Row = Row(indexLabel: int, cells: seq<Cell>)

  datatype Table = Table(columns: seq<string>, rows: seq<Row>)

  predicate Distinct<T(==)>(s: seq<T>) {
    forall i, j :: 0 <= i < j < |s| ==> s[i] != s[j]
  }

  /** Column names are unique and every row has one cell per column. */
  predicate WellFormed(t: Table) {
    && Distinct(t.columns)
    && forall i :: 0 <= i < |t.rows| ==> |t.rows[i].cells| == |t.columns|
  }

  /** The labels 0, 1, ..., n-1 that reading a file or reset_index gives. */
  predicate Renumbered(rows: seq<Row>) {
    forall i :: 0 <= i < |rows| ==> rows[i].indexLabel == i
  }

  /** Position of the first occurrence of x in s, or |s| when x is absent. */
  function IndexOf<T(==)>(s: seq<T>, x: T): (k: nat)
    ensures k <= |s|
    ensures k < |s| <==> x in s
    ensures k < |s| ==> s[k] == x
    ensures forall j :: 0 <= j < k ==> s[j] != x
  {
    if s == [] then 0 else if s[0] == x then 0 else 1 + IndexOf(s[1..], x)
  }

  lemma IndexOfDistinct<T>(s: seq<T>, k: nat)
    requires Distinct(s) && k < |s|
    ensures IndexOf(s, s[k]) == k
  {
  }

  lemma IndexOfAppend<T>(s: seq<T>, x: T, y: T)
    requires x in s
    ensures IndexOf(s + [y], x) == IndexOf(s, x)
  {
    assert (s + [y])[IndexOf(s, x)] == x;
  }

  /** The cell of row i under the column called name. */
  function At(t: Table, i: nat, name: string): Cell
    requires WellFormed(t) && i < |t.rows| && name in t.columns
  {
    t.rows[i].cells[IndexOf(t.columns, name)]
  }

  /** Two frames with the same columns, labels and cells are the same frame. */
  lemma TableExtensionality(a: Table, b: Table)
    requires WellFormed(a) && WellFormed(b) && a.columns == b.columns && |a.rows| == |b.rows|
    requires forall i :: 0 <= i < |a.rows| ==> a.rows[i].indexLabel == b.rows[i].indexLabel
    requires forall i, c :: 0 <= i < |a.rows| && c in a.columns ==> At(a, i, c) == At(b, i, c)
    ensures a == b
  {
    forall i | 0 <= i < |a.rows| ensures a.rows[i] == b.rows[i] {
      forall k | 0 <= k < |a.columns| ensures a.rows[i].cells[k] == b.rows[i].cells[k] {
        IndexOfDistinct(a.columns, k);
        assert At(a, i, a.columns[k]) == At(b, i, a.columns[k]);
      }
    }
  }

  /** The whole column called name, top to bottom. */
  function Column(t: Table, name: string): (c: seq<Cell>)
    requires WellFormed(t) && name in t.columns
    ensures |c| == |t.rows|
    ensures forall i :: 0 <= i < |c| ==> c[i] == At(t, i, name)
  {
    seq(|t.rows|, i requires 0 <= i < |t.rows| => At(t, i, name))
  }

  /**
   * `frame[name] = values`: replaces the column in place when it exists,
   * otherwise appends it as the last column. Labels and all other columns stay.
   */
  function SetColumn(t: Table, name: string, values: seq<Cell>): (r: Table)
    requires WellFormed(t) && |values| == |t.rows|
    ensures WellFormed(r)
    ensures r.columns == if name in t.columns then t.columns else t.columns + [name]
    ensures |r.rows| == |t.rows|
    ensures forall i :: 0 <= i < |r.rows| ==> r.rows[i].indexLabel == t.rows[i].indexLabel
    ensures forall i :: 0 <= i < |r.rows| ==> At(r, i, name) == values[i]
    ensures forall i, c :: 0 <= i < |r.rows| && c in t.columns && c != name ==> At(r, i, c) == At(t, i, c)
  {
    var k := IndexOf(t.columns, name);
    if k < |t.columns| then ReplaceColumn(t, k, values) else AppendColumn(t, name, values)
  }

  function ReplaceColumn(t: Table, k: nat, values: seq<Cell>): (r: Table)
    requires WellFormed(t) && k < |t.columns| && |values| == |t.rows|
    ensures WellFormed(r) && r.columns == t.columns && |r.rows| == |t.rows|
    ensures forall i :: 0 <= i < |r.rows| ==> r.rows[i].indexLabel == t.rows[i].indexLabel
    ensures forall i :: 0 <= i < |r.rows| ==> At(r, i, t.columns[k]) == values[i]
    ensures forall i, c :: 0 <= i < |r.rows| && c in t.columns && c != t.columns[k] ==> At(r, i, c) == At(t, i, c)
  {
    IndexOfDistinct(t.columns, k);
    Table(t.columns, seq(|t.rows|, i requires 0 <= i < |t.rows| =>
      Row(t.rows[i].indexLabel, t.rows[i].cells[k := values[i]])))
  }

  function AppendColumn(t: Table, name: string, values: seq<Cell>): (r: Table)
    requires WellFormed(t) && name !in t.columns && |values| == |t.rows|
    ensures WellFormed(r) && r.columns == t.columns + [name] && |r.rows| == |t.rows|
    ensures forall i :: 0 <= i < |r.rows| ==> r.rows[i].indexLabel == t.rows[i].indexLabel
    ensures forall i :: 0 <= i < |r.rows| ==> At(r, i, name) == values[i]
    ensures forall i, c :: 0 <= i < |r.rows| && c in t.columns ==> At(r, i, c) == At(t, i, c)
  {
    var r := Table(t.columns + [name], seq(|t.rows|, i requires 0 <= i < |t.rows| =>
      Row(t.rows[i].indexLabel, t.rows[i].cells + [values[i]])));
    IndexOfDistinct(r.columns, |t.columns|);
    assert forall c :: c in t.columns ==> IndexOf(r.columns, c) == IndexOf(t.columns, c) by {
      forall c | c in t.columns ensures IndexOf(r.columns, c) == IndexOf(t.columns, c) {
        IndexOfAppend(t.columns, c, name);
      }
    }
    r
  }

  /** Is a an order-preserving selection of the elements of b? */
  predicate IsSubsequence<T(==)>(a: seq<T>, b: seq<T>)
    decreases |b|
  {
    a == [] || (b != [] && ((a[0] == b[0] && IsSubsequence(a[1..], b[1..])) || IsSubsequence(a, b[1..])))
  }

  /** Selecting from a selection is selecting from the original, in the same order. */
  lemma {:induction false} IsSubsequenceTransitive<T>(a: seq<T>, b: seq<T>, c: seq<T>)
    requires IsSubsequence(a, b) && IsSubsequence(b, c)
    ensures IsSubsequence(a, c)
    decreases |c|
  {
    if a != [] {
      if b[0] == c[0] && IsSubsequence(b[1..], c[1..]) {
        if a[0] == b[0] && IsSubsequence(a[1..], b[1..]) {
          IsSubsequenceTransitive(a[1..], b[1..], c[1..]);
        } else {
          IsSubsequenceTransitive(a, b[1..], c[1..]);
        }
      } else {
        IsSubsequenceTransitive(a, b, c[1..]);
      }
    }
  }

  /** The rows that keep accepts, in their original order (a pandas boolean mask). */
  function Where(rows: seq<Row>, keep: Row -> bool): (r: seq<Row>)
    ensures |r| <= |rows|
    ensures forall x :: x in r <==> x in rows && keep(x)
    ensures IsSubsequence(r, rows)
  {
    if rows == [] then []
    else if keep(rows[0]) then [rows[0]] + Where(rows[1..], keep)
    else Where(rows[1..], keep)
  }

  /** Every accepted row keeps its multiplicity, every other row is gone. */
  lemma {:induction false} WhereCounts(rows: seq<Row>, keep: Row -> bool, x: Row)
    ensures multiset(Where(rows, keep))[x] == if keep(x) then multiset(rows)[x] else 0
  {
    if rows != [] {
      WhereCounts(rows[1..], keep, x);
      assert rows == [rows[0]] + rows[1..];
    }
  }

  /** The same frame restricted to the rows keep accepts. */
  function Select(t: Table, keep: Row -> bool): (r: Table)
    requires WellFormed(t)
    ensures WellFormed(r) && r.columns == t.columns
    ensures forall x :: x in r.rows <==> x in t.rows && keep(x)
    ensures IsSubsequence(r.rows, t.rows)
  {
    var r := Table(t.columns, Where(t.rows, keep));
    assert forall i :: 0 <= i < |r.rows| ==> r.rows[i] in t.rows;
    r
  }

  // ----- text forms of numbers -----

  predicate IsDigit(c: char) { '0' <= c <= '9' }

  predicate AllDigits(s: string) { forall i :: 0 <= i < |s| ==> IsDigit(s[i]) }

  function DigitChar(d: nat): (c: char)
    requires d < 10
    ensures IsDigit(c) && c as int - '0' as int == d
  {
    "0123456789"[d]
  }

  /** Decimal notation of a natural number, without leading zeros. */
  function NatToString(n: nat): (s: string)
    ensures |s| > 0 && AllDigits(s)
  {
    if n < 10 then [DigitChar(n)] else NatToString(n / 10) + [DigitChar(n % 10)]
  }

  /** Python's str() of an integer. */
  function IntToString(n: int): (s: string)
    ensures |s| > 0
    ensures forall i :: 0 <= i < |s| ==> IsDigit(s[i]) || s[i] == '-'
  {
    if n < 0 then "-" + NatToString(-n) else NatToString(n)
  }

  function DigitsValue(s: string): nat
    requires AllDigits(s)
  {
    if s == [] then 0 else DigitsValue(s[..|s| - 1]) * 10 + (s[|s| - 1] as int - '0' as int)
  }

  /** An optionally signed run of decimal digits, read as an integer; None for anything else. */
  function ParseInt(s: string): Option<int> {
    if |s| > 1 && (s[0] == '-' || s[0] == '+') && AllDigits(s[1..]) then
      var v: int := DigitsValue(s[1..]);
      Some(if s[0] == '-' then -v else v)
    else if |s| > 0 && AllDigits(s) then Some(DigitsValue(s))
    else None
  }

  lemma {:induction false} DigitsValueOfNat(n: nat)
    ensures DigitsValue(NatToString(n)) == n
  {
    if n >= 10 {
      var s := NatToString(n);
      assert s[..|s| - 1] == NatToString(n / 10);
      DigitsValueOfNat(n / 10);
    }
  }

  /** Reading back the text form of an integer gives the integer. */
  lemma ParseIntOfIntToString(n: int)
    ensures ParseInt(IntToString(n)) == Some(n)
  {
    if n < 0 {
      ParseNegative(-n);
    } else {
      ParseNatural(n);
    }
  }

  lemma ParseNegative(m: nat)
    requires m > 0
    ensures ParseInt("-" + NatToString(m)) == Some(-(m as int))
  {
    var s := "-" + NatToString(m);
    assert s[1..] == NatToString(m);
    assert |s| > 1 && s[0] == '-' && AllDigits(s[1..]);
    DigitsValueOfNat(m);
  }

  lemma ParseNatural(n: nat)
    ensures ParseInt(NatToString(n)) == Some(n)
  {
    var s := NatToString(n);
    assert IsDigit(s[0]);
    assert s[0] != '-' && s[0] != '+';
    DigitsValueOfNat(n);
  }

  // ----- text predicates -----

  predicate OccursAt(s: string, p: string, i: int) {
    0 <= i <= |s| - |p| && s[i..i + |p|] == p
  }

  /** Python's `p in s` for strings. */
  predicate Contains(s: string, p: string) {
    exists i :: 0 <= i <= |s| && OccursAt(s, p, i)
  }

  predicate EndsWith(s: string, p: string) {
    |p| <= |s| && s[|s| - |p|..] == p
  }

  /** `astype(str)` of a cell: NaN prints as "nan". */
  function CellText(c: Cell): string {
    match c
    case Num(n) => IntToString(n)
    case Text(s) => s
    case Missing => "nan"
  }

  /** The text form of a number never contains a letter, so never "Total". */
  lemma NumberTextHasNoTotal(n: int)
    ensures !Contains(IntToString(n), "Total")
  {
    var s := IntToString(n);
    forall i | 0 <= i <= |s| ensures !OccursAt(s, "Total", i) {
      if i <= |s| - 5 {
        assert s[i..i + 5][0] == s[i];
      }
    }
  }
}
