/**
 * The orders the frame library sorts by: Python's string order, numbers
 * before text (the library's mixed-type sort), missing values last, and the
 * lexicographic order on key tuples that grouping uses.
 */
module Ordering {
  import opened Tables

  /** A group key: one cell per grouping column. */
  type Key = seq<Cell>

  /** Python's `<` on strings: code point by code point, a proper prefix first. */
  predicate StrLt(a: string, b: string) {
    if |a| == 0 then |b| > 0
    else if |b| == 0 then false
    else if a[0] != b[0] then a[0] < b[0]
    else StrLt(a[1..], b[1..])
  }

  function Rank(c: Cell): nat {
    match c
    case Num(_) => 0
    case Text(_) => 1
    case Missing => 2
  }

  /** Numbers in numeric order, then text in string order, then missing values. */
  predicate CellLt(a: Cell, b: Cell) {
    if Rank(a) != Rank(b) then Rank(a) < Rank(b)
    else match a
      case Num(x) => x < b.n
      case Text(s) => StrLt(s, b.s)
      case Missing => false
  }

  /** Lexicographic order on key tuples, as the sorted output of a multi-column group-by. */
  predicate KeyLt(a: Key, b: Key) {
    if |a| == 0 then |b| > 0
    else if |b| == 0 then false
    else if a[0] != b[0] then CellLt(a[0], b[0])
    else KeyLt(a[1..], b[1..])
  }

  // ----- StrLt is a strict total order -----

  lemma {:induction false} StrLtIrreflexive(a: string)
    ensures !StrLt(a, a)
  {
    if |a| > 0 { StrLtIrreflexive(a[1..]); }
  }

  lemma {:induction false} StrLtTransitive(a: string, b: string, c: string)
    requires StrLt(a, b) && StrLt(b, c)
    ensures StrLt(a, c)
  {
    if |a| > 0 && |b| > 0 && |c| > 0 && a[0] == b[0] == c[0] {
      StrLtTransitive(a[1..], b[1..], c[1..]);
    }
  }

  lemma {:induction false} StrLtTotal(a: string, b: string)
    ensures a == b || StrLt(a, b) || StrLt(b, a)
  {
    if |a| > 0 && |b| > 0 && a[0] == b[0] {
      StrLtTotal(a[1..], b[1..]);
      if a[1..] == b[1..] {
        assert a == [a[0]] + a[1..] && b == [b[0]] + b[1..];
      }
    }
  }

  // ----- CellLt is a strict total order -----

  lemma CellLtIrreflexive(a: Cell)
    ensures !CellLt(a, a)
  {
    if a.Text? { StrLtIrreflexive(a.s); }
  }

  lemma CellLtTransitive(a: Cell, b: Cell, c: Cell)
    requires CellLt(a, b) && CellLt(b, c)
    ensures CellLt(a, c)
  {
    if a.Text? && b.Text? && c.Text? { StrLtTransitive(a.s, b.s, c.s); }
  }

  lemma CellLtTotal(a: Cell, b: Cell)
    ensures a == b || CellLt(a, b) || CellLt(b, a)
  {
    if a.Text? && b.Text? { StrLtTotal(a.s, b.s); }
  }

  // ----- KeyLt is a strict total order -----

  lemma {:induction false} KeyLtIrreflexive(a: Key)
    ensures !KeyLt(a, a)
  {
    if |a| > 0 { KeyLtIrreflexive(a[1..]); }
  }

  lemma {:induction false} KeyLtTransitive(a: Key, b: Key, c: Key)
    requires KeyLt(a, b) && KeyLt(b, c)
    ensures KeyLt(a, c)
  {
    if |a| > 0 && |b| > 0 && |c| > 0 {
      if a[0] == b[0] == c[0] {
        KeyLtTransitive(a[1..], b[1..], c[1..]);
      } else if a[0] != b[0] && b[0] != c[0] {
        CellLtIrreflexive(a[0]);
        CellLtTransitive(a[0], b[0], c[0]);
      }
    }
  }

  lemma {:induction false} KeyLtTotal(a: Key, b: Key)
    ensures a == b || KeyLt(a, b) || KeyLt(b, a)
  {
    if |a| > 0 && |b| > 0 {
      if a[0] == b[0] {
        KeyLtTotal(a[1..], b[1..]);
        if a[1..] == b[1..] {
          assert a == [a[0]] + a[1..] && b == [b[0]] + b[1..];
        }
      } else {
        CellLtTotal(a[0], b[0]);
      }
    }
  }

  lemma KeyLtAsymmetric(a: Key, b: Key)
    requires KeyLt(a, b)
    ensures !KeyLt(b, a) && a != b
  {
    KeyLtIrreflexive(a);
    if KeyLt(b, a) { KeyLtTransitive(a, b, a); }
  }

  // ----- sorted sets of keys -----

  /** Strictly increasing, hence free of duplicates. */
  predicate StrictlySorted(s: seq<Key>) {
    forall i, j :: 0 <= i < j < |s| ==> KeyLt(s[i], s[j])
  }

  lemma StrictlySortedDistinct(s: seq<Key>)
    requires StrictlySorted(s)
    ensures Distinct(s)
  {
    forall i, j | 0 <= i < j < |s| ensures s[i] != s[j] {
      KeyLtAsymmetric(s[i], s[j]);
    }
  }

  /** Adds x to a list of keys, before the first key it does not follow. */
  function InsertKey(x: Key, s: seq<Key>): (r: seq<Key>)
    ensures forall y :: y in r <==> y in s || y == x
  {
    if s == [] then [x]
    else if x == s[0] then s
    else if KeyLt(x, s[0]) then [x] + s
    else [s[0]] + InsertKey(x, s[1..])
  }

  /** Inserting into a strictly sorted list keeps it strictly sorted. */
  lemma {:induction false} InsertKeySorted(x: Key, s: seq<Key>)
    requires StrictlySorted(s)
    ensures StrictlySorted(InsertKey(x, s))
  {
    if s == [] || x == s[0] {
    } else if KeyLt(x, s[0]) {
      forall j | 0 < j < |s| ensures KeyLt(x, s[j]) { KeyLtTransitive(x, s[0], s[j]); }
      var r := [x] + s;
      forall i, j | 0 <= i < j < |r| ensures KeyLt(r[i], r[j]) {
        if i > 0 { assert r[i] == s[i - 1] && r[j] == s[j - 1]; }
      }
    } else {
      KeyLtTotal(x, s[0]);
      InsertKeySorted(x, s[1..]);
      var rest := InsertKey(x, s[1..]);
      forall y | y in rest ensures KeyLt(s[0], y) {
        if y != x { var k :| 0 <= k < |s[1..]| && s[1..][k] == y; assert y == s[k + 1]; }
      }
      var r := [s[0]] + rest;
      forall i, j | 0 <= i < j < |r| ensures KeyLt(r[i], r[j]) {
        assert r[j] == rest[j - 1] && r[j] in rest;
        if i > 0 { assert r[i] == rest[i - 1]; }
      }
    }
  }

  /** The distinct keys of a list, in increasing order. */
  function SortedDistinct(keys: seq<Key>): (r: seq<Key>)
    ensures forall y :: y in r <==> y in keys
  {
    if keys == [] then []
    else
      assert forall y :: y in keys <==> y in keys[..|keys| - 1] || y == keys[|keys| - 1] by {
        assert keys == keys[..|keys| - 1] + [keys[|keys| - 1]];
      }
      InsertKey(keys[|keys| - 1], SortedDistinct(keys[..|keys| - 1]))
  }

  lemma {:induction false} SortedDistinctSorted(keys: seq<Key>)
    ensures StrictlySorted(SortedDistinct(keys))
  {
    if keys != [] {
      SortedDistinctSorted(keys[..|keys| - 1]);
      InsertKeySorted(keys[|keys| - 1], SortedDistinct(keys[..|keys| - 1]));
    }
  }
}
