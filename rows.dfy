/**
 * Rows of a numeric array whose last column is a binary label, and the counting and
 * sorting facts that the split searches of the decision-tree code rely on.
 */
module Rows {

  /** One row of the array: feature values followed by the label. */
  type Row = seq<real>

  /** A two-dimensional array; `width` is its column count, known even with no rows. */
  datatype Table = Table(rows: seq<Row>, width: nat)

  predicate IsZeroLabel(r: Row) { |r| > 0 && r[|r| - 1] == 0.0 }

  predicate IsOneLabel(r: Row) { |r| > 0 && r[|r| - 1] == 1.0 }

  function Label(r: Row): real
    requires |r| > 0
  {
    r[|r| - 1]
  }

  /** Every label is 0.0 or 1.0. */
  predicate BinaryLabels(rows: seq<Row>)
  {
    forall i :: 0 <= i < |rows| ==> IsZeroLabel(rows[i]) || IsOneLabel(rows[i])
  }

  lemma BinaryLabelsSuffix(s: seq<Row>, k: nat)
    requires BinaryLabels(s) && k <= |s|
    ensures BinaryLabels(s[k..])
  {
    forall i | 0 <= i < |s| - k ensures IsZeroLabel(s[k..][i]) || IsOneLabel(s[k..][i]) {
      assert s[k..][i] == s[k + i];
    }
  }

  /** Every row has `width` entries and a label of 0.0 or 1.0. */
  predicate RowsWellFormed(rows: seq<Row>, width: nat)
  {
    (forall i :: 0 <= i < |rows| ==> |rows[i]| == width) && BinaryLabels(rows)
  }

  /** A rectangular array with a label column holding only 0.0 and 1.0. */
  predicate WellFormed(t: Table)
  {
    t.width >= 1 && RowsWellFormed(t.rows, t.width)
  }

  /** Number of rows satisfying `p`. */
  function CountIf(s: seq<Row>, p: Row -> bool): (c: nat)
    ensures c <= |s|
  {
    if s == [] then 0 else CountIf(s[..|s| - 1], p) + (if p(s[|s| - 1]) then 1 else 0)
  }

  function Count0(s: seq<Row>): nat { CountIf(s, IsZeroLabel) }

  function Count1(s: seq<Row>): nat { CountIf(s, IsOneLabel) }

  /** Rows whose value in `col` is at most `v`. */
  function AtMost(col: nat, v: real): Row -> bool
  {
    r => col < |r| && r[col] <= v
  }

  /** Rows whose value in `col` is below `v`. */
  function Below(col: nat, v: real): Row -> bool
  {
    r => col < |r| && r[col] < v
  }

  /** Label-0 rows whose value in `col` is at most `v`. */
  function AtMostZero(col: nat, v: real): Row -> bool
  {
    r => col < |r| && r[col] <= v && IsZeroLabel(r)
  }

  lemma {:induction false} CountIfExtend(s: seq<Row>, i: nat, p: Row -> bool)
    requires i < |s|
    ensures CountIf(s[..i + 1], p) == CountIf(s[..i], p) + (if p(s[i]) then 1 else 0)
  {
    assert s[..i + 1][..i] == s[..i];
  }

  lemma {:induction false} CountIfAppend(a: seq<Row>, b: seq<Row>, p: Row -> bool)
    ensures CountIf(a + b, p) == CountIf(a, p) + CountIf(b, p)
  {
    if b == [] {
      assert a + b == a;
    } else {
      assert (a + b)[..|a + b| - 1] == a + b[..|b| - 1];
      CountIfAppend(a, b[..|b| - 1], p);
    }
  }

  lemma {:induction false} CountIfSplit(s: seq<Row>, k: nat, p: Row -> bool)
    requires k <= |s|
    ensures CountIf(s, p) == CountIf(s[..k], p) + CountIf(s[k..], p)
  {
    assert s == s[..k] + s[k..];
    CountIfAppend(s[..k], s[k..], p);
  }

  /** Counting depends only on which rows occur and how often, not on their order. */
  lemma {:induction false} CountIfPermutation(s: seq<Row>, t: seq<Row>, p: Row -> bool)
    requires multiset(s) == multiset(t)
    ensures CountIf(s, p) == CountIf(t, p)
    decreases |s|
  {
    if s == [] {
      assert |t| == |multiset(t)| == 0;
    } else {
      var x := s[|s| - 1];
      var s' := s[..|s| - 1];
      assert s == s' + [x];
      assert x in multiset(t);
      var j :| 0 <= j < |t| && t[j] == x;
      var t' := t[..j] + t[j + 1..];
      assert t == t[..j] + [x] + t[j + 1..];
      assert multiset(t') == multiset(t) - multiset{x};
      assert multiset(s') == multiset(s) - multiset{x};
      CountIfPermutation(s', t', p);
      CountIfAppend(t[..j] + [x], t[j + 1..], p);
      CountIfAppend(t[..j], [x], p);
      CountIfAppend(t[..j], t[j + 1..], p);
      assert [x][..0] == [];
    }
  }

  lemma {:induction false} CountIfAll(s: seq<Row>, p: Row -> bool)
    requires forall i :: 0 <= i < |s| ==> p(s[i])
    ensures CountIf(s, p) == |s|
  {
    if s != [] {
      CountIfAll(s[..|s| - 1], p);
    }
  }

  lemma {:induction false} CountIfNone(s: seq<Row>, p: Row -> bool)
    requires forall i :: 0 <= i < |s| ==> !p(s[i])
    ensures CountIf(s, p) == 0
  {
    if s != [] {
      CountIfNone(s[..|s| - 1], p);
    }
  }

  /** Two predicates that agree on every row count the same rows. */
  lemma {:induction false} CountIfAgree(s: seq<Row>, p: Row -> bool, q: Row -> bool)
    requires forall i :: 0 <= i < |s| ==> p(s[i]) == q(s[i])
    ensures CountIf(s, p) == CountIf(s, q)
  {
    if s != [] {
      CountIfAgree(s[..|s| - 1], p, q);
    }
  }

  lemma {:induction false} CountIfMonotone(s: seq<Row>, p: Row -> bool, q: Row -> bool)
    requires forall i :: 0 <= i < |s| ==> p(s[i]) ==> q(s[i])
    ensures CountIf(s, p) <= CountIf(s, q)
  {
    if s != [] {
      CountIfMonotone(s[..|s| - 1], p, q);
    }
  }

  /** With binary labels every row is counted by exactly one of the two label counts. */
  lemma {:induction false} BinaryCounts(s: seq<Row>)
    requires BinaryLabels(s)
    ensures Count0(s) + Count1(s) == |s|
  {
    if s != [] {
      BinaryCounts(s[..|s| - 1]);
    }
  }

  lemma PermutationKeepsWellFormed(s: seq<Row>, t: seq<Row>, width: nat)
    requires multiset(s) == multiset(t) && RowsWellFormed(t, width)
    ensures RowsWellFormed(s, width)
  {
    forall i | 0 <= i < |s|
      ensures |s[i]| == width && (IsZeroLabel(s[i]) || IsOneLabel(s[i]))
    {
      assert s[i] in multiset(t);
      var j :| 0 <= j < |t| && t[j] == s[i];
    }
  }

  /** Every row has an entry in column `col`. */
  predicate HasColumn(s: seq<Row>, col: nat)
  {
    forall i :: 0 <= i < |s| ==> col < |s[i]|
  }

  /** The rows are in non-decreasing order of their value in column `col`. */
  predicate SortedBy(s: seq<Row>, col: nat)
  {
    HasColumn(s, col) && forall a, b :: 0 <= a < b < |s| ==> s[a][col] <= s[b][col]
  }

  /** `s` is the array `rows` reordered by column `col` (what `rows[rows[:, col].argsort()]` gives). */
  predicate IsSortedPermutation(s: seq<Row>, rows: seq<Row>, col: nat)
  {
    SortedBy(s, col) && multiset(s) == multiset(rows)
  }

  function Insert(s: seq<Row>, x: Row, col: nat): (r: seq<Row>)
    requires SortedBy(s, col) && col < |x|
    ensures SortedBy(r, col) && multiset(r) == multiset(s) + multiset{x}
    ensures |r| == |s| + 1 && (r[0] == x || (|s| > 0 && r[0] == s[0]))
  {
    if s == [] then [x]
    else if x[col] <= s[0][col] then [x] + s
    else
      var rest := Insert(s[1..], x, col);
      assert s == [s[0]] + s[1..];
      [s[0]] + rest
  }

  /** One ordering of `rows` by column `col` (numpy's argsort may break ties differently). */
  function SortByColumn(rows: seq<Row>, col: nat): (s: seq<Row>)
    requires HasColumn(rows, col)
    ensures IsSortedPermutation(s, rows, col)
  {
    if rows == [] then []
    else
      assert rows == rows[..|rows| - 1] + [rows[|rows| - 1]];
      Insert(SortByColumn(rows[..|rows| - 1], col), rows[|rows| - 1], col)
  }

  lemma {:induction false} SortedAtMostCount(s: seq<Row>, col: nat, k: nat)
    requires SortedBy(s, col) && k < |s|
    ensures CountIf(s, AtMost(col, s[k][col])) >= k + 1
  {
    var p := AtMost(col, s[k][col]);
    CountIfSplit(s, k + 1, p);
    CountIfAll(s[..k + 1], p);
  }

  lemma {:induction false} SortedBelowCount(s: seq<Row>, col: nat, k: nat)
    requires SortedBy(s, col) && k < |s|
    ensures CountIf(s, Below(col, s[k][col])) <= k
  {
    var p := Below(col, s[k][col]);
    CountIfSplit(s, k, p);
    CountIfNone(s[k..], p);
  }

  /**
   * Two orderings of the same rows by one column agree position by position in that
   * column: however ties are ordered, the column's values come out the same.
   */
  lemma SortedKeysAgree(s1: seq<Row>, s2: seq<Row>, col: nat)
    requires SortedBy(s1, col) && SortedBy(s2, col) && multiset(s1) == multiset(s2)
    ensures |s1| == |s2|
    ensures forall k :: 0 <= k < |s1| ==> s1[k][col] == s2[k][col]
  {
    assert |s1| == |multiset(s1)| == |multiset(s2)| == |s2|;
    forall k | 0 <= k < |s1| ensures s1[k][col] == s2[k][col] {
      KeyAt(s1, s2, col, k);
      KeyAt(s2, s1, col, k);
    }
  }

  lemma KeyAt(s1: seq<Row>, s2: seq<Row>, col: nat, k: nat)
    requires SortedBy(s1, col) && SortedBy(s2, col) && multiset(s1) == multiset(s2)
    requires k < |s1| && k < |s2|
    ensures s1[k][col] >= s2[k][col]
  {
    var u, w := s1[k][col], s2[k][col];
    if u < w {
      SortedAtMostCount(s1, col, k);
      SortedBelowCount(s2, col, k);
      CountIfMonotone(s2, AtMost(col, u), Below(col, w));
      CountIfPermutation(s1, s2, AtMost(col, u));
    }
  }

  /** The two sides of a threshold `v` on column `col`: `<= v` goes left, `> v` goes right. */
  datatype Side = Left | Right

  predicate OnSide(r: Row, col: nat, v: real, side: Side)
  {
    col < |r| && (if side == Left then r[col] <= v else r[col] > v)
  }

  /** The rows on `side` of the threshold, in their original order (numpy boolean-mask indexing). */
  function Filter(s: seq<Row>, col: nat, v: real, side: Side): (r: seq<Row>)
    ensures |r| <= |s|
  {
    if s == [] then []
    else Filter(s[..|s| - 1], col, v, side) + (if OnSide(s[|s| - 1], col, v, side) then [s[|s| - 1]] else [])
  }

  lemma {:induction false} FilterAppend(a: seq<Row>, b: seq<Row>, col: nat, v: real, side: Side)
    ensures Filter(a + b, col, v, side) == Filter(a, col, v, side) + Filter(b, col, v, side)
  {
    if b == [] {
      assert a + b == a;
    } else {
      assert (a + b)[..|a + b| - 1] == a + b[..|b| - 1];
      FilterAppend(a, b[..|b| - 1], col, v, side);
    }
  }

  /** Splitting on `<= v` and `> v` sends every row to exactly one side. */
  lemma {:induction false} FilterPartition(s: seq<Row>, col: nat, v: real)
    requires HasColumn(s, col)
    ensures multiset(Filter(s, col, v, Left)) + multiset(Filter(s, col, v, Right)) == multiset(s)
    ensures |Filter(s, col, v, Left)| + |Filter(s, col, v, Right)| == |s|
  {
    if s != [] {
      FilterPartition(s[..|s| - 1], col, v);
      assert s == s[..|s| - 1] + [s[|s| - 1]];
    }
  }

  /** A row occurs in the filtered rows as often as in `s` if it lies on `side`, and not at all otherwise. */
  lemma {:induction false} FilterMultiplicity(s: seq<Row>, col: nat, v: real, side: Side, x: Row)
    ensures multiset(Filter(s, col, v, side))[x] == if OnSide(x, col, v, side) then multiset(s)[x] else 0
  {
    if s != [] {
      FilterMultiplicity(s[..|s| - 1], col, v, side, x);
      assert s == s[..|s| - 1] + [s[|s| - 1]];
    }
  }

  /** Filtering commutes with reordering: it depends only on which rows occur. */
  lemma FilterPermutation(s: seq<Row>, t: seq<Row>, col: nat, v: real, side: Side)
    requires multiset(s) == multiset(t)
    ensures multiset(Filter(s, col, v, side)) == multiset(Filter(t, col, v, side))
  {
    forall x
      ensures multiset(Filter(s, col, v, side))[x] == multiset(Filter(t, col, v, side))[x]
    {
      FilterMultiplicity(s, col, v, side, x);
      FilterMultiplicity(t, col, v, side, x);
    }
  }

  lemma {:induction false} FilterAll(s: seq<Row>, col: nat, v: real, side: Side)
    requires forall i :: 0 <= i < |s| ==> OnSide(s[i], col, v, side)
    ensures Filter(s, col, v, side) == s
  {
    if s != [] {
      FilterAll(s[..|s| - 1], col, v, side);
      assert s == s[..|s| - 1] + [s[|s| - 1]];
    }
  }

  lemma {:induction false} FilterNone(s: seq<Row>, col: nat, v: real, side: Side)
    requires forall i :: 0 <= i < |s| ==> !OnSide(s[i], col, v, side)
    ensures Filter(s, col, v, side) == []
  {
    if s != [] {
      FilterNone(s[..|s| - 1], col, v, side);
    }
  }

  /** Two thresholds that put every row of `s` on the same side select the same rows. */
  lemma {:induction false} FilterAgree(s: seq<Row>, col: nat, v: real, w: real, side: Side)
    requires forall i :: 0 <= i < |s| ==> (OnSide(s[i], col, v, side) <==> OnSide(s[i], col, w, side))
    ensures Filter(s, col, v, side) == Filter(s, col, w, side)
  {
    if s != [] {
      FilterAgree(s[..|s| - 1], col, v, w, side);
    }
  }

  lemma {:induction false} FilterWellFormed(s: seq<Row>, col: nat, v: real, side: Side, width: nat)
    requires RowsWellFormed(s, width)
    ensures RowsWellFormed(Filter(s, col, v, side), width)
  {
    if s != [] {
      FilterWellFormed(s[..|s| - 1], col, v, side, width);
    }
  }
}
