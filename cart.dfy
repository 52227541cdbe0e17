/**
 * Greedy Gini split search of the decision-tree classifier (tree-based/cart.py).
 *
 * A column is scanned in sorted order; every boundary between two distinct
 * consecutive values is a candidate split, scored by the weighted Gini cost of the
 * two sides. Feature values and costs are exact reals.
 */
module Cart {
  import opened Wrappers
  import opened Rows

  /** Initial best cost of a column scan (`1e6`); a column with no better boundary keeps it. */
  const Sentinel: real := 1000000.0

  /** `gini_idx(n_0, n_tot)`: 2p(1 - p) with p = n_0 / n_tot. */
  function Gini(n0: nat, n: nat): real
    requires 0 < n
  {
    var p := n0 as real / n as real;
    2.0 * p * (1.0 - p)
  }

  /** The Gini index lies in [0, 1/2], vanishes exactly on pure nodes and peaks at balance. */
  lemma GiniRange(n0: nat, n: nat)
    requires 0 < n && n0 <= n
    ensures 0.0 <= Gini(n0, n) <= 0.5
    ensures Gini(n0, n) == 0.0 <==> (n0 == 0 || n0 == n)
    ensures Gini(n0, n) == 0.5 <==> 2 * n0 == n
    ensures Gini(n0, n) == Gini(n - n0, n)
  {
    GiniBounds(n0, n);
    GiniSymmetric(n0, n);
  }

  lemma GiniBounds(n0: nat, n: nat)
    requires 0 < n && n0 <= n
    ensures 0.0 <= Gini(n0, n) <= 0.5
    ensures Gini(n0, n) == 0.0 <==> (n0 == 0 || n0 == n)
    ensures Gini(n0, n) == 0.5 <==> 2 * n0 == n
  {
    var N := n as real;
    var p := n0 as real / N;
    Ratio(n0 as real, N);
    var g := Gini(n0, n);
    assert g == 2.0 * p * (1.0 - p);
    assert 0.0 <= g by {
      if 0.0 < p < 1.0 { MulPositive(p, 1.0 - p); }
    }
    var d := p - 0.5;
    assert 0.5 - g == 2.0 * d * d;
    assert 0.0 <= d * d by {
      if d < 0.0 { MulPositive(-d, -d); }
      if d > 0.0 { MulPositive(d, d); }
    }
    if g == 0.0 {
      MulZero(p, 1.0 - p);
    }
    if g == 0.5 {
      MulZero(d, d);
    }
  }

  lemma GiniSymmetric(n0: nat, n: nat)
    requires 0 < n && n0 <= n
    ensures Gini(n0, n) == Gini(n - n0, n)
  {
    var N := n as real;
    var p := n0 as real / N;
    Ratio(n0 as real, N);
    var q := (n - n0) as real / N;
    assert q * N == (n - n0) as real;
    assert (q - (1.0 - p)) * N == q * N - N + p * N;
    MulZero(q - (1.0 - p), N);
  }

  lemma Ratio(a: real, b: real)
    requires 0.0 <= a <= b && 0.0 < b
    ensures 0.0 <= a / b <= 1.0 && (a / b) * b == a
  {
    var p := a / b;
    if p < 0.0 { MulPositive(-p, b); }
    if p > 1.0 { MulPositive(p - 1.0, b); }
  }

  lemma MulPositive(a: real, b: real)
    requires 0.0 < a && 0.0 < b
    ensures 0.0 < a * b
  {
  }

  lemma MulZero(a: real, b: real)
    requires a * b == 0.0
    ensures a == 0.0 || b == 0.0
  {
    if a > 0.0 && b > 0.0 { MulPositive(a, b); }
    if a < 0.0 && b < 0.0 { MulPositive(-a, -b); }
    if a > 0.0 && b < 0.0 { MulPositive(a, -b); }
    if a < 0.0 && b > 0.0 { MulPositive(-a, b); }
  }

  /** Weighted Gini cost `len(rows) * gini_idx(n_0, len(rows))` of one non-empty side of a split. */
  function Impurity(rows: seq<Row>): real
    requires |rows| > 0
  {
    |rows| as real * Gini(Count0(rows), |rows|)
  }

  lemma ImpurityRange(rows: seq<Row>)
    requires |rows| > 0
    ensures 0.0 <= Impurity(rows) <= |rows| as real / 2.0
  {
    var n, g := |rows| as real, Gini(Count0(rows), |rows|);
    GiniRange(Count0(rows), |rows|);
    assert 0.0 <= n * g by {
      if g > 0.0 { MulPositive(n, g); }
    }
    assert 0.0 <= n * (0.5 - g) by {
      if g < 0.5 { MulPositive(n, 0.5 - g); }
    }
  }

  /** Midpoint threshold `(XX + X[i + 1]) / 2`. */
  function Midpoint(a: real, b: real): real { (a + b) / 2.0 }

  /** Position `i` of a sorted column ends a run of equal values and is followed by another row. */
  predicate IsBoundary(s: seq<Row>, col: nat, i: int)
    requires HasColumn(s, col)
  {
    0 <= i < |s| - 1 && s[i][col] != s[i + 1][col]
  }

  /** Cost of splitting the sorted rows after position `i`: left part `s[..i+1]`, right part the rest. */
  function Cost(s: seq<Row>, i: nat): real
    requires i < |s| - 1
  {
    Impurity(s[..i + 1]) + Impurity(s[i + 1..])
  }

  /** No boundary before position `k` costs less than the sentinel. */
  ghost predicate NoCandidateUpTo(s: seq<Row>, col: nat, k: int)
    requires HasColumn(s, col)
  {
    forall j :: 0 <= j < k && IsBoundary(s, col, j) ==> Cost(s, j) >= Sentinel
  }

  /**
   * Among the boundaries before position `k`, `i` has minimal cost, no earlier one has
   * that cost, and it beats the sentinel: what `if cc < min_cc` keeps.
   */
  ghost predicate FirstMinimalUpTo(s: seq<Row>, col: nat, k: int, i: int)
    requires HasColumn(s, col)
  {
    0 <= i < k && IsBoundary(s, col, i) && Cost(s, i) < Sentinel &&
    (forall j :: 0 <= j < k && IsBoundary(s, col, j) ==> Cost(s, i) <= Cost(s, j)) &&
    (forall j :: 0 <= j < i && IsBoundary(s, col, j) ==> Cost(s, i) < Cost(s, j))
  }

  /** The `(min_split, min_cc)` that one pass over the sorted rows `s` leaves behind. */
  ghost predicate ColumnResult(s: seq<Row>, col: nat, split: Option<real>, cost: real)
    requires HasColumn(s, col)
  {
    match split
    case None => cost == Sentinel && NoCandidateUpTo(s, col, |s|)
    case Some(t) =>
      exists i :: FirstMinimalUpTo(s, col, |s|, i) &&
        t == Midpoint(s[i][col], s[i + 1][col]) && cost == Cost(s, i)
  }

  /** The boundary whose midpoint a pass returned. */
  lemma ChosenBoundary(s: seq<Row>, col: nat, v: real, cost: real) returns (i: nat)
    requires HasColumn(s, col) && ColumnResult(s, col, Some(v), cost)
    ensures FirstMinimalUpTo(s, col, |s|, i) && IsBoundary(s, col, i)
    ensures v == Midpoint(s[i][col], s[i + 1][col]) && cost == Cost(s, i)
  {
    i :| FirstMinimalUpTo(s, col, |s|, i) && v == Midpoint(s[i][col], s[i + 1][col]) && cost == Cost(s, i);
  }

  /**
   * One column of `get_best_splitter`: the pass over the rows sorted by `col`, with the
   * running label counts of both sides.
   */
  method ScanColumn(s: seq<Row>, col: nat, tot0: nat, tot1: nat) returns (split: Option<real>, cost: real)
    requires SortedBy(s, col) && BinaryLabels(s)
    requires tot0 == Count0(s) && tot1 == Count1(s)
    ensures ColumnResult(s, col, split, cost)
  {
    var n := |s|;
    BinaryCounts(s);
    var n0l, n1l := 0, 0;
    var n0r, n1r := tot0, tot1;
    split, cost := None, Sentinel;
    ghost var best := 0;
    var i := 0;
    while i < n
      invariant 0 <= i <= n
      invariant n0l == Count0(s[..i]) && n1l == Count1(s[..i]) && n0l + n1l == i
      invariant n0l + n0r == tot0 && n1l + n1r == tot1
      invariant Tracking(s, col, i, split, cost, best)
    {
      var xx, yy := s[i][col], Label(s[i]);
      CountStep(s, i);
      if yy == 1.0 {
        n1l, n1r := n1l + 1, n1r - 1;
      } else if yy == 0.0 {
        n0l, n0r := n0l + 1, n0r - 1;
      }
      assert n0l == Count0(s[..i + 1]) && n1l == Count1(s[..i + 1]);
      assert n0l + n1l == i + 1 && n0r + n1r == n - i - 1;
      if i == n - 1 || xx != s[i + 1][col] {
        // With i == n - 1 the right side is empty: gini_idx divides 0 by 0, numpy
        // yields NaN and `NaN < min_cc` is false, so that boundary is never kept.
        if n0r + n1r > 0 {
          var cc := (n0l + n1l) as real * Gini(n0l, n0l + n1l)
                  + (n0r + n1r) as real * Gini(n0r, n0r + n1r);
          CostFromCounts(s, i, n0l, n1l, n0r, n1r);
          if cc < cost {
            TrackTake(s, col, i, split, cost, best);
            cost := cc;
            split := Some(Midpoint(xx, s[i + 1][col]));
            best := i;
          } else {
            TrackKeep(s, col, i, split, cost, best);
          }
        } else {
          TrackKeep(s, col, i, split, cost, best);
        }
      } else {
        TrackKeep(s, col, i, split, cost, best);
      }
      i := i + 1;
    }
    TrackDone(s, col, split, cost, best);
  }

  /**
   * Loop state of a column scan after the first `k` rows: `cost` is at most the cost of
   * every boundary seen, and `split` records the first boundary attaining it, if it beat
   * the sentinel.
   */
  ghost predicate Tracking(s: seq<Row>, col: nat, k: int, split: Option<real>, cost: real, best: int)
    requires HasColumn(s, col)
  {
    cost <= Sentinel &&
    (forall j :: 0 <= j < k && IsBoundary(s, col, j) ==> cost <= Cost(s, j)) &&
    (split.None? ==> cost == Sentinel) &&
    (split.Some? ==>
      0 <= best < k && IsBoundary(s, col, best) && cost == Cost(s, best) && cost < Sentinel &&
      split.value == Midpoint(s[best][col], s[best + 1][col]) &&
      forall j :: 0 <= j < best && IsBoundary(s, col, j) ==> cost < Cost(s, j))
  }

  lemma TrackKeep(s: seq<Row>, col: nat, i: nat, split: Option<real>, cost: real, best: int)
    requires HasColumn(s, col) && i < |s| && Tracking(s, col, i, split, cost, best)
    requires IsBoundary(s, col, i) ==> cost <= Cost(s, i)
    ensures Tracking(s, col, i + 1, split, cost, best)
  {
  }

  lemma TrackTake(s: seq<Row>, col: nat, i: nat, split: Option<real>, cost: real, best: int)
    requires HasColumn(s, col) && Tracking(s, col, i, split, cost, best)
    requires IsBoundary(s, col, i) && Cost(s, i) < cost
    ensures Tracking(s, col, i + 1, Some(Midpoint(s[i][col], s[i + 1][col])), Cost(s, i), i)
  {
  }

  lemma TrackDone(s: seq<Row>, col: nat, split: Option<real>, cost: real, best: int)
    requires HasColumn(s, col) && Tracking(s, col, |s|, split, cost, best)
    ensures ColumnResult(s, col, split, cost)
  {
    if split.Some? {
      assert FirstMinimalUpTo(s, col, |s|, best);
    }
  }

  /** The cost of a boundary from the running label counts of its two sides (cart.py:57-58). */
  lemma CostFromCounts(s: seq<Row>, i: nat, n0l: nat, n1l: nat, n0r: nat, n1r: nat)
    requires i < |s| - 1
    requires n0l == Count0(s[..i + 1]) && n0l + n1l == i + 1
    requires n0r == Count0(s[i + 1..]) && n0r + n1r == |s| - i - 1
    ensures Cost(s, i) == (n0l + n1l) as real * Gini(n0l, n0l + n1l) + (n0r + n1r) as real * Gini(n0r, n0r + n1r)
  {
  }

  /** Counting row `i` into the left side: the prefix counts grow by its label, the rest shrink. */
  lemma CountStep(s: seq<Row>, i: nat)
    requires BinaryLabels(s) && i < |s|
    ensures Count0(s[..i + 1]) == Count0(s[..i]) + (if Label(s[i]) == 0.0 then 1 else 0)
    ensures Count1(s[..i + 1]) == Count1(s[..i]) + (if Label(s[i]) == 1.0 then 1 else 0)
    ensures Count0(s) == Count0(s[..i + 1]) + Count0(s[i + 1..])
    ensures Count1(s) == Count1(s[..i + 1]) + Count1(s[i + 1..])
    ensures Count0(s[i + 1..]) + Count1(s[i + 1..]) == |s| - i - 1
  {
    CountIfExtend(s, i, IsZeroLabel);
    CountIfExtend(s, i, IsOneLabel);
    CountIfSplit(s, i + 1, IsZeroLabel);
    CountIfSplit(s, i + 1, IsOneLabel);
    BinaryLabelsSuffix(s, i + 1);
    BinaryCounts(s[i + 1..]);
  }

  /** A column scan has one outcome: the first boundary of minimal cost is unique. */
  lemma ColumnResultUnique(s: seq<Row>, col: nat, split1: Option<real>, cost1: real, split2: Option<real>, cost2: real)
    requires HasColumn(s, col)
    requires ColumnResult(s, col, split1, cost1) && ColumnResult(s, col, split2, cost2)
    ensures split1 == split2 && cost1 == cost2
  {
    if split1.Some? && split2.Some? {
      var i1 :| FirstMinimalUpTo(s, col, |s|, i1) && split1.value == Midpoint(s[i1][col], s[i1 + 1][col]) && cost1 == Cost(s, i1);
      var i2 :| FirstMinimalUpTo(s, col, |s|, i2) && split2.value == Midpoint(s[i2][col], s[i2 + 1][col]) && cost2 == Cost(s, i2);
      assert i1 == i2;
    }
  }

  /** For sorted rows, the left part of boundary `i` holds exactly the label-0 rows with value at most `s[i][col]`. */
  lemma PrefixZeroCount(s: seq<Row>, col: nat, i: nat)
    requires SortedBy(s, col) && IsBoundary(s, col, i)
    ensures Count0(s[..i + 1]) == CountIf(s, AtMostZero(col, s[i][col]))
  {
    var p := AtMostZero(col, s[i][col]);
    CountIfSplit(s, i + 1, p);
    CountIfAgree(s[..i + 1], p, IsZeroLabel);
    assert forall k :: i + 1 <= k < |s| ==> s[k][col] >= s[i + 1][col] > s[i][col];
    CountIfNone(s[i + 1..], p);
  }

  /** Two orderings of the same rows by one column give every boundary the same cost. */
  lemma CostAgree(s1: seq<Row>, s2: seq<Row>, col: nat, i: nat)
    requires SortedBy(s1, col) && SortedBy(s2, col) && multiset(s1) == multiset(s2)
    requires IsBoundary(s1, col, i)
    ensures |s1| == |s2| && IsBoundary(s2, col, i) && Cost(s1, i) == Cost(s2, i)
  {
    SortedKeysAgree(s1, s2, col);
    assert IsBoundary(s2, col, i);
    var v := s1[i][col];
    PrefixZeroCount(s1, col, i);
    PrefixZeroCount(s2, col, i);
    CountIfPermutation(s1, s2, AtMostZero(col, v));
    var c := Count0(s1[..i + 1]);
    assert c == Count0(s2[..i + 1]);
    CountIfPermutation(s1, s2, IsZeroLabel);
    CountIfSplit(s1, i + 1, IsZeroLabel);
    CountIfSplit(s2, i + 1, IsZeroLabel);
    SameCountsSameCost(s1, s2, i);
  }

  lemma SameCountsSameCost(s1: seq<Row>, s2: seq<Row>, i: nat)
    requires i < |s1| - 1 && |s1| == |s2|
    requires Count0(s1[..i + 1]) == Count0(s2[..i + 1]) && Count0(s1[i + 1..]) == Count0(s2[i + 1..])
    ensures Cost(s1, i) == Cost(s2, i)
  {
  }

  /** Two orderings of the same rows by `col` have the same boundaries, at the same costs. */
  lemma BoundariesAgree(s1: seq<Row>, s2: seq<Row>, col: nat)
    requires SortedBy(s1, col) && SortedBy(s2, col) && multiset(s1) == multiset(s2)
    ensures |s1| == |s2|
    ensures forall j :: IsBoundary(s1, col, j) <==> IsBoundary(s2, col, j)
    ensures forall j :: IsBoundary(s1, col, j) ==> Cost(s1, j) == Cost(s2, j)
  {
    SortedKeysAgree(s1, s2, col);
    forall j | IsBoundary(s1, col, j)
      ensures Cost(s1, j) == Cost(s2, j)
    {
      CostAgree(s1, s2, col, j);
    }
  }

  /** The scan's outcome carries over from one ordering of the rows to any other. */
  lemma ColumnResultTransfer(s1: seq<Row>, s2: seq<Row>, col: nat, split: Option<real>, cost: real)
    requires SortedBy(s1, col) && SortedBy(s2, col) && multiset(s1) == multiset(s2)
    requires ColumnResult(s1, col, split, cost)
    ensures ColumnResult(s2, col, split, cost)
  {
    BoundariesAgree(s1, s2, col);
    SortedKeysAgree(s1, s2, col);
    if split.Some? {
      var i :| FirstMinimalUpTo(s1, col, |s1|, i) &&
        split.value == Midpoint(s1[i][col], s1[i + 1][col]) && cost == Cost(s1, i);
      assert FirstMinimalUpTo(s2, col, |s2|, i);
    }
  }

  /**
   * What one column of `get_best_splitter` yields (cart.py:39-64), stated for every
   * ordering `argsort` may give to rows with equal values in the column.
   */
  ghost predicate ColumnOutcome(rows: seq<Row>, col: nat, split: Option<real>, cost: real)
  {
    forall s :: IsSortedPermutation(s, rows, col) ==> ColumnResult(s, col, split, cost)
  }

  /** argsort is not stable, but the order of ties does not change a column's result. */
  lemma TieOrderIrrelevant(rows: seq<Row>, s: seq<Row>, col: nat, split: Option<real>, cost: real)
    requires IsSortedPermutation(s, rows, col) && ColumnResult(s, col, split, cost)
    ensures ColumnOutcome(rows, col, split, cost)
    ensures forall split', cost' :: ColumnOutcome(rows, col, split', cost') ==> split' == split && cost' == cost
  {
    forall s2 | IsSortedPermutation(s2, rows, col) ensures ColumnResult(s2, col, split, cost) {
      ColumnResultTransfer(s, s2, col, split, cost);
    }
    forall split', cost' | ColumnOutcome(rows, col, split', cost') ensures split' == split && cost' == cost {
      ColumnResultUnique(s, col, split, cost, split', cost');
    }
  }

  /** Every candidate boundary costs at most half the row count (each side's Gini is at most 1/2). */
  lemma CostBound(s: seq<Row>, i: nat)
    requires i < |s| - 1
    ensures 0.0 <= Cost(s, i) <= |s| as real / 2.0
  {
    ImpurityRange(s[..i + 1]);
    ImpurityRange(s[i + 1..]);
  }

  lemma {:induction false} SortedNoBoundary(s: seq<Row>, col: nat, k: nat)
    requires SortedBy(s, col) && k < |s|
    requires forall j :: 0 <= j < k ==> !IsBoundary(s, col, j)
    ensures s[k][col] == s[0][col]
  {
    if k > 0 {
      SortedNoBoundary(s, col, k - 1);
      assert !IsBoundary(s, col, k - 1);
    }
  }

  /** A column whose values are all equal yields `(None, col, 1e6)`: there is no boundary (cart.py:52-63). */
  lemma ConstantColumnNoSplit(rows: seq<Row>, col: nat, split: Option<real>, cost: real)
    requires HasColumn(rows, col) && ColumnOutcome(rows, col, split, cost)
    requires forall a, b :: 0 <= a < |rows| && 0 <= b < |rows| ==> rows[a][col] == rows[b][col]
    ensures split == None && cost == Sentinel
  {
    var s := SortByColumn(rows, col);
    assert ColumnResult(s, col, split, cost);
    forall j | 0 <= j < |s| - 1 ensures !IsBoundary(s, col, j) {
      assert s[j] in multiset(rows) && s[j + 1] in multiset(rows);
      var a :| 0 <= a < |rows| && rows[a] == s[j];
      var b :| 0 <= b < |rows| && rows[b] == s[j + 1];
    }
  }

  /**
   * A column with two distinct values and fewer than two million rows yields a threshold:
   * any boundary costs at most half the row count, below the sentinel (cart.py:52-63).
   */
  lemma VaryingColumnSplits(rows: seq<Row>, col: nat, split: Option<real>, cost: real)
    requires HasColumn(rows, col) && ColumnOutcome(rows, col, split, cost)
    requires |rows| < 2000000 && exists a, b :: 0 <= a < |rows| && 0 <= b < |rows| && rows[a][col] != rows[b][col]
    ensures split.Some?
  {
    var s := SortByColumn(rows, col);
    assert ColumnResult(s, col, split, cost);
    var a, b :| 0 <= a < |rows| && 0 <= b < |rows| && rows[a][col] != rows[b][col];
    assert rows[a] in multiset(s) && rows[b] in multiset(s);
    var x :| 0 <= x < |s| && s[x] == rows[a];
    var y :| 0 <= y < |s| && s[y] == rows[b];
    if forall j :: 0 <= j < |s| - 1 ==> !IsBoundary(s, col, j) {
      SortedNoBoundary(s, col, x);
      SortedNoBoundary(s, col, y);
      assert false;
    }
    var j :| 0 <= j < |s| - 1 && IsBoundary(s, col, j);
    CostBound(s, j);
    assert |s| == |multiset(rows)| == |rows|;
  }

  /**
   * The midpoint threshold lies strictly between the two values of its boundary, so
   * `<= split` selects exactly the sorted rows up to the boundary (cart.py:61, 92).
   */
  lemma MidpointSeparates(s: seq<Row>, col: nat, i: nat)
    requires SortedBy(s, col) && IsBoundary(s, col, i)
    ensures s[i][col] < Midpoint(s[i][col], s[i + 1][col]) < s[i + 1][col]
    ensures forall k :: 0 <= k < |s| ==> (s[k][col] <= Midpoint(s[i][col], s[i + 1][col]) <==> k <= i)
    ensures Filter(s, col, Midpoint(s[i][col], s[i + 1][col]), Left) == s[..i + 1]
    ensures Filter(s, col, Midpoint(s[i][col], s[i + 1][col]), Right) == s[i + 1..]
  {
    var t := Midpoint(s[i][col], s[i + 1][col]);
    assert forall k :: 0 <= k <= i ==> s[k][col] <= s[i][col];
    assert forall k :: i + 1 <= k < |s| ==> s[i + 1][col] <= s[k][col];
    FilterAtSplit(s, i + 1, col, t);
  }

  /** Filtering a sequence whose first `m` rows lie left of the threshold and whose rest lie right of it. */
  lemma FilterAtSplit(s: seq<Row>, m: nat, col: nat, v: real)
    requires m <= |s|
    requires forall k :: 0 <= k < m ==> OnSide(s[k], col, v, Left)
    requires forall k :: m <= k < |s| ==> OnSide(s[k], col, v, Right)
    ensures Filter(s, col, v, Left) == s[..m] && Filter(s, col, v, Right) == s[m..]
  {
    var left, right := s[..m], s[m..];
    assert s == left + right;
    FilterAppend(left, right, col, v, Left);
    FilterAppend(left, right, col, v, Right);
    assert forall k :: 0 <= k < |left| ==> OnSide(left[k], col, v, Left);
    assert forall k :: 0 <= k < |right| ==> OnSide(right[k], col, v, Right) by {
      forall k | 0 <= k < |right| ensures OnSide(right[k], col, v, Right) {
        assert right[k] == s[m + k];
      }
    }
    FilterAll(left, col, v, Left);
    FilterNone(right, col, v, Left);
    FilterNone(left, col, v, Right);
    FilterAll(right, col, v, Right);
  }

  /** `Splitter(split_value, column_index, cost_complexity)`; `None` is the missing threshold. */
  datatype Splitter = Splitter(splitValue: Option<real>, columnIndex: nat, costComplexity: real)

  /** `sorted(...)[0]` on an empty list raises IndexError: every feature column was ignored. */
  datatype SplitError = AllColumnsIgnored

  /** A feature column (not the label) that `ignore_cols` does not exclude. */
  predicate Eligible(t: Table, ignore: seq<nat>, c: nat)
  {
    c < t.width - 1 && c !in ignore
  }

  /**
   * `sp` is what `get_best_splitter` returns: an eligible column's own outcome, of minimal
   * cost among the eligible columns, ties going to the lowest column index.
   */
  ghost predicate IsBestSplitter(t: Table, ignore: seq<nat>, sp: Splitter)
  {
    Eligible(t, ignore, sp.columnIndex) &&
    ColumnOutcome(t.rows, sp.columnIndex, sp.splitValue, sp.costComplexity) &&
    forall c: nat, split, cost :: Eligible(t, ignore, c) && ColumnOutcome(t.rows, c, split, cost) ==>
      sp.costComplexity <= cost && (c < sp.columnIndex ==> sp.costComplexity < cost)
  }

  /**
   * Position of the first candidate of least cost: element 0 of the candidates after
   * Python's stable `sorted` by cost.
   */
  function FirstMinCost(cands: seq<Splitter>): (k: nat)
    requires |cands| > 0
    ensures k < |cands|
    ensures forall j :: 0 <= j < |cands| ==> cands[k].costComplexity <= cands[j].costComplexity
    ensures forall j :: 0 <= j < k ==> cands[k].costComplexity < cands[j].costComplexity
  {
    if |cands| == 1 then 0
    else
      var k := FirstMinCost(cands[..|cands| - 1]);
      if cands[|cands| - 1].costComplexity < cands[k].costComplexity then |cands| - 1 else k
  }

  /** The outcome recorded for column `sp.columnIndex` is the only one that column has. */
  ghost predicate Determined(rows: seq<Row>, sp: Splitter)
  {
    ColumnOutcome(rows, sp.columnIndex, sp.splitValue, sp.costComplexity) &&
    forall split, cost :: ColumnOutcome(rows, sp.columnIndex, split, cost) ==>
      split == sp.splitValue && cost == sp.costComplexity
  }

  /**
   * `best` holds one splitter per eligible column below `col`, in column order, each with
   * that column's only outcome: the `best_splitters` list after the first `col` columns.
   */
  ghost predicate Candidates(t: Table, ignore: seq<nat>, best: seq<Splitter>, col: nat)
  {
    (forall k :: 0 <= k < |best| ==>
      Eligible(t, ignore, best[k].columnIndex) && best[k].columnIndex < col && Determined(t.rows, best[k])) &&
    (forall k, k' :: 0 <= k < k' < |best| ==> best[k].columnIndex < best[k'].columnIndex) &&
    (forall c :: 0 <= c < col && c !in ignore ==> exists k :: 0 <= k < |best| && best[k].columnIndex == c)
  }

  /** Appending the outcome of eligible column `col` extends the candidates by one column. */
  lemma CandidatesExtend(t: Table, ignore: seq<nat>, best: seq<Splitter>, col: nat, split: Option<real>, cost: real)
    requires Candidates(t, ignore, best, col) && Eligible(t, ignore, col)
    requires Determined(t.rows, Splitter(split, col, cost))
    ensures Candidates(t, ignore, best + [Splitter(split, col, cost)], col + 1)
  {
    var best' := best + [Splitter(split, col, cost)];
    forall c | 0 <= c < col + 1 && c !in ignore
      ensures exists k :: 0 <= k < |best'| && best'[k].columnIndex == c
    {
      if c == col {
        assert best'[|best'| - 1].columnIndex == c;
      } else {
        var k :| 0 <= k < |best| && best[k].columnIndex == c;
        assert best'[k].columnIndex == c;
      }
    }
  }

  /** Once every column is seen, the first candidate of least cost is the best splitter. */
  lemma CandidatesBest(t: Table, ignore: seq<nat>, best: seq<Splitter>, k: nat)
    requires t.width >= 1 && Candidates(t, ignore, best, t.width - 1) && |best| > 0 && k == FirstMinCost(best)
    ensures IsBestSplitter(t, ignore, best[k])
  {
    var b := best[k];
    assert Determined(t.rows, b) && Eligible(t, ignore, b.columnIndex);
    forall c: nat, split, cost | Eligible(t, ignore, c) && ColumnOutcome(t.rows, c, split, cost)
      ensures b.costComplexity <= cost && (c < b.columnIndex ==> b.costComplexity < cost)
    {
      NoCheaperColumn(t, ignore, best, k, c, split, cost);
    }
  }

  /** An eligible column's outcome is a candidate, so it costs no less than the first least-cost one. */
  lemma NoCheaperColumn(t: Table, ignore: seq<nat>, best: seq<Splitter>, k: nat, c: nat, split: Option<real>, cost: real)
    requires t.width >= 1 && Candidates(t, ignore, best, t.width - 1) && |best| > 0 && k == FirstMinCost(best)
    requires Eligible(t, ignore, c) && ColumnOutcome(t.rows, c, split, cost)
    ensures best[k].costComplexity <= cost && (c < best[k].columnIndex ==> best[k].costComplexity < cost)
  {
    var j :| 0 <= j < |best| && best[j].columnIndex == c;
    assert Determined(t.rows, best[j]);
    assert cost == best[j].costComplexity;
    if c < best[k].columnIndex {
      assert j < k;
    }
  }

  /** `get_best_splitter(arr, ignore_cols)`: `ignore` holds the ignored columns (`None` is empty). */
  method GetBestSplitter(t: Table, ignore: seq<nat>) returns (r: Result<Splitter, SplitError>)
    requires WellFormed(t)
    ensures r.Err? <==> forall c :: 0 <= c < t.width - 1 ==> c in ignore
    ensures r.Ok? ==> IsBestSplitter(t, ignore, r.value)
  {
    var tot0, tot1 := Count0(t.rows), Count1(t.rows);
    var best: seq<Splitter> := [];
    var col := 0;
    while col < t.width - 1
      invariant 0 <= col <= t.width - 1
      invariant Candidates(t, ignore, best, col)
    {
      if col !in ignore {
        var s := SortByColumn(t.rows, col);
        PermutationKeepsWellFormed(s, t.rows, t.width);
        CountIfPermutation(s, t.rows, IsZeroLabel);
        CountIfPermutation(s, t.rows, IsOneLabel);
        var split, cost := ScanColumn(s, col, tot0, tot1);
        TieOrderIrrelevant(t.rows, s, col, split, cost);
        CandidatesExtend(t, ignore, best, col, split, cost);
        best := best + [Splitter(split, col, cost)];
      }
      col := col + 1;
    }
    if |best| == 0 {
      r := Err(AllColumnsIgnored);
    } else {
      var k := FirstMinCost(best);
      CandidatesBest(t, ignore, best, k);
      r := Ok(best[k]);
    }
  }

  /** Each eligible column has exactly one outcome. */
  lemma ColumnOutcomeUnique(rows: seq<Row>, col: nat, split1: Option<real>, cost1: real, split2: Option<real>, cost2: real)
    requires HasColumn(rows, col)
    requires ColumnOutcome(rows, col, split1, cost1) && ColumnOutcome(rows, col, split2, cost2)
    ensures split1 == split2 && cost1 == cost2
  {
    var s := SortByColumn(rows, col);
    ColumnResultUnique(s, col, split1, cost1, split2, cost2);
  }

  /** The cost minimum and the lowest-index tie-break leave no choice: the best splitter is unique. */
  lemma BestSplitterUnique(t: Table, ignore: seq<nat>, a: Splitter, b: Splitter)
    requires WellFormed(t) && IsBestSplitter(t, ignore, a) && IsBestSplitter(t, ignore, b)
    ensures a == b
  {
    if a.columnIndex == b.columnIndex {
      ColumnOutcomeUnique(t.rows, a.columnIndex, a.splitValue, a.costComplexity, b.splitValue, b.costComplexity);
    }
  }
}
