/**
 * The stand-alone split search of tree-based/fast_splitter.py.
 *
 * It scans every feature column exactly as the decision-tree classifier does
 * (module Cart), with no ignored columns, but records as threshold the value `XX`
 * that ends the winning boundary instead of the midpoint to the next value. Its
 * `gini_idx` is the same function as the classifier's, `Cart.Gini`.
 */
module FastSplitter {
  import opened Wrappers
  import opened Rows
  import opened Cart

  /** The `(min_split, min_cc)` that one pass over the sorted rows `s` leaves behind (fast_splitter.py:26-42). */
  ghost predicate ValueResult(s: seq<Row>, col: nat, split: Option<real>, cost: real)
    requires HasColumn(s, col)
  {
    match split
    case None => cost == Sentinel && NoCandidateUpTo(s, col, |s|)
    case Some(t) => exists i :: FirstMinimalUpTo(s, col, |s|, i) && t == s[i][col] && cost == Cost(s, i)
  }

  /** Loop state of a column scan after the first `k` rows, the threshold being the boundary's own value. */
  ghost predicate ValueTracking(s: seq<Row>, col: nat, k: int, split: Option<real>, cost: real, best: int)
    requires HasColumn(s, col)
  {
    cost <= Sentinel &&
    (forall j :: 0 <= j < k && IsBoundary(s, col, j) ==> cost <= Cost(s, j)) &&
    (split.None? ==> cost == Sentinel) &&
    (split.Some? ==>
      0 <= best < k && IsBoundary(s, col, best) && cost == Cost(s, best) && cost < Sentinel &&
      split.value == s[best][col] &&
      forall j :: 0 <= j < best && IsBoundary(s, col, j) ==> cost < Cost(s, j))
  }

  lemma ValueKeep(s: seq<Row>, col: nat, i: nat, split: Option<real>, cost: real, best: int)
    requires HasColumn(s, col) && i < |s| && ValueTracking(s, col, i, split, cost, best)
    requires IsBoundary(s, col, i) ==> cost <= Cost(s, i)
    ensures ValueTracking(s, col, i + 1, split, cost, best)
  {
  }

  lemma ValueTake(s: seq<Row>, col: nat, i: nat, split: Option<real>, cost: real, best: int)
    requires HasColumn(s, col) && ValueTracking(s, col, i, split, cost, best)
    requires IsBoundary(s, col, i) && Cost(s, i) < cost
    ensures ValueTracking(s, col, i + 1, Some(s[i][col]), Cost(s, i), i)
  {
  }

  lemma ValueDone(s: seq<Row>, col: nat, split: Option<real>, cost: real, best: int)
    requires HasColumn(s, col) && ValueTracking(s, col, |s|, split, cost, best)
    ensures ValueResult(s, col, split, cost)
  {
    if split.Some? {
      assert FirstMinimalUpTo(s, col, |s|, best);
    }
  }

  /** One column of `get_best_splitter` (fast_splitter.py:20-42) over the rows sorted by `col`. */
  method ScanColumn(s: seq<Row>, col: nat, tot0: nat, tot1: nat) returns (split: Option<real>, cost: real)
    requires SortedBy(s, col) && BinaryLabels(s)
    requires tot0 == Count0(s) && tot1 == Count1(s)
    ensures ValueResult(s, col, split, cost)
  {
    var n := |s|;
    BinaryCounts(s);
    var n0l, n1l := 0, 0;
    var n0r, n1r := tot0, tot1;
    split, cost := None, Sentinel;
    ghost var best := 0;
    var i := 0;
    while i < n
      invariant 0 <= i <= n
      invariant n0l == Count0(s[..i]) && n1l == Count1(s[..i]) && n0l + n1l == i
      invariant n0l + n0r == tot0 && n1l + n1r == tot1
      invariant ValueTracking(s, col, i, split, cost, best)
    {
      var xx, yy := s[i][col], Label(s[i]);
      CountStep(s, i);
      if yy == 1.0 {
        n1l, n1r := n1l + 1, n1r - 1;
      } else if yy == 0.0 {
        n0l, n0r := n0l + 1, n0r - 1;
      }
      assert n0l == Count0(s[..i + 1]) && n1l == Count1(s[..i + 1]);
      assert n0l + n1l == i + 1 && n0r + n1r == n - i - 1;
      if i == n - 1 || xx != s[i + 1][col] {
        // An empty right side makes the cost NaN, which never compares below `min_cc`.
        if n0r + n1r > 0 {
          var cc := (n0l + n1l) as real * Gini(n0l, n0l + n1l)
                  + (n0r + n1r) as real * Gini(n0r, n0r + n1r);
          CostFromCounts(s, i, n0l, n1l, n0r, n1r);
          if cc < cost {
            ValueTake(s, col, i, split, cost, best);
            cost := cc;
            split := Some(xx);
            best := i;
          } else {
            ValueKeep(s, col, i, split, cost, best);
          }
        } else {
          ValueKeep(s, col, i, split, cost, best);
        }
      } else {
        ValueKeep(s, col, i, split, cost, best);
      }
      i := i + 1;
    }
    ValueDone(s, col, split, cost, best);
  }

  /** A column scan has one outcome. */
  lemma ValueResultUnique(s: seq<Row>, col: nat, split1: Option<real>, cost1: real, split2: Option<real>, cost2: real)
    requires HasColumn(s, col)
    requires ValueResult(s, col, split1, cost1) && ValueResult(s, col, split2, cost2)
    ensures split1 == split2 && cost1 == cost2
  {
    if split1.Some? && split2.Some? {
      var i1 :| FirstMinimalUpTo(s, col, |s|, i1) && split1.value == s[i1][col] && cost1 == Cost(s, i1);
      var i2 :| FirstMinimalUpTo(s, col, |s|, i2) && split2.value == s[i2][col] && cost2 == Cost(s, i2);
      assert i1 == i2;
    }
  }

  /** The scan's outcome carries over from one ordering of the rows to any other. */
  lemma ValueResultTransfer(s1: seq<Row>, s2: seq<Row>, col: nat, split: Option<real>, cost: real)
    requires SortedBy(s1, col) && SortedBy(s2, col) && multiset(s1) == multiset(s2)
    requires ValueResult(s1, col, split, cost)
    ensures ValueResult(s2, col, split, cost)
  {
    BoundariesAgree(s1, s2, col);
    SortedKeysAgree(s1, s2, col);
    if split.Some? {
      var i :| FirstMinimalUpTo(s1, col, |s1|, i) && split.value == s1[i][col] && cost == Cost(s1, i);
      assert FirstMinimalUpTo(s2, col, |s2|, i);
    }
  }

  /** What one column of `get_best_splitter` yields, for every ordering `argsort` may give to ties. */
  ghost predicate ValueOutcome(rows: seq<Row>, col: nat, split: Option<real>, cost: real)
  {
    forall s :: IsSortedPermutation(s, rows, col) ==> ValueResult(s, col, split, cost)
  }

  /** The order of ties does not change a column's result, and that result is the only one. */
  lemma ValueTieOrderIrrelevant(rows: seq<Row>, s: seq<Row>, col: nat, split: Option<real>, cost: real)
    requires IsSortedPermutation(s, rows, col) && ValueResult(s, col, split, cost)
    ensures ValueOutcome(rows, col, split, cost)
    ensures forall split', cost' :: ValueOutcome(rows, col, split', cost') ==> split' == split && cost' == cost
  {
    forall s2 | IsSortedPermutation(s2, rows, col) ensures ValueResult(s2, col, split, cost) {
      ValueResultTransfer(s, s2, col, split, cost);
    }
    forall split', cost' | ValueOutcome(rows, col, split', cost') ensures split' == split && cost' == cost {
      ValueResultUnique(s, col, split, cost, split', cost');
    }
  }

  /**
   * Over the same sorted rows, both scans stop at the same boundary: equal costs, a
   * threshold in both or in neither, the midpoint past the value this scan records.
   */
  lemma ResultsAgree(s: seq<Row>, col: nat, split: Option<real>, cost: real, vsplit: Option<real>, vcost: real)
    requires SortedBy(s, col) && ColumnResult(s, col, split, cost) && ValueResult(s, col, vsplit, vcost)
    ensures cost == vcost && split.Some? == vsplit.Some?
    ensures split.Some? ==>
      exists i :: IsBoundary(s, col, i) && split.value == Midpoint(s[i][col], s[i + 1][col]) && vsplit.value == s[i][col]
  {
    if split.Some? && vsplit.Some? {
      var i1 :| FirstMinimalUpTo(s, col, |s|, i1) && split.value == Midpoint(s[i1][col], s[i1 + 1][col]) && cost == Cost(s, i1);
      var i2 :| FirstMinimalUpTo(s, col, |s|, i2) && vsplit.value == s[i2][col] && vcost == Cost(s, i2);
      assert i1 == i2;
    }
  }

  /** The boundary whose own value a scan returned. */
  lemma ValueBoundary(s: seq<Row>, col: nat, v: real, cost: real) returns (i: nat)
    requires HasColumn(s, col) && ValueResult(s, col, Some(v), cost)
    ensures FirstMinimalUpTo(s, col, |s|, i) && IsBoundary(s, col, i)
    ensures v == s[i][col] && cost == Cost(s, i)
  {
    i :| FirstMinimalUpTo(s, col, |s|, i) && v == s[i][col] && cost == Cost(s, i);
  }

  /** The classifier's pass over the same sorted rows stops at the midpoint of the boundary this scan stops at. */
  lemma ResultOfValue(s: seq<Row>, col: nat, vsplit: Option<real>, cost: real) returns (split: Option<real>)
    requires HasColumn(s, col) && ValueResult(s, col, vsplit, cost)
    ensures ColumnResult(s, col, split, cost) && (split.Some? <==> vsplit.Some?)
  {
    split := None;
    if vsplit.Some? {
      var i := ValueBoundary(s, col, vsplit.value, cost);
      split := Some(Midpoint(s[i][col], s[i + 1][col]));
    }
  }

  /** This scan over the same sorted rows stops at the boundary whose midpoint the classifier's pass returns. */
  lemma ValueOfResult(s: seq<Row>, col: nat, split: Option<real>, cost: real) returns (vsplit: Option<real>)
    requires HasColumn(s, col) && ColumnResult(s, col, split, cost)
    ensures ValueResult(s, col, vsplit, cost) && (split.Some? <==> vsplit.Some?)
  {
    vsplit := None;
    if split.Some? {
      var i := ChosenBoundary(s, col, split.value, cost);
      vsplit := Some(s[i][col]);
    }
  }

  /** Every outcome of this scan is matched by an outcome of the classifier's scan of the same column. */
  lemma MidpointOutcomeOf(rows: seq<Row>, col: nat, vsplit: Option<real>, cost: real)
    requires HasColumn(rows, col) && ValueOutcome(rows, col, vsplit, cost)
    ensures exists split :: ColumnOutcome(rows, col, split, cost) && (split.Some? <==> vsplit.Some?)
  {
    var s := SortByColumn(rows, col);
    assert ValueResult(s, col, vsplit, cost);
    var split := ResultOfValue(s, col, vsplit, cost);
    TieOrderIrrelevant(rows, s, col, split, cost);
    assert ColumnOutcome(rows, col, split, cost);
  }

  /** Every outcome of the classifier's scan is matched by an outcome of this scan of the same column. */
  lemma ValueOutcomeOf(rows: seq<Row>, col: nat, split: Option<real>, cost: real)
    requires HasColumn(rows, col) && ColumnOutcome(rows, col, split, cost)
    ensures exists vsplit :: ValueOutcome(rows, col, vsplit, cost) && (split.Some? <==> vsplit.Some?)
  {
    var s := SortByColumn(rows, col);
    assert ColumnResult(s, col, split, cost);
    var vsplit := ValueOfResult(s, col, split, cost);
    ValueTieOrderIrrelevant(rows, s, col, vsplit, cost);
    assert ValueOutcome(rows, col, vsplit, cost);
  }

  /**
   * The boundary value itself separates the sorted rows like the midpoint does: `<= XX`
   * selects exactly the rows up to the boundary (fast_splitter.py:37-42).
   */
  lemma ValueSeparates(s: seq<Row>, col: nat, i: nat)
    requires SortedBy(s, col) && IsBoundary(s, col, i)
    ensures forall k :: 0 <= k < |s| ==> (s[k][col] <= s[i][col] <==> k <= i)
    ensures Filter(s, col, s[i][col], Left) == s[..i + 1]
    ensures Filter(s, col, s[i][col], Right) == s[i + 1..]
  {
    assert forall k :: 0 <= k <= i ==> s[k][col] <= s[i][col];
    assert forall k :: i + 1 <= k < |s| ==> s[i + 1][col] <= s[k][col];
    FilterAtSplit(s, i + 1, col, s[i][col]);
  }

  /**
   * For one column, this scan and the classifier's agree on the cost, on whether there is
   * a threshold, and on how the threshold partitions the rows, order included.
   */
  lemma SamePartition(rows: seq<Row>, col: nat, split: Option<real>, cost: real, vsplit: Option<real>, vcost: real)
    requires HasColumn(rows, col) && ColumnOutcome(rows, col, split, cost) && ValueOutcome(rows, col, vsplit, vcost)
    ensures cost == vcost && split.Some? == vsplit.Some?
    ensures split.Some? ==>
      Filter(rows, col, split.value, Left) == Filter(rows, col, vsplit.value, Left) &&
      Filter(rows, col, split.value, Right) == Filter(rows, col, vsplit.value, Right)
  {
    var s := SortByColumn(rows, col);
    assert ColumnResult(s, col, split, cost) && ValueResult(s, col, vsplit, vcost);
    ResultsAgree(s, col, split, cost, vsplit, vcost);
    if split.Some? {
      var i :| IsBoundary(s, col, i) &&
        split.value == Midpoint(s[i][col], s[i + 1][col]) && vsplit.value == s[i][col];
      ThresholdsAgree(rows, s, col, i);
      FilterAgree(rows, col, split.value, vsplit.value, Left);
      FilterAgree(rows, col, split.value, vsplit.value, Right);
    }
  }

  /** On the rows themselves, the midpoint and the boundary value put every row on the same side. */
  lemma ThresholdsAgree(rows: seq<Row>, s: seq<Row>, col: nat, i: nat)
    requires IsSortedPermutation(s, rows, col) && IsBoundary(s, col, i)
    ensures forall k, side :: 0 <= k < |rows| ==>
      (OnSide(rows[k], col, Midpoint(s[i][col], s[i + 1][col]), side) <==> OnSide(rows[k], col, s[i][col], side))
  {
    MidpointSeparates(s, col, i);
    ValueSeparates(s, col, i);
    forall k | 0 <= k < |rows|
      ensures col < |rows[k]| && (rows[k][col] <= Midpoint(s[i][col], s[i + 1][col]) <==> rows[k][col] <= s[i][col])
    {
      assert rows[k] in multiset(s);
      var m :| 0 <= m < |s| && s[m] == rows[k];
    }
  }

  /** Zero rows, or a column whose values are all equal, yield `(None, col, 1e6)`. */
  lemma ConstantColumnNoValue(rows: seq<Row>, col: nat, split: Option<real>, cost: real)
    requires HasColumn(rows, col) && ValueOutcome(rows, col, split, cost)
    requires forall a, b :: 0 <= a < |rows| && 0 <= b < |rows| ==> rows[a][col] == rows[b][col]
    ensures split == None && cost == Sentinel
  {
    MidpointOutcomeOf(rows, col, split, cost);
    var msplit :| ColumnOutcome(rows, col, msplit, cost) && (msplit.Some? <==> split.Some?);
    ConstantColumnNoSplit(rows, col, msplit, cost);
  }

  /** The threshold this scan reports is a value that occurs in the column. */
  lemma ValueOccurs(rows: seq<Row>, col: nat, t: real, cost: real)
    requires HasColumn(rows, col) && ValueOutcome(rows, col, Some(t), cost)
    ensures exists k :: 0 <= k < |rows| && rows[k][col] == t
  {
    var s := SortByColumn(rows, col);
    assert ValueResult(s, col, Some(t), cost);
    var i :| FirstMinimalUpTo(s, col, |s|, i) && t == s[i][col] && cost == Cost(s, i);
    assert s[i] in multiset(rows);
  }

  /** `sorted(...)[0]` on an empty list raises IndexError: the array has no feature column. */
  datatype FastError = NoFeatureColumns

  /**
   * `sp` is what `get_best_splitter(arr)` returns: a feature column's own outcome, of
   * minimal cost among all feature columns, ties going to the lowest column index.
   */
  ghost predicate IsFastBest(t: Table, sp: Splitter)
  {
    sp.columnIndex < t.width - 1 &&
    ValueOutcome(t.rows, sp.columnIndex, sp.splitValue, sp.costComplexity) &&
    forall c: nat, split, cost :: c < t.width - 1 && ValueOutcome(t.rows, c, split, cost) ==>
      sp.costComplexity <= cost && (c < sp.columnIndex ==> sp.costComplexity < cost)
  }

  /** `best` holds, for every column below `col` in order, that column's only outcome. */
  ghost predicate Scanned(t: Table, best: seq<Splitter>, col: nat)
  {
    |best| == col &&
    forall k :: 0 <= k < col ==>
      best[k].columnIndex == k &&
      ValueOutcome(t.rows, k, best[k].splitValue, best[k].costComplexity) &&
      forall split, cost :: ValueOutcome(t.rows, k, split, cost) ==>
        split == best[k].splitValue && cost == best[k].costComplexity
  }

  /** Once every feature column is scanned, the first candidate of least cost is the best one. */
  lemma ScannedBest(t: Table, best: seq<Splitter>, k: nat)
    requires t.width >= 1 && Scanned(t, best, t.width - 1) && |best| > 0 && k == FirstMinCost(best)
    ensures IsFastBest(t, best[k])
  {
    forall c: nat, split, cost | c < t.width - 1 && ValueOutcome(t.rows, c, split, cost)
      ensures best[k].costComplexity <= cost && (c < best[k].columnIndex ==> best[k].costComplexity < cost)
    {
      assert cost == best[c].costComplexity;
    }
  }

  /** `get_best_splitter(arr)` (fast_splitter.py:13-46). */
  method GetBestSplitter(t: Table) returns (r: Result<Splitter, FastError>)
    requires WellFormed(t)
    ensures r.Err? <==> t.width == 1
    ensures r.Ok? ==> IsFastBest(t, r.value)
  {
    var tot0, tot1 := Count0(t.rows), Count1(t.rows);
    var best: seq<Splitter> := [];
    var col := 0;
    while col < t.width - 1
      invariant 0 <= col <= t.width - 1
      invariant Scanned(t, best, col)
    {
      var s := SortByColumn(t.rows, col);
      PermutationKeepsWellFormed(s, t.rows, t.width);
      CountIfPermutation(s, t.rows, IsZeroLabel);
      CountIfPermutation(s, t.rows, IsOneLabel);
      var split, cost := ScanColumn(s, col, tot0, tot1);
      ValueTieOrderIrrelevant(t.rows, s, col, split, cost);
      best := best + [Splitter(split, col, cost)];
      col := col + 1;
    }
    if |best| == 0 {
      r := Err(NoFeatureColumns);
    } else {
      var k := FirstMinCost(best);
      ScannedBest(t, best, k);
      r := Ok(best[k]);
    }
  }

  /** The best splitter is unique. */
  lemma FastBestUnique(t: Table, a: Splitter, b: Splitter)
    requires WellFormed(t) && IsFastBest(t, a) && IsFastBest(t, b)
    ensures a == b
  {
    if a.columnIndex == b.columnIndex {
      var s := SortByColumn(t.rows, a.columnIndex);
      assert ValueResult(s, a.columnIndex, a.splitValue, a.costComplexity);
      ValueResultUnique(s, a.columnIndex, a.splitValue, a.costComplexity, b.splitValue, b.costComplexity);
    }
  }

  /**
   * Against the classifier's `get_best_splitter` with nothing ignored: the same column and
   * cost, a threshold in both or in neither, and the two thresholds send the same rows,
   * in the same order, to each side.
   */
  lemma AgreesWithCart(t: Table, sp: Splitter, fsp: Splitter)
    requires WellFormed(t) && IsBestSplitter(t, [], sp) && IsFastBest(t, fsp)
    ensures sp.columnIndex == fsp.columnIndex && sp.costComplexity == fsp.costComplexity
    ensures sp.splitValue.Some? <==> fsp.splitValue.Some?
    ensures sp.splitValue.Some? ==>
      Filter(t.rows, sp.columnIndex, sp.splitValue.value, Left) == Filter(t.rows, fsp.columnIndex, fsp.splitValue.value, Left) &&
      Filter(t.rows, sp.columnIndex, sp.splitValue.value, Right) == Filter(t.rows, fsp.columnIndex, fsp.splitValue.value, Right)
  {
    var c, f := sp.columnIndex, fsp.columnIndex;
    assert HasColumn(t.rows, c) && HasColumn(t.rows, f);
    MidpointOutcomeOf(t.rows, f, fsp.splitValue, fsp.costComplexity);
    var msplit :| ColumnOutcome(t.rows, f, msplit, fsp.costComplexity) && (msplit.Some? <==> fsp.splitValue.Some?);
    assert Eligible(t, [], f);
    ValueOutcomeOf(t.rows, c, sp.splitValue, sp.costComplexity);
    var vsplit :| ValueOutcome(t.rows, c, vsplit, sp.costComplexity) && (sp.splitValue.Some? <==> vsplit.Some?);
    assert c == f;
    SamePartition(t.rows, c, sp.splitValue, sp.costComplexity, fsp.splitValue, fsp.costComplexity);
  }
}
