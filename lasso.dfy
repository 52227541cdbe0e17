/**
 * LASSO regression by coordinate-wise soft thresholding (regression/lasso.py): the
 * soft-thresholding operator, and the bounded fitting loop of `LassoRegression.fit`.
 */
module Lasso {

  function Abs(x: real): real
  {
    if x < 0.0 then -x else x
  }

  function Max(x: real, y: real): real
  {
    if x < y then y else x
  }

  /** `_soft_threshold_op(z, g)` (regression/lasso.py:39-46). */
  function SoftThreshold(z: real, g: real): (r: real)
    ensures g >= 0.0 ==> Abs(r) <= Abs(z) && (r == 0.0 || (r > 0.0 <==> z > 0.0))
  {
    if z > 0.0 && g < Abs(z) then z - g
    else if z < 0.0 && g < Abs(z) then z + g
    else 0.0
  }

  /**
   * For a non-negative `g`, the result is `z` moved `g` towards zero and stopped at zero:
   * zero or of the sign of `z`, of magnitude max(|z| - g, 0), never larger than |z|.
   */
  lemma SoftThresholdShape(z: real, g: real)
    requires g >= 0.0
    ensures var r := SoftThreshold(z, g);
      Abs(r) == Max(Abs(z) - g, 0.0) && Abs(r) <= Abs(z) &&
      (r == 0.0 || (r > 0.0 <==> z > 0.0)) &&
      (r == 0.0 <==> Abs(z) <= g)
  {
  }

  /** The penalised distance 1/2 (x - z)^2 + g |x| that soft thresholding minimises. */
  function Penalised(z: real, g: real, x: real): real
  {
    (x - z) * (x - z) / 2.0 + g * Abs(x)
  }

  /** Soft thresholding is the proximal map of g|.|: no `x` has a smaller penalised distance. */
  lemma SoftThresholdMinimises(z: real, g: real, x: real)
    requires g >= 0.0
    ensures Penalised(z, g, SoftThreshold(z, g)) <= Penalised(z, g, x)
  {
    if z > g {
      ShrinkDown(z, g, x);
    } else if z < -g {
      ShrinkDown(-z, g, -x);
    } else {
      ZeroIsBest(z, g, x);
    }
  }

  /** For z > g >= 0 the minimiser is z - g; `x` on either side of zero is no better. */
  lemma ShrinkDown(z: real, g: real, x: real)
    requires 0.0 <= g < z
    ensures Penalised(z, g, z - g) <= Penalised(z, g, x)
    ensures Penalised(-z, g, -(z - g)) <= Penalised(-z, g, -x)
  {
    var u := x - (z - g);
    assert x - z == u - g;
    SquareOfDifference(u, g);
    assert Penalised(z, g, x) - Penalised(z, g, z - g) == u * u / 2.0 + g * (Abs(x) - x);
    Square(u);
    Product(g, Abs(x) - x);
    assert Penalised(-z, g, -x) == Penalised(z, g, x);
    assert Penalised(-z, g, -(z - g)) == Penalised(z, g, z - g);
  }

  /** For |z| <= g the minimiser is zero. */
  lemma ZeroIsBest(z: real, g: real, x: real)
    requires -g <= z <= g
    ensures Penalised(z, g, 0.0) <= Penalised(z, g, x)
  {
    SquareOfDifference(x, z);
    assert Penalised(z, g, x) - Penalised(z, g, 0.0) == x * x / 2.0 + (g * Abs(x) - x * z);
    Square(x);
    if x >= 0.0 {
      assert g * Abs(x) - x * z == x * (g - z);
      Product(x, g - z);
    } else {
      assert g * Abs(x) - x * z == (-x) * (g + z);
      Product(-x, g + z);
    }
  }

  lemma SquareOfDifference(a: real, b: real)
    ensures (a - b) * (a - b) == a * a - 2.0 * a * b + b * b
  {
  }

  lemma Square(a: real)
    ensures a * a >= 0.0
  {
    if a < 0.0 {
      Product(-a, -a);
    } else {
      Product(a, a);
    }
  }

  lemma Product(a: real, b: real)
    requires a >= 0.0 && b >= 0.0
    ensures a * b >= 0.0
  {
  }

  /** Soft thresholding preserves order. */
  lemma SoftThresholdMonotone(z1: real, z2: real, g: real)
    requires g >= 0.0 && z1 <= z2
    ensures SoftThreshold(z1, g) <= SoftThreshold(z2, g)
  {
  }

  /** Soft thresholding never moves two inputs further apart. */
  lemma SoftThresholdNonExpansive(z1: real, z2: real, g: real)
    requires g >= 0.0
    ensures Abs(SoftThreshold(z1, g) - SoftThreshold(z2, g)) <= Abs(z1 - z2)
  {
  }

  function Zeros(n: nat): (s: seq<real>)
    ensures |s| == n && forall i :: 0 <= i < n ==> s[i] == 0.0
  {
    seq(n, _ => 0.0)
  }

  /** `update` applied `n` times. */
  function Iterate(update: seq<real> -> seq<real>, c: seq<real>, n: nat): seq<real>
    decreases n
  {
    if n == 0 then c else Iterate(update, update(c), n - 1)
  }

  /** The number of coefficient updates made, and the coefficients they leave. */
  datatype Outcome = Outcome(updates: nat, coefficients: seq<real>)

  /**
   * The loop of regression/lasso.py:19-24 from coefficients `c`, with `budget` iterations
   * left and the last change `delta` of the residual sum of squares. `rss` stands for
   * `_rss(x, y)` and `update` for `_update_coefficients(x, y)` on the fitted data.
   */
  function Descend(rss: seq<real> -> real, update: seq<real> -> seq<real>, threshold: real,
                   budget: int, c: seq<real>, delta: real): (o: Outcome)
    ensures o.updates <= if budget <= 0 then 0 else budget
    ensures o.updates == 0 <==> budget <= 0 || delta <= threshold
    decreases budget
  {
    if budget <= 0 || delta <= threshold then Outcome(0, c)
    else
      var next := update(c);
      var rest := Descend(rss, update, threshold, budget - 1, next, Abs(rss(c) - rss(next)));
      Outcome(rest.updates + 1, rest.coefficients)
  }

  /** One more iteration: an update, then the rest of the loop from the changed residual sum. */
  lemma DescendUnfold(rss: seq<real> -> real, update: seq<real> -> seq<real>, threshold: real,
                      budget: int, c: seq<real>, delta: real)
    requires budget > 0 && delta > threshold
    ensures var rest := Descend(rss, update, threshold, budget - 1, update(c), Abs(rss(c) - rss(update(c))));
      Descend(rss, update, threshold, budget, c, delta) == Outcome(rest.updates + 1, rest.coefficients)
  {
  }

  /** At most `budget` updates, and the coefficients are `update` applied that many times. */
  lemma {:induction false} DescendBounded(rss: seq<real> -> real, update: seq<real> -> seq<real>,
                                          threshold: real, budget: int, c: seq<real>, delta: real)
    ensures var o := Descend(rss, update, threshold, budget, c, delta);
      (budget <= 0 ==> o.updates == 0) && (budget > 0 ==> o.updates <= budget) &&
      o.coefficients == Iterate(update, c, o.updates)
    decreases budget
  {
    if budget > 0 && delta > threshold {
      var next := update(c);
      DescendBounded(rss, update, threshold, budget - 1, next, Abs(rss(c) - rss(next)));
    }
  }

  /** When every update changes the residual sum by more than the threshold, all of the budget is used. */
  lemma {:induction false} DescendExhausts(rss: seq<real> -> real, update: seq<real> -> seq<real>,
                                           threshold: real, budget: nat, c: seq<real>, delta: real)
    requires delta > threshold
    requires forall d: seq<real> :: Abs(rss(d) - rss(update(d))) > threshold
    ensures Descend(rss, update, threshold, budget, c, delta).updates == budget
    decreases budget
  {
    if budget > 0 {
      var next := update(c);
      DescendExhausts(rss, update, threshold, budget - 1, next, Abs(rss(c) - rss(next)));
    }
  }

  /** The estimator of regression/lasso.py:5-10. */
  class LassoRegression {
    var alpha: real
    var threshold: real
    var iterations: int
    /** `None` in `Linear.__init__` (regression/simple.py:5-6); `[]` stands for "not fitted yet". */
    var coefficients: seq<real>

    /** `__init__` with all three keyword arguments given. */
    constructor (alpha: real, threshold: real, iterations: int)
      ensures this.alpha == alpha && this.threshold == threshold && this.iterations == iterations
      ensures coefficients == []
    {
      this.alpha, this.threshold, this.iterations := alpha, threshold, iterations;
      coefficients := [];
    }

    /** `__init__` with no keyword arguments: the `kwargs.get` defaults. */
    constructor Default()
      ensures alpha == 1.0 && threshold == 0.1 && iterations == 10
      ensures coefficients == []
    {
      alpha, threshold, iterations := 1.0, 0.1, 10;
      coefficients := [];
    }

    /**
     * `fit` (regression/lasso.py:12-24) on data with `width` feature columns: coefficients
     * start at zero, and are updated until the budget of iterations is spent or an update
     * changes the residual sum of squares by no more than the threshold.
     */
    method Fit(width: nat, rss: seq<real> -> real, update: seq<real> -> seq<real>) returns (ghost updates: nat)
      modifies `coefficients
      ensures Descend(rss, update, threshold, iterations, Zeros(width), threshold + 1.0) ==
        Outcome(updates, coefficients)
    {
      coefficients := Zeros(width);
      var it := 0;
      var deltaRss := threshold + 1.0;
      ghost var total := Descend(rss, update, threshold, iterations, coefficients, deltaRss);
      ghost var rest := total;
      while it < iterations && deltaRss > threshold
        invariant 0 <= it && (iterations >= 0 ==> it <= iterations)
        invariant rest == Descend(rss, update, threshold, iterations - it, coefficients, deltaRss)
        invariant total == Outcome(it + rest.updates, rest.coefficients)
        decreases iterations - it
      {
        ghost var budget, c, delta := iterations - it, coefficients, deltaRss;
        var oldRss := rss(coefficients);
        coefficients := update(coefficients);
        var newRss := rss(coefficients);
        deltaRss := Abs(oldRss - newRss);
        it := it + 1;
        DescendUnfold(rss, update, threshold, budget, c, delta);
        assert iterations - it == budget - 1 && coefficients == update(c) && deltaRss == Abs(rss(c) - rss(update(c)));
        rest := Descend(rss, update, threshold, budget - 1, update(c), Abs(rss(c) - rss(update(c))));
      }
      updates := it;
    }
  }

  /** `fit` makes at most `iterations` updates; with none allowed the coefficients stay zero. */
  lemma FitBounded(rss: seq<real> -> real, update: seq<real> -> seq<real>, threshold: real,
                   iterations: int, width: nat)
    ensures var o := Descend(rss, update, threshold, iterations, Zeros(width), threshold + 1.0);
      (iterations <= 0 ==> o.updates == 0 && o.coefficients == Zeros(width)) &&
      (iterations > 0 ==> 1 <= o.updates <= iterations) &&
      o.coefficients == Iterate(update, Zeros(width), o.updates)
  {
    DescendBounded(rss, update, threshold, iterations, Zeros(width), threshold + 1.0);
  }
}
