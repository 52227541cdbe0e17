/**
 * Arithmetic in the ring Z[sqrt D] (other/real_quadratic.py): the `QuadInt` record a + b*sqrt(D)
 * with its power, division and Pell norm, and the exponent table `calc_unit_pow`.
 */
module RealQuadratic {

  import opened Wrappers

  /** The value a + b*sqrt(D). */
  datatype Quad = Quad(a: int, b: int, D: int)

  /** The same value with real components, as `divide` produces it. */
  datatype RealQuad = RealQuad(a: real, b: real, D: int)

  /** Python's `ZeroDivisionError`. */
  datatype DivError = DivisionByZero

  /** The product in Z[sqrt D]: (a + b*sqrt D)(c + d*sqrt D) = (ac + bdD) + (ad + bc)*sqrt D. */
  function Mul(x: Quad, y: Quad): Quad
  {
    Quad(x.a * y.a + x.b * y.b * x.D, x.a * y.b + y.a * x.b, x.D)
  }

  /** The conjugate a - b*sqrt(D). */
  function Conj(x: Quad): Quad
  {
    Quad(x.a, -x.b, x.D)
  }

  /** The norm: the rational part of the product with the conjugate, whose other part vanishes. */
  function Norm(x: Quad): (r: int)
    ensures Mul(x, Conj(x)) == Quad(r, 0, x.D)
  {
    Mul(x, Conj(x)).a
  }

  /** `x` to the power `n`; as `pow` does, every `n <= 1` gives `x` itself. */
  function Power(x: Quad, n: int): (r: Quad)
    ensures r.D == x.D
    decreases n
  {
    if n <= 1 then x else Mul(Power(x, n - 1), x)
  }

  function IntPow(z: int, n: nat): int
  {
    if n == 0 then 1 else z * IntPow(z, n - 1)
  }

  /** The record of lines 10-14, with integer components. */
  class QuadInt {
    var a: int
    var b: int
    var D: int

    constructor (a: int, b: int, D: int)
      ensures this.a == a && this.b == b && this.D == D
    {
      this.a, this.b, this.D := a, b, D;
    }

    function Value(): Quad
      reads this
    {
      Quad(a, b, D)
    }

    /**
     * `pow(n)` (lines 16-23): a fresh record, multiplied by `self` `n - 1` times; `self`
     * is left as it was.
     */
    method Pow(n: int) returns (res: QuadInt)
      ensures fresh(res) && res.Value() == Power(Value(), n)
    {
      var a_, b_ := a, b;
      res := new QuadInt(a, b, D);
      var k := 0;
      while k < n - 1
        invariant 0 <= k && (n >= 1 ==> k <= n - 1) && (n < 1 ==> k == 0)
        invariant res.Value() == Power(Value(), k + 1)
      {
        ghost var before := res.Value();
        var old_a := res.a;
        res.a := old_a * a_ + res.b * b_ * res.D;
        res.b := old_a * b_ + a_ * res.b;
        assert res.Value() == Mul(before, Value());
        k := k + 1;
      }
    }

    /** `divide(x)` (lines 25-30): both components divided by `x`; zero raises. */
    function Divide(x: real): (r: Result<RealQuad, DivError>)
      reads this
      ensures r.Err? <==> x == 0.0
      ensures r.Ok? ==> r.value.a * x == a as real && r.value.b * x == b as real && r.value.D == D
    {
      if x == 0.0 then Err(DivisionByZero) else Ok(RealQuad(a as real / x, b as real / x, D))
    }

    /** The `pell` property (lines 32-34): the norm of the value. */
    function Pell(): (r: int)
      reads this
      ensures r == Norm(Value())
    {
      a * a - D * b * b
    }
  }

  /** The norm is a^2 - D*b^2. */
  lemma NormFormula(x: Quad)
    ensures Norm(x) == x.a * x.a - x.D * (x.b * x.b)
  {
    assert x.b * -x.b * x.D == -(x.D * (x.b * x.b));
  }

  /** The norm is multiplicative. */
  lemma NormMul(x: Quad, y: Quad)
    requires x.D == y.D
    ensures Norm(Mul(x, y)) == Norm(x) * Norm(y)
  {
    NormFormula(x);
    NormFormula(y);
    NormFormula(Mul(x, y));
    Brahmagupta(x.a, x.b, y.a, y.b, x.D);
  }

  /** Brahmagupta's identity, expanded one product at a time. */
  lemma Brahmagupta(a: int, b: int, c: int, d: int, D: int)
    ensures (a * c + b * d * D) * (a * c + b * d * D) - D * ((a * d + c * b) * (a * d + c * b)) ==
      (a * a - D * (b * b)) * (c * c - D * (d * d))
  {
    calc {
      (a * c + b * d * D) * (a * c + b * d * D) - D * ((a * d + c * b) * (a * d + c * b));
      { SquareOfSum(a * c, b * d * D); SquareOfSum(a * d, c * b); }
      (a * c) * (a * c) + 2 * (a * c) * (b * d * D) + (b * d * D) * (b * d * D)
        - D * ((a * d) * (a * d) + 2 * (a * d) * (c * b) + (c * b) * (c * b));
      { Scale3(D, (a * d) * (a * d), 2 * (a * d) * (c * b), (c * b) * (c * b)); }
      (a * c) * (a * c) + 2 * (a * c) * (b * d * D) + (b * d * D) * (b * d * D)
        - D * ((a * d) * (a * d)) - D * (2 * (a * d) * (c * b)) - D * ((c * b) * (c * b));
      { Monomials(a, b, c, d, D); }
      (a * a) * (c * c) - (a * a) * (D * (d * d)) - (D * (b * b)) * (c * c) + (D * (b * b)) * (D * (d * d));
      { ProductOfDifferences(a * a, D * (b * b), c * c, D * (d * d)); }
      (a * a - D * (b * b)) * (c * c - D * (d * d));
    }
  }

  lemma Monomials(a: int, b: int, c: int, d: int, D: int)
    ensures (a * c) * (a * c) == (a * a) * (c * c)
    ensures 2 * (a * c) * (b * d * D) == D * (2 * (a * d) * (c * b))
    ensures (b * d * D) * (b * d * D) == (D * (b * b)) * (D * (d * d))
    ensures D * ((a * d) * (a * d)) == (a * a) * (D * (d * d))
    ensures D * ((c * b) * (c * b)) == (D * (b * b)) * (c * c)
  {
    Swap(a, c, a, c);
    Swap(b * d, D, b * d, D);
    Swap(b, d, b, d);
    Swap(D, b * b, D, d * d);
    assert (b * d * D) * (b * d * D) == ((b * b) * (d * d)) * (D * D);
    assert (D * (b * b)) * (D * (d * d)) == (D * D) * ((b * b) * (d * d));
  }

  /** The products of three factors, regrouped. */
  lemma Regroup(x: int, y: int, z: int)
    ensures x * y * z == x * (y * z) == (x * z) * y == y * (x * z) == (y * x) * z
    ensures x * (y * z) == y * (x * z) == (y * z) * x == (x * z) * y
  {
  }

  lemma Regroup4(x: int, y: int, z: int, w: int)
    ensures x * y * z * w == (y * w * z) * x == (w * y) * (x * z)
  {
  }

  lemma Swap(x: int, y: int, z: int, w: int)
    ensures (x * y) * (z * w) == (x * z) * (y * w)
  {
  }

  lemma SquareOfSum(u: int, v: int)
    ensures (u + v) * (u + v) == u * u + 2 * u * v + v * v
  {
  }

  lemma Scale3(k: int, u: int, v: int, w: int)
    ensures k * (u + v + w) == k * u + k * v + k * w
  {
  }

  lemma ProductOfDifferences(p: int, q: int, r: int, s: int)
    ensures (p - q) * (r - s) == p * r - p * s - q * r + q * s
  {
  }

  lemma Expand(u: int, v: int, w: int)
    ensures (u + v) * w == u * w + v * w && w * (u + v) == w * u + w * v
  {
  }

  /** Each power keeps `D`. */
  lemma {:induction false} PowerKeepsD(x: Quad, n: int)
    ensures Power(x, n).D == x.D
    decreases n
  {
    if n > 1 {
      PowerKeepsD(x, n - 1);
    }
  }

  /** The Pell norm of a power is the power of the norm: `pell(pow(n)) == pell(self)^n`. */
  lemma {:induction false} PowerNorm(x: Quad, n: nat)
    requires n >= 1
    ensures Norm(Power(x, n)) == IntPow(Norm(x), n)
    decreases n
  {
    if n > 1 {
      PowerNorm(x, n - 1);
      PowerKeepsD(x, n - 1);
      NormMul(Power(x, n - 1), x);
    }
  }

  /** The powers of a unit (norm 1 or -1) are units. */
  lemma UnitPower(x: Quad, n: nat)
    requires n >= 1 && (Norm(x) == 1 || Norm(x) == -1)
    ensures Norm(Power(x, n)) == 1 || Norm(Power(x, n)) == -1
  {
    PowerNorm(x, n);
    UnitIntPow(Norm(x), n);
  }

  lemma {:induction false} UnitIntPow(z: int, n: nat)
    requires z == 1 || z == -1
    ensures IntPow(z, n) == 1 || IntPow(z, n) == -1
  {
    if n > 0 {
      UnitIntPow(z, n - 1);
    }
  }

  /** Multiplication in Z[sqrt D] is associative. */
  lemma MulAssoc(x: Quad, y: Quad, z: Quad)
    requires x.D == y.D == z.D
    ensures Mul(Mul(x, y), z) == Mul(x, Mul(y, z))
  {
    AssocRational(x.a, x.b, y.a, y.b, z.a, z.b, x.D);
    AssocIrrational(x.a, x.b, y.a, y.b, z.a, z.b, x.D);
  }

  lemma AssocRational(a: int, b: int, c: int, d: int, e: int, f: int, D: int)
    ensures (a * c + b * d * D) * e + (a * d + c * b) * f * D == a * (c * e + d * f * D) + b * (c * f + e * d) * D
  {
    RationalLeft(a, b, c, d, e, f, D);
    RationalRight(a, b, c, d, e, f, D);
  }

  lemma RationalLeft(a: int, b: int, c: int, d: int, e: int, f: int, D: int)
    ensures (a * c + b * d * D) * e + (a * d + c * b) * f * D ==
      a * c * e + b * d * D * e + a * d * f * D + c * b * f * D
  {
    Expand(a * c, b * d * D, e);
    Expand(a * d, c * b, f);
    Expand(a * d * f, c * b * f, D);
  }

  lemma RationalRight(a: int, b: int, c: int, d: int, e: int, f: int, D: int)
    ensures a * (c * e + d * f * D) + b * (c * f + e * d) * D ==
      a * c * e + b * d * D * e + a * d * f * D + c * b * f * D
  {
    Expand(c * e, d * f * D, a);
    Expand(c * f, e * d, b);
    Expand(b * (c * f), b * (e * d), D);
    Regroup(a, c, e);
    assert a * (d * f * D) == a * d * f * D;
    assert b * (c * f) * D == c * b * f * D;
    assert b * (e * d) * D == b * d * D * e;
  }

  lemma AssocIrrational(a: int, b: int, c: int, d: int, e: int, f: int, D: int)
    ensures (a * c + b * d * D) * f + e * (a * d + c * b) == a * (c * f + e * d) + (c * e + d * f * D) * b
  {
    IrrationalLeft(a, b, c, d, e, f, D);
    IrrationalRight(a, b, c, d, e, f, D);
  }

  lemma IrrationalLeft(a: int, b: int, c: int, d: int, e: int, f: int, D: int)
    ensures (a * c + b * d * D) * f + e * (a * d + c * b) == a * c * f + b * d * D * f + a * d * e + c * b * e
  {
    Expand(a * c, b * d * D, f);
    Expand(a * d, c * b, e);
    Regroup(a, d, e);
    Regroup(c, b, e);
  }

  lemma IrrationalRight(a: int, b: int, c: int, d: int, e: int, f: int, D: int)
    ensures a * (c * f + e * d) + (c * e + d * f * D) * b == a * c * f + b * d * D * f + a * d * e + c * b * e
  {
    Expand(c * f, e * d, a);
    Expand(c * e, d * f * D, b);
    Regroup(a, c, f);
    Regroup(a, d, e);
    Regroup(c, b, e);
    Regroup4(b, d, D, f);
  }

  /** `pow` is exponentiation: for exponents from 1 on, x^(m + n) == x^m * x^n. */
  lemma {:induction false} PowerAdd(x: Quad, m: int, n: int)
    requires m >= 1 && n >= 1
    ensures Power(x, m + n) == Mul(Power(x, m), Power(x, n))
    decreases n
  {
    PowerKeepsD(x, m);
    if n > 1 {
      PowerAdd(x, m, n - 1);
      PowerKeepsD(x, n - 1);
      MulAssoc(Power(x, m), Power(x, n - 1), x);
    }
  }

  /**
   * `calc_unit_pow(x, y, sigma)` (lines 37-43): the exponent table, by the parity of `x`
   * and `y` and the sign `sigma`. Python's `% 2` and Dafny's agree: both give 0 or 1.
   */
  function CalcUnitPow(x: int, y: int, sigma: int): (k: int)
    ensures k == 1 || k == 2 || k == 3 || k == 6
    ensures k == 1 <==> x % 2 == 0 && sigma == 1 && y % 2 == 0
    ensures k == 2 <==> x % 2 == 0 && (sigma != 1 || y % 2 == 1)
    ensures (k == 3 || k == 6) <==> x % 2 == 1
    ensures k == 6 <==> x % 2 == 1 && sigma != 1
  {
    if x % 2 == 0 then
      (if sigma == 1 then (if y % 2 == 0 then 1 else 2) else 2)
    else
      (if sigma == 1 then 3 else 6)
  }
}
