/** The Rayleigh distribution with scale sigma on [0, +inf): the Upper tail
    is exp(-x^2 / (2 sigma^2)). */
module Rayleigh {
  import opened ExtReal
  import opened Numerics
  import opened Wrappers
  import opened RealArith

  datatype Rayleigh = Rayleigh(sigma: real)

  predicate Valid(d: Rayleigh)
  {
    d.sigma > 0.0
  }

  /** The constructor: the scale must be positive; the parameterless form is
      Create(1). */
  function Create(sigma: real): (r: Result<Rayleigh>)
    ensures r.Ok? <==> sigma > 0.0
    ensures r.Ok? ==> Valid(r.value) && r.value.sigma == sigma
  {
    if sigma > 0.0 then Ok(Rayleigh(sigma)) else Invalid("sigma")
  }

  /** sigma^2, cached by the constructor. */
  function SigmaSq(d: Rayleigh): (r: real)
    requires Valid(d)
    ensures r > 0.0
  {
    SquarePositive(d.sigma, d.sigma * d.sigma);
    d.sigma * d.sigma
  }

  /** The exponent -x x / (2 sigma^2) shared by the density and both tails. */
  function Exponent(d: Rayleigh, x: XReal): XReal
    requires Valid(d)
  {
    Div(Mul(Neg(x), x), Finite(2.0 * SigmaSq(d)))
  }

  /** The density as the source writes it: 0 below 0 and at NaN, and
      x / sigma^2 exp(-x^2 / (2 sigma^2)) elsewhere — which at +inf is
      +inf times 0. */
  function PDFAsWritten(d: Rayleigh, x: XReal, k: Kernels): (r: XReal)
    requires Valid(d)
    ensures IsNegative(x) || x.NaN? ==> r == Zero
  {
    if IsNegative(x) then Zero
    else
      var pdf := Mul(Div(x, Finite(SigmaSq(d))), k.exp(Exponent(d, x)));
      if x.NaN? then Zero else pdf
  }

  /** The density with the limit 0 at +inf added. */
  function PDF(d: Rayleigh, x: XReal, k: Kernels): (r: XReal)
    requires Valid(d)
    ensures IsNegative(x) || x.NaN? || x.PosInf? ==> r == Zero
  {
    if x.PosInf? then Zero else PDFAsWritten(d, x, k)
  }

  /** Lower: 1 - exp(-x^2 / (2 sigma^2)); Upper: exp(-x^2 / (2 sigma^2));
      each exact at and below 0. */
  function CDF(d: Rayleigh, x: XReal, interval: Interval, k: Kernels): (r: XReal)
    requires Valid(d)
    ensures Le(x, Zero) ==> r == (if interval.Lower? then Zero else One)
  {
    if interval.Lower? then
      if Le(x, Zero) then Zero else Sub(One, k.exp(Exponent(d, x)))
    else
      if Le(x, Zero) then One else k.exp(Exponent(d, x))
  }

  /** The quantile: NaN outside [0, 1]; sigma sqrt(-2 log1p(-p)) for the
      Lower tail and sigma sqrt(-2 log p) for the Upper one. */
  function Quantile(d: Rayleigh, p: XReal, interval: Interval, k: Kernels): (r: XReal)
    requires Valid(d)
    ensures !InRangeUnit(p) ==> r.NaN?
  {
    if !InRangeUnit(p) then NaN
    else if interval.Lower? then Mul(Finite(d.sigma), k.sqrt(Mul(Finite(-2.0), k.log1p(Neg(p)))))
    else Mul(Finite(d.sigma), k.sqrt(Mul(Finite(-2.0), k.log(p))))
  }

  /** The support [0, +inf). */
  function Support(d: Rayleigh): (XReal, XReal)
  {
    (Zero, PosInf)
  }

  /** sigma sqrt(pi/2) */
  function Mean(d: Rayleigh, k: Kernels): (r: XReal)
    requires Valid(d)
    ensures SqrtLaw(k) && PiBounds(k) ==> r.Finite? && r.v > Mode(d)
  {
    var s := k.sqrt(Finite(k.pi / 2.0));
    var r := Mul(Finite(d.sigma), s);
    assert SqrtLaw(k) && PiBounds(k) ==> r.Finite? && r.v > Mode(d) by {
      if SqrtLaw(k) && PiBounds(k) {
        ScaledRootAbove(d.sigma, s, k.pi / 2.0);
      }
    }
    r
  }

  /** sigma sqrt(2 ln 2), with ln 2 the logarithm kernel at 2: the quantile at
      1/2 of either tail. */
  function Median(d: Rayleigh, k: Kernels): (r: XReal)
    requires Valid(d)
    ensures k.log(Half) == Neg(k.log(Finite(2.0))) && k.log(Finite(2.0)).Finite? && Log1pLaw(k) ==>
      r == Quantile(d, Half, Upper, k) && r == Quantile(d, Half, Lower, k)
  {
    var l2 := k.log(Finite(2.0));
    var r := Mul(Finite(d.sigma), k.sqrt(Mul(Finite(2.0), l2)));
    assert k.log(Half) == Neg(l2) && l2.Finite? && Log1pLaw(k) ==>
      r == Quantile(d, Half, Upper, k) && r == Quantile(d, Half, Lower, k) by {
      if k.log(Half) == Neg(l2) && l2.Finite? && Log1pLaw(k) {
        assert Mul(Finite(-2.0), k.log(Half)) == Mul(Finite(2.0), l2);
        assert Neg(Half) == Finite(-0.5);
        assert k.log1p(Finite(-0.5)) == k.log(Finite(1.0 + -0.5));
        assert Finite(1.0 + -0.5) == Half;
      }
    }
    r
  }

  /** The mode is sigma. */
  function Mode(d: Rayleigh): real
    requires Valid(d)
  {
    d.sigma
  }

  /** (4 - pi)/2 sigma^2 */
  function Variance(d: Rayleigh, k: Kernels): (r: real)
    requires Valid(d)
    ensures PiBounds(k) ==> r > 0.0
  {
    var r := (4.0 - k.pi) / 2.0 * SigmaSq(d);
    assert PiBounds(k) ==> r > 0.0 by {
      if PiBounds(k) { ProductPositive((4.0 - k.pi) / 2.0, SigmaSq(d)); }
    }
    r
  }

  /** 2 sqrt(pi) (pi - 3) / sqrt(4 - pi)^3, positive. */
  function Skewness(k: Kernels): (r: XReal)
    ensures SqrtLaw(k) && PiBounds(k) ==> r.Finite? && r.v > 0.0
  {
    var a := k.sqrt(Finite(k.pi as real));
    var b := k.sqrt(Finite(4.0 - k.pi));
    var r := Div(Mul(Mul(Finite(2.0), a), Finite(k.pi - 3.0)), Mul(Mul(b, b), b));
    assert SqrtLaw(k) && PiBounds(k) ==> r.Finite? && r.v > 0.0 by {
      if SqrtLaw(k) && PiBounds(k) {
        RootPositive(a.v, k.pi as real);
        RootPositive(b.v, 4.0 - k.pi);
        SkewnessPositive(a, b, k.pi - 3.0);
      }
    }
    r
  }

  /** (-16 + pi (24 - 6 pi)) / (4 - pi)^2, positive (the law is leptokurtic). */
  function Kurtosis(k: Kernels): (r: XReal)
    ensures PiDigits(k) ==> r.Finite? && r.v > 0.0
  {
    var num := -16.0 + k.pi * (24.0 + k.pi * -6.0);
    var den := (4.0 - k.pi) * (4.0 - k.pi);
    var r := Div(Finite(num), Finite(den));
    assert PiDigits(k) ==> r.Finite? && r.v > 0.0 by {
      if PiDigits(k) {
        KurtosisNumeratorPositive(k.pi);
        ProductPositive(4.0 - k.pi, 4.0 - k.pi);
        QuotientPositive(num, den);
      }
    }
    r
  }

  /** 1 + log(sigma / sqrt 2) + EulerGamma / 2 */
  function Entropy(d: Rayleigh, k: Kernels): XReal
    requires Valid(d)
  {
    Add(Add(One, k.log(Div(Finite(d.sigma), k.sqrt(Finite(2.0))))), Finite(k.eulerGamma / 2.0))
  }

  // ---------------------------------------------------------------------
  // Arithmetic helpers

  /** -16 + 24 pi - 6 pi^2 decreases past pi = 2 and is 0.065 at 3.15, so it
      is positive for pi below 3.15: the difference from its value at 3.15
      factors as (pi - 3.15)(24 - 6 (pi + 3.15)), a product of two negatives. */
  lemma KurtosisNumeratorPositive(pi: real)
    requires 3.14 < pi < 3.15
    ensures -16.0 + pi * (24.0 + pi * -6.0) > 0.0
  {
    var a := 3.15 - pi;
    var b := 6.0 * (pi + 3.15) - 24.0;
    ProductPositive(a, b);
    assert -16.0 + pi * (24.0 + pi * -6.0) == 0.065 + a * b;
  }

  /** sigma s > sigma when s is the non-negative square root of a value
      above 1. */
  lemma ScaledRootAbove(sigma: real, s: XReal, y: real)
    requires sigma > 0.0 && y > 1.0
    requires s.Finite? && s.v >= 0.0 && s.v * s.v == y
    ensures Mul(Finite(sigma), s).Finite? && Mul(Finite(sigma), s).v > sigma
  {
    RootAboveOne(s.v, y);
    ProductPositive(sigma, s.v - 1.0);
    assert Mul(Finite(sigma), s) == Finite(sigma * s.v);
  }

  /** 2 a c / b^3 is a positive real for positive reals a, b, c. */
  lemma SkewnessPositive(a: XReal, b: XReal, c: real)
    requires a.Finite? && b.Finite? && a.v > 0.0 && b.v > 0.0 && c > 0.0
    ensures Div(Mul(Mul(Finite(2.0), a), Finite(c)), Mul(Mul(b, b), b)).Finite?
    ensures Div(Mul(Mul(Finite(2.0), a), Finite(c)), Mul(Mul(b, b), b)).v > 0.0
  {
    ProductPositive(2.0 * a.v, c);
    var b2 := b.v * b.v;
    SquarePositive(b.v, b2);
    var b3 := b2 * b.v;
    ProductPositive(b2, b.v);
    assert Mul(Mul(Finite(2.0), a), Finite(c)) == Finite(2.0 * a.v * c);
    assert Mul(Mul(b, b), b) == Finite(b3);
    QuotientPositive(2.0 * a.v * c, b3);
  }

  /** With x = sigma s and s^2 = -2 l, the exponent -x^2/(2 sigma^2) is l. */
  lemma ExponentOfScaledRoot(sigma: real, sq: real, s: real, l: real)
    requires sq > 0.0 && sq == sigma * sigma && s * s == -2.0 * l
    ensures -(sigma * s) * (sigma * s) / (2.0 * sq) == l
  {
    assert (sigma * s) * (sigma * s) == sq * (s * s);
    var num := -(sigma * s) * (sigma * s);
    assert num == (2.0 * sq) * l;
  }

  // ---------------------------------------------------------------------
  // Properties

  /** At +inf the density as written is NaN, not its limit 0. */
  lemma PDFAsWrittenNaNAtInfinity(d: Rayleigh, k: Kernels)
    requires Valid(d) && ExpLaws(k)
    ensures PDFAsWritten(d, PosInf, k).NaN?
    ensures PDF(d, PosInf, k) == Zero
  {
    assert Exponent(d, PosInf) == NegInf;
  }

  /** The corrected density is a non-negative real everywhere, positive
      exactly on (0, +inf). */
  lemma PDFNonNegative(d: Rayleigh, x: XReal, k: Kernels)
    requires Valid(d) && ExpLaws(k)
    ensures PDF(d, x, k).Finite? && PDF(d, x, k).v >= 0.0
    ensures PDF(d, x, k).v > 0.0 <==> x.Finite? && x.v > 0.0
  {
    if x.Finite? && x.v >= 0.0 {
      DensityInside(d, x.v, k);
    }
  }

  /** 0 / b = 0. */
  lemma ZeroQuotient(a: real, b: real)
    requires a == 0.0 && b > 0.0
    ensures a / b == 0.0
  {
  }

  /** At a real x the exponential factor is a positive real. */
  lemma ExponentFinite(d: Rayleigh, x: real, k: Kernels) returns (w: XReal)
    requires Valid(d) && ExpLaws(k)
    ensures w == k.exp(Exponent(d, Finite(x))) && w.Finite? && w.v > 0.0
  {
    assert Mul(Neg(Finite(x)), Finite(x)) == Finite(-x * x);
    assert Exponent(d, Finite(x)) == Finite(-x * x / (2.0 * SigmaSq(d)));
    w := k.exp(Exponent(d, Finite(x)));
  }

  /** At a real x >= 0 the density is a non-negative real, positive when
      x > 0. */
  lemma DensityInside(d: Rayleigh, x: real, k: Kernels)
    requires Valid(d) && ExpLaws(k) && x >= 0.0
    ensures PDF(d, Finite(x), k).Finite? && PDF(d, Finite(x), k).v >= 0.0
    ensures PDF(d, Finite(x), k).v > 0.0 <==> x > 0.0
  {
    var w := ExponentFinite(d, x, k);
    var q := x / SigmaSq(d);
    assert Div(Finite(x), Finite(SigmaSq(d))) == Finite(q);
    assert PDF(d, Finite(x), k) == Mul(Finite(q), w);
    QuotientSign(x, SigmaSq(d));
    ScaledByPositive(q, w);
  }

  /** x / s is non-negative for x >= 0 and s > 0, and positive exactly when
      x is. */
  lemma QuotientSign(x: real, s: real)
    requires x >= 0.0 && s > 0.0
    ensures x / s >= 0.0 && (x / s > 0.0 <==> x > 0.0)
  {
    if x > 0.0 {
      QuotientPositive(x, s);
    } else {
      ZeroQuotient(x, s);
    }
  }

  /** q w for q >= 0 and a positive real w is a non-negative real, positive
      exactly when q is. */
  lemma ScaledByPositive(q: real, w: XReal)
    requires q >= 0.0 && w.Finite? && w.v > 0.0
    ensures Mul(Finite(q), w).Finite? && Mul(Finite(q), w).v >= 0.0
    ensures Mul(Finite(q), w).v > 0.0 <==> q > 0.0
  {
    if q > 0.0 {
      ProductPositive(q, w.v);
    }
  }

  /** Away from +inf the corrected density is the written one. */
  lemma PDFAgreesBelowInfinity(d: Rayleigh, x: XReal, k: Kernels)
    requires Valid(d) && !x.PosInf?
    ensures PDF(d, x, k) == PDFAsWritten(d, x, k)
  {
  }

  /** The two tails sum to exactly 1 at every non-NaN argument. */
  lemma CDFComplement(d: Rayleigh, x: XReal, k: Kernels)
    requires Valid(d) && !x.NaN? && ExpLaws(k)
    ensures Add(CDF(d, x, Lower, k), CDF(d, x, Upper, k)) == One
  {
    if !Le(x, Zero) {
      if x.Finite? {
        assert Mul(Neg(x), x) == Finite(-x.v * x.v);
        var e := k.exp(Exponent(d, x));
        assert e.Finite?;
        assert Sub(One, e) == Finite(1.0 - e.v);
      } else {
        assert Exponent(d, x) == NegInf;
      }
    }
  }

  /** For y in (0, 1]: x = sigma sqrt(-2 log y) is a non-negative real, 0
      exactly when y = 1, and exp(-x^2/(2 sigma^2)) = y when it is positive. */
  lemma ScaledRootOfLog(d: Rayleigh, y: real, k: Kernels) returns (x: real)
    requires Valid(d) && 0.0 < y <= 1.0 && ExpLaws(k) && LogLaws(k) && SqrtLaw(k)
    ensures Mul(Finite(d.sigma), k.sqrt(Mul(Finite(-2.0), k.log(Finite(y))))) == Finite(x)
    ensures x >= 0.0 && (x == 0.0 ==> y == 1.0)
    ensures x > 0.0 ==> k.exp(Exponent(d, Finite(x))) == Finite(y)
  {
    if y == 1.0 {
      x := ScaledRootAtOne(d, k);
    } else {
      x := ScaledRootBelowOne(d, y, k);
    }
  }

  lemma ScaledRootAtOne(d: Rayleigh, k: Kernels) returns (x: real)
    requires Valid(d) && ExpLaws(k) && LogLaws(k) && SqrtLaw(k)
    ensures Mul(Finite(d.sigma), k.sqrt(Mul(Finite(-2.0), k.log(One)))) == Finite(x)
    ensures x >= 0.0
    ensures x > 0.0 ==> k.exp(Exponent(d, Finite(x))) == One
  {
    assert Mul(Finite(-2.0), k.log(One)) == Zero;
    var s := k.sqrt(Zero);
    assert s.Finite? && s.v >= 0.0 && s.v * s.v == 0.0;
    x := d.sigma * s.v;
    assert Mul(Finite(d.sigma), s) == Finite(x);
    if s.v > 0.0 {
      ProductPositive(d.sigma, s.v);
      ExponentAtRoot(d, s.v, 0.0, x);
      assert k.exp(Zero) == One;
    } else {
      assert x == 0.0;
    }
  }

  lemma ScaledRootBelowOne(d: Rayleigh, y: real, k: Kernels) returns (x: real)
    requires Valid(d) && 0.0 < y < 1.0 && ExpLaws(k) && LogLaws(k) && SqrtLaw(k)
    ensures Mul(Finite(d.sigma), k.sqrt(Mul(Finite(-2.0), k.log(Finite(y))))) == Finite(x)
    ensures x > 0.0 && k.exp(Exponent(d, Finite(x))) == Finite(y)
  {
    var l := k.log(Finite(y));
    assert l.Finite? && l.v < 0.0;
    assert Mul(Finite(-2.0), l) == Finite(-2.0 * l.v);
    var s := k.sqrt(Finite(-2.0 * l.v));
    assert s.Finite? && s.v >= 0.0 && s.v * s.v == -2.0 * l.v;
    RootPositive(s.v, -2.0 * l.v);
    x := d.sigma * s.v;
    ProductPositive(d.sigma, s.v);
    ExponentAtRoot(d, s.v, l.v, x);
    assert Exponent(d, Finite(x)) == l;
  }

  /** The exponent at x = sigma s, with s^2 = -2 l, is l. */
  lemma ExponentAtRoot(d: Rayleigh, s: real, l: real, x: real)
    requires Valid(d) && s * s == -2.0 * l && x == d.sigma * s
    ensures Exponent(d, Finite(x)) == Finite(l)
  {
    ExponentOfScaledRoot(d.sigma, SigmaSq(d), s, l);
    assert Mul(Neg(Finite(x)), Finite(x)) == Finite(-x * x);
  }

  /** The Upper quantile inverts the Upper tail on (0, 1]. */
  lemma QuantileRoundTripUpper(d: Rayleigh, p: XReal, k: Kernels)
    requires Valid(d) && InRangeUnit(p) && p.v > 0.0
    requires ExpLaws(k) && LogLaws(k) && SqrtLaw(k)
    ensures CDF(d, Quantile(d, p, Upper, k), Upper, k) == p
  {
    var x := ScaledRootOfLog(d, p.v, k);
    assert Quantile(d, p, Upper, k) == Finite(x);
    if x == 0.0 { assert p == One; }
  }

  /** The Lower quantile inverts the Lower tail on [0, 1). */
  lemma QuantileRoundTripLower(d: Rayleigh, p: XReal, k: Kernels)
    requires Valid(d) && InRangeUnit(p) && p.v < 1.0
    requires ExpLaws(k) && LogLaws(k) && SqrtLaw(k) && Log1pLaw(k)
    ensures CDF(d, Quantile(d, p, Lower, k), Lower, k) == p
  {
    var x := LowerQuantileRoot(d, p, k);
    if x > 0.0 {
      assert Sub(One, Finite(1.0 - p.v)) == p;
    }
  }

  /** The Lower quantile at p in [0, 1) is the scaled root for 1 - p. */
  lemma LowerQuantileRoot(d: Rayleigh, p: XReal, k: Kernels) returns (x: real)
    requires Valid(d) && InRangeUnit(p) && p.v < 1.0
    requires ExpLaws(k) && LogLaws(k) && SqrtLaw(k) && Log1pLaw(k)
    ensures Quantile(d, p, Lower, k) == Finite(x)
    ensures x >= 0.0 && (x == 0.0 ==> p == Zero)
    ensures x > 0.0 ==> k.exp(Exponent(d, Finite(x))) == Finite(1.0 - p.v)
  {
    assert Neg(p) == Finite(-p.v);
    assert k.log1p(Finite(-p.v)) == k.log(Finite(1.0 + -p.v));
    assert 1.0 + -p.v == 1.0 - p.v;
    x := ScaledRootOfLog(d, 1.0 - p.v, k);
  }
}
