/** The power-function distribution with scale k and shape alpha on
    [0, 1/k]: the Lower tail is (k x)^alpha. */
module Power {
  import opened ExtReal
  import opened Numerics
  import opened Wrappers
  import opened RealArith

  datatype Power = Power(k: real, alpha: real)

  predicate Valid(d: Power)
  {
    d.k > 0.0 && d.alpha > 0.0
  }

  /** The constructor: both parameters must be positive. */
  function Create(k: real, alpha: real): (r: Result<Power>)
    ensures r.Ok? <==> k > 0.0 && alpha > 0.0
    ensures r.Ok? ==> Valid(r.value) && r.value == Power(k, alpha)
  {
    if !(k > 0.0) then Invalid("k")
    else if !(alpha > 0.0) then Invalid("alpha")
    else Ok(Power(k, alpha))
  }

  /** 1/k, the upper end of the support, cached by the constructor. */
  function KInv(d: Power): (r: real)
    requires Valid(d)
    ensures r > 0.0
  {
    1.0 / d.k
  }

  /** 1/alpha, cached by the constructor. */
  function AlphaInv(d: Power): (r: real)
    requires Valid(d)
    ensures r > 0.0
  {
    1.0 / d.alpha
  }

  /** lb alpha + alpha lb k, cached by the constructor. */
  function PdfLogNorm(d: Power, k: Kernels): XReal
  {
    Add(k.log2(Finite(d.alpha)), Mul(k.log2(Finite(d.k)), Finite(d.alpha)))
  }

  /** alpha k^alpha x^(alpha-1) on [0, 1/k], evaluated directly for
      alpha <= 2 and as 2^(lb alpha + alpha lb k + (alpha-1) lb x) above. */
  function PDF(d: Power, x: XReal, k: Kernels): (r: XReal)
    requires Valid(d)
    ensures IsNegative(x) || Gt(x, Finite(KInv(d))) ==> r == Zero
  {
    if IsNegative(x) || Gt(x, Finite(KInv(d))) then Zero
    else if d.alpha <= 2.0 then
      Mul(Mul(Finite(d.alpha), k.pow(Finite(d.k), Finite(d.alpha))), k.pow(x, Finite(d.alpha - 1.0)))
    else
      k.pow2(Add(PdfLogNorm(d, k), Mul(k.log2(x), Finite(d.alpha - 1.0))))
  }

  /** On (0, 1/k] both evaluations give the density alpha k^alpha x^(alpha-1):
      the binary-logarithm form used for alpha > 2 agrees with the direct one. */
  lemma PDFIsDirectDensity(d: Power, x: real, k: Kernels)
    requires Valid(d) && 0.0 < x <= KInv(d)
    requires Log2Finite(k) && Pow2AddLaw(k) && Pow2LogLaw(k) && PowLaws(k)
    ensures PDF(d, Finite(x), k)
            == Mul(Mul(Finite(d.alpha), k.pow(Finite(d.k), Finite(d.alpha))), k.pow(Finite(x), Finite(d.alpha - 1.0)))
  {
    if d.alpha > 2.0 {
      var la, lk, lx := k.log2(Finite(d.alpha)).v, k.log2(Finite(d.k)).v, k.log2(Finite(x)).v;
      var s := Sum(la, lk * d.alpha);
      assert PdfLogNorm(d, k) == Finite(s);
      assert Add(PdfLogNorm(d, k), Mul(k.log2(Finite(x)), Finite(d.alpha - 1.0))) == Finite(Sum(s, lx * (d.alpha - 1.0)));
      assert k.pow2(Finite(Sum(s, lx * (d.alpha - 1.0)))) == Mul(k.pow2(Finite(s)), k.pow2(Finite(lx * (d.alpha - 1.0))));
      assert k.pow2(Finite(s)) == Mul(k.pow2(Finite(la)), k.pow2(Finite(lk * d.alpha)));
      assert k.pow2(Mul(k.log2(Finite(d.alpha)), Finite(1.0))) == k.pow(Finite(d.alpha), Finite(1.0));
      assert k.pow2(Mul(k.log2(Finite(d.k)), Finite(d.alpha))) == k.pow(Finite(d.k), Finite(d.alpha));
      assert k.pow2(Mul(k.log2(Finite(x)), Finite(d.alpha - 1.0))) == k.pow(Finite(x), Finite(d.alpha - 1.0));
    }
  }

  /** The density is a positive real on (0, 1/k]. */
  lemma PDFPositive(d: Power, x: real, k: Kernels)
    requires Valid(d) && 0.0 < x <= KInv(d)
    requires Log2Finite(k) && Pow2AddLaw(k) && Pow2LogLaw(k) && PowLaws(k)
    ensures PDF(d, Finite(x), k).Finite? && PDF(d, Finite(x), k).v > 0.0
  {
    PDFIsDirectDensity(d, x, k);
    var a, b := k.pow(Finite(d.k), Finite(d.alpha)).v, k.pow(Finite(x), Finite(d.alpha - 1.0)).v;
    ProductPositive(d.alpha, a);
    ProductPositive(d.alpha * a, b);
  }

  /** Lower: (k x)^alpha; Upper: 1 - (k x)^alpha; each exact at and below 0
      and beyond 1/k. */
  function CDF(d: Power, x: XReal, interval: Interval, k: Kernels): (r: XReal)
    requires Valid(d)
    ensures Le(x, Zero) ==> r == (if interval.Lower? then Zero else One)
    ensures Gt(x, Finite(KInv(d))) ==> r == (if interval.Lower? then One else Zero)
  {
    if interval.Lower? then
      if Le(x, Zero) then Zero
      else if Gt(x, Finite(KInv(d))) then One
      else k.pow(Mul(Finite(d.k), x), Finite(d.alpha))
    else
      if Le(x, Zero) then One
      else if Gt(x, Finite(KInv(d))) then Zero
      else Sub(One, k.pow(Mul(Finite(d.k), x), Finite(d.alpha)))
  }

  /** The quantile: NaN outside [0, 1]; p^(1/alpha) / k for the Lower tail,
      and the Lower quantile at 1 - p for the Upper one. */
  function Quantile(d: Power, p: XReal, interval: Interval, k: Kernels): (r: XReal)
    requires Valid(d)
    ensures !InRangeUnit(p) ==> r.NaN?
    ensures InRangeUnit(p) && interval.Upper? ==> r == Quantile(d, Sub(One, p), Lower, k)
    decreases interval.Upper?
  {
    if !InRangeUnit(p) then NaN
    else if interval.Upper? then
      assert Sub(One, p) == Finite(1.0 - p.v);
      Quantile(d, Sub(One, p), Lower, k)
    else Mul(k.pow(p, Finite(AlphaInv(d))), Finite(KInv(d)))
  }

  /** The support [0, 1/k]. */
  function Support(d: Power): (XReal, XReal)
    requires Valid(d)
  {
    (Zero, Finite(KInv(d)))
  }

  /** alpha / (k (alpha + 1)) */
  function Mean(d: Power): (r: real)
    requires Valid(d)
    ensures 0.0 < r < KInv(d)
  {
    var den := d.k * (d.alpha + 1.0);
    ProductPositive(d.k, d.alpha + 1.0);
    QuotientPositive(d.alpha, den);
    MeanBelowEnd(d.k, d.alpha, den);
    d.alpha / den
  }

  /** 1 / (2^(1/alpha) k): inside the support, and the Lower tail there is 1/2. */
  function Median(d: Power, k: Kernels): (r: XReal)
    requires Valid(d)
    ensures Pow2Law(k) && PowLaws(k) ==> r.Finite? && 0.0 < r.v < KInv(d)
    ensures Pow2Law(k) && PowLaws(k) && PowRootLaw(k) && PowReciprocalBaseLaw(k) ==> CDF(d, r, Lower, k) == Half
  {
    var t := k.pow2(Finite(AlphaInv(d)));
    var r := Div(One, Mul(t, Finite(d.k)));
    assert Pow2Law(k) && PowLaws(k) ==> r.Finite? && 0.0 < r.v < KInv(d) by {
      if Pow2Law(k) && PowLaws(k) {
        assert t == k.pow(Finite(2.0), Finite(AlphaInv(d)));
        assert t.Finite? && t.v > 1.0;
        ProductPositive(t.v, d.k);
        assert Mul(t, Finite(d.k)) == Finite(t.v * d.k);
        ReciprocalBelow(t.v, d.k);
      }
    }
    assert Pow2Law(k) && PowLaws(k) && PowRootLaw(k) && PowReciprocalBaseLaw(k) ==> CDF(d, r, Lower, k) == Half by {
      if Pow2Law(k) && PowLaws(k) && PowRootLaw(k) && PowReciprocalBaseLaw(k) {
        assert t == k.pow(Finite(2.0), Finite(AlphaInv(d)));
        MedianTail(d, t.v, k);
      }
    }
    r
  }

  /** With t = 2^(1/alpha), the Lower tail at 1/(t k) is (1/t)^alpha = 1/2. */
  lemma MedianTail(d: Power, t: real, k: Kernels)
    requires Valid(d) && PowLaws(k) && PowRootLaw(k) && PowReciprocalBaseLaw(k)
    requires k.pow(Finite(2.0), Finite(AlphaInv(d))) == Finite(t)
    ensures t > 1.0
    ensures CDF(d, Div(One, Mul(Finite(t), Finite(d.k))), Lower, k) == Half
  {
    assert t > 1.0;
    ProductPositive(t, d.k);
    ReciprocalBelow(t, d.k);
    var r := 1.0 / (t * d.k);
    assert Div(One, Mul(Finite(t), Finite(d.k))) == Finite(r);
    assert d.k * r == 1.0 / t by {
      assert r * (t * d.k) == 1.0;
      assert (d.k * r) * t == 1.0;
    }
    assert Mul(Finite(d.k), Finite(r)) == Finite(1.0 / t);
    assert k.pow(k.pow(Finite(2.0), Finite(1.0 / d.alpha)), Finite(d.alpha)) == Finite(2.0);
    assert k.pow(Finite(t), Finite(d.alpha)) == Finite(2.0);
    var v := k.pow(Finite(1.0 / t), Finite(d.alpha));
    assert Mul(v, Finite(2.0)) == One;
    assert v == Half;
  }

  /** The source takes 1/k, the upper end of the support, as the mode. */
  function Mode(d: Power): real
    requires Valid(d)
  {
    KInv(d)
  }

  /** alpha / ((k (alpha + 1))^2 (alpha + 2)) */
  function Variance(d: Power): (r: real)
    requires Valid(d)
    ensures r > 0.0
  {
    var s := d.k * (d.alpha + 1.0);
    ProductPositive(d.k, d.alpha + 1.0);
    var s2 := s * s;
    SquarePositive(s, s2);
    ProductPositive(s2, d.alpha + 2.0);
    QuotientPositive(d.alpha, s2 * (d.alpha + 2.0));
    d.alpha / (s2 * (d.alpha + 2.0))
  }

  /** 2 (1 - alpha) sqrt((alpha + 2)/alpha) / (alpha + 3): its sign is the
      sign of 1 - alpha. */
  function Skewness(d: Power, k: Kernels): (r: XReal)
    requires Valid(d)
    ensures SqrtLaw(k) ==> r.Finite?
    ensures SqrtLaw(k) && d.alpha < 1.0 ==> r.v > 0.0
    ensures SqrtLaw(k) && d.alpha == 1.0 ==> r.v == 0.0
    ensures SqrtLaw(k) && d.alpha > 1.0 ==> r.v < 0.0
  {
    var q := (d.alpha + 2.0) * AlphaInv(d);
    ProductPositive(d.alpha + 2.0, AlphaInv(d));
    var s := k.sqrt(Finite(q));
    var r := Div(Mul(Finite(2.0 * (1.0 - d.alpha)), s), Finite(d.alpha + 3.0));
    assert SqrtLaw(k) ==> r.Finite? && (d.alpha < 1.0 ==> r.v > 0.0) && (d.alpha == 1.0 ==> r.v == 0.0)
                          && (d.alpha > 1.0 ==> r.v < 0.0) by {
      if SqrtLaw(k) {
        assert s.Finite? && s.v * s.v == q;
        SkewnessSign(d.alpha, s.v);
      }
    }
    r
  }

  /**
   * 6 (2 + alpha (-6 + alpha (-1 + alpha))) / (alpha (alpha + 3)(alpha + 4)):
   * above -2, the bound every excess kurtosis keeps, and -6/5, the uniform
   * law's, at alpha = 1.
   */
  function Kurtosis(d: Power): (r: real)
    requires Valid(d)
    ensures r > -2.0
    ensures d.alpha == 1.0 ==> r == -1.2
  {
    var a := d.alpha;
    var den := a * (a + 3.0) * (a + 4.0);
    ProductPositive(a, a + 3.0);
    ProductPositive(a * (a + 3.0), a + 4.0);
    var num := 6.0 * (2.0 + a * (-6.0 + a * (-1.0 + a)));
    var r := num / den;
    assert r > -2.0 by {
      KurtosisAboveBound(a, num, den);
      assert r * den == num;
      FactorPositive(den, r + 2.0, num + 2.0 * den);
    }
    r
  }

  /** num + 2 den = 8 a^3 + 8 (a - 3/4)^2 + 15/2 > 0. */
  lemma KurtosisAboveBound(a: real, num: real, den: real)
    requires a > 0.0
    requires num == 6.0 * (2.0 + a * (-6.0 + a * (-1.0 + a)))
    requires den == a * (a + 3.0) * (a + 4.0)
    ensures num + 2.0 * den > 0.0
  {
    var c := a * a * a;
    SquarePositive(a, a * a);
    ProductPositive(a * a, a);
    var e := (a - 0.75) * (a - 0.75);
    SquareNonNegative(a - 0.75);
    assert num + 2.0 * den == 8.0 * c + 8.0 * e + 7.5;
  }

  /** 1 - log(alpha k) - 1/alpha */
  function Entropy(d: Power, k: Kernels): XReal
    requires Valid(d)
  {
    Sub(Sub(One, k.log(Finite(d.alpha * d.k))), Finite(AlphaInv(d)))
  }

  // ---------------------------------------------------------------------
  // Arithmetic helpers

  /** alpha / (k (alpha + 1)) < 1/k. */
  lemma MeanBelowEnd(k: real, alpha: real, den: real)
    requires k > 0.0 && alpha > 0.0 && den == k * (alpha + 1.0)
    ensures alpha / den < 1.0 / k
  {
    assert alpha / den == (alpha / (alpha + 1.0)) * (1.0 / k);
    assert alpha / (alpha + 1.0) < 1.0 by {
      assert alpha / (alpha + 1.0) * (alpha + 1.0) == alpha;
      ProductCancelLt(alpha + 1.0, alpha / (alpha + 1.0), 1.0);
    }
    assert 1.0 / k > 0.0;
    assert (1.0 - alpha / (alpha + 1.0)) * (1.0 / k) > 0.0 by {
      ProductPositive(1.0 - alpha / (alpha + 1.0), 1.0 / k);
    }
  }

  /** 1/(t k) < 1/k for t > 1. */
  lemma ReciprocalBelow(t: real, k: real)
    requires t > 1.0 && k > 0.0
    ensures 0.0 < 1.0 / (t * k) < 1.0 / k
  {
    ProductPositive(t, k);
    QuotientAntitone(1.0, k, t * k);
    assert t * k > k by { assert (t - 1.0) * k > 0.0 by { ProductPositive(t - 1.0, k); } }
  }

  /** The sign of 2 (1 - alpha) s / (alpha + 3) for s > 0. */
  lemma SkewnessSign(alpha: real, s: real)
    requires alpha > 0.0 && s > 0.0
    ensures var r := 2.0 * (1.0 - alpha) * s / (alpha + 3.0);
      && (alpha < 1.0 ==> r > 0.0) && (alpha == 1.0 ==> r == 0.0) && (alpha > 1.0 ==> r < 0.0)
  {
    if alpha < 1.0 {
      ProductPositive(2.0 * (1.0 - alpha), s);
      QuotientPositive(2.0 * (1.0 - alpha) * s, alpha + 3.0);
    } else if alpha > 1.0 {
      ProductPositive(2.0 * (alpha - 1.0), s);
      QuotientPositive(2.0 * (alpha - 1.0) * s, alpha + 3.0);
      assert 2.0 * (1.0 - alpha) * s == -(2.0 * (alpha - 1.0) * s);
    }
  }

  /** k (q/k) = q, and q/k <= 1/k for q <= 1. */
  lemma ScaleBack(q: real, k: real)
    requires k > 0.0 && 0.0 <= q <= 1.0
    ensures k * (q * (1.0 / k)) == q
    ensures q * (1.0 / k) <= 1.0 / k
    ensures q > 0.0 ==> q * (1.0 / k) > 0.0
  {
    assert k * (q * (1.0 / k)) == q * (k * (1.0 / k));
    assert (1.0 - q) * (1.0 / k) >= 0.0;
  }

  // ---------------------------------------------------------------------
  // Properties

  /** The two tails sum to exactly 1 at every non-NaN argument. */
  lemma CDFComplement(d: Power, x: XReal, k: Kernels)
    requires Valid(d) && !x.NaN? && PowLaws(k)
    ensures Add(CDF(d, x, Lower, k), CDF(d, x, Upper, k)) == One
  {
    if !Le(x, Zero) && !Gt(x, Finite(KInv(d))) {
      assert x.Finite? && x.v > 0.0;
      ProductPositive(d.k, x.v);
      assert Mul(Finite(d.k), x) == Finite(d.k * x.v);
      var a := k.pow(Finite(d.k * x.v), Finite(d.alpha));
      assert a.Finite?;
      assert Sub(One, a) == Finite(1.0 - a.v);
    }
  }

  /** Within the support the Lower tail lies in (0, 1]. */
  lemma CDFRange(d: Power, x: XReal, k: Kernels)
    requires Valid(d) && x.Finite? && 0.0 < x.v <= KInv(d) && PowLaws(k)
    ensures CDF(d, x, Lower, k).Finite? && 0.0 < CDF(d, x, Lower, k).v <= 1.0
  {
    ProductPositive(d.k, x.v);
    assert d.k * x.v <= d.k * KInv(d) by {
      assert d.k * (KInv(d) - x.v) >= 0.0;
    }
    assert d.k * KInv(d) == 1.0;
    assert Mul(Finite(d.k), x) == Finite(d.k * x.v);
  }

  /** The Lower quantile maps [0, 1] onto the support, and the Lower tail
      maps it back: CDF(Quantile(p)) = p at every p in [0, 1], the ends
      included. */
  lemma QuantileRoundTripLower(d: Power, p: XReal, k: Kernels)
    requires Valid(d) && InRangeUnit(p) && PowLaws(k) && PowRootLaw(k)
    ensures Quantile(d, p, Lower, k).Finite?
    ensures 0.0 <= Quantile(d, p, Lower, k).v <= KInv(d)
    ensures CDF(d, Quantile(d, p, Lower, k), Lower, k) == p
  {
    if p.v == 0.0 {
      assert p == Zero;
      assert k.pow(Zero, Finite(AlphaInv(d))) == Zero;
      assert Mul(Zero, Finite(KInv(d))) == Finite(0.0 * KInv(d));
    } else {
      var q := k.pow(p, Finite(AlphaInv(d)));
      assert q.Finite? && 0.0 < q.v <= 1.0;
      ScaleBack(q.v, d.k);
      var x := q.v * KInv(d);
      assert Quantile(d, p, Lower, k) == Finite(x);
      assert Mul(Finite(d.k), Finite(x)) == q;
      assert k.pow(k.pow(Finite(p.v), Finite(1.0 / d.alpha)), Finite(d.alpha)) == p;
    }
  }

  /** The Upper quantile inverts the Upper tail at every p in [0, 1]. */
  lemma QuantileRoundTripUpper(d: Power, p: XReal, k: Kernels)
    requires Valid(d) && InRangeUnit(p) && PowLaws(k) && PowRootLaw(k)
    ensures CDF(d, Quantile(d, p, Upper, k), Upper, k) == p
  {
    var q := Sub(One, p);
    assert q == Finite(1.0 - p.v);
    QuantileRoundTripLower(d, q, k);
    var x := Quantile(d, q, Lower, k);
    CDFComplement(d, x, k);
    var up := CDF(d, x, Upper, k);
    assert Add(q, up) == One;
  }
}
