/** The inverse chi-square distribution with nu degrees of freedom on
    (0, +inf): the Lower tail at x is the regularised upper incomplete gamma
    function Q(nu/2, 1/(2x)). */
module InverseChiSquare {
  import opened ExtReal
  import opened Numerics
  import opened Wrappers
  import opened RealArith

  datatype InverseChiSquare = InverseChiSquare(nu: real)

  predicate Valid(d: InverseChiSquare)
  {
    d.nu > 0.0
  }

  /** The constructor: the degrees of freedom must be positive. */
  function Create(nu: real): (r: Result<InverseChiSquare>)
    ensures r.Ok? <==> nu > 0.0
    ensures r.Ok? ==> Valid(r.value) && r.value.nu == nu
  {
    if nu > 0.0 then Ok(InverseChiSquare(nu)) else Invalid("nu")
  }

  /** nu/2, the shape of the underlying gamma functions. */
  function HalfNu(d: InverseChiSquare): (r: real)
    requires Valid(d)
    ensures r > 0.0
  {
    d.nu * 0.5
  }

  /** nu/2 + 1, the power of x in the density, cached by the constructor. */
  function C(d: InverseChiSquare): real
  {
    d.nu * 0.5 + 1.0
  }

  /** nu/2 + lb Gamma(nu/2), the log2 normaliser cached by the constructor. */
  function PdfLogNorm(d: InverseChiSquare, k: Kernels): XReal
  {
    Add(Finite(d.nu * 0.5), Mul(k.logGamma(Finite(d.nu * 0.5)), Finite(k.lbE)))
  }

  /** The exponent -c lb x - lb e / (2x) - lognorm of the density. */
  function PdfExponent(d: InverseChiSquare, x: XReal, k: Kernels): XReal
  {
    Sub(Sub(Mul(Finite(-C(d)), k.log2(x)), Div(Finite(k.lbE), Mul(Finite(2.0), x))), PdfLogNorm(d, k))
  }

  /** NaN at NaN; 0 at and below 0 and at +inf; otherwise
      2^(-c lb x - lb e / (2x) - lognorm). */
  function PDF(d: InverseChiSquare, x: XReal, k: Kernels): (r: XReal)
    requires Valid(d)
    ensures x.NaN? ==> r.NaN?
    ensures Le(x, Zero) || x.PosInf? ==> r == Zero
  {
    if x.NaN? then NaN
    else if Le(x, Zero) || x.PosInf? then Zero
    else k.pow2(PdfExponent(d, x, k))
  }

  /** The argument 1/(2x) of the incomplete gamma functions. */
  function GammaArg(x: XReal): XReal
  {
    Div(One, Mul(Finite(2.0), x))
  }

  /** Lower: Q(nu/2, 1/(2x)); Upper: P(nu/2, 1/(2x)); each exact at and
      below 0. Where the gamma function fails with NaN the tail is read off
      as a step at the mean: 0 or 1 according as x lies below it (a NaN mean,
      for nu <= 2, compares false). */
  function CDF(d: InverseChiSquare, x: XReal, interval: Interval, k: Kernels): (r: XReal)
    requires Valid(d)
    ensures x.NaN? ==> r.NaN?
    ensures Le(x, Zero) ==> r == (if interval.Lower? then Zero else One)
    ensures !x.NaN? ==> !r.NaN?
  {
    if x.NaN? then NaN
    else
      var u := GammaArg(x);
      if interval.Lower? then
        if Le(x, Zero) then Zero
        else
          var cdf := k.upperIncGamma(Finite(HalfNu(d)), u);
          if cdf.NaN? then (if Lt(x, Mean(d)) then Zero else One) else cdf
      else
        if Le(x, Zero) then One
        else
          var cdf := k.lowerIncGamma(Finite(HalfNu(d)), u);
          if cdf.NaN? then (if Lt(x, Mean(d)) then One else Zero) else cdf
  }

  /** The quantile: NaN outside [0, 1]; 1/(2 Q^-1(nu/2, p)) for the Lower
      tail and 1/(2 P^-1(nu/2, p)) for the Upper one. */
  function Quantile(d: InverseChiSquare, p: XReal, interval: Interval, k: Kernels): (r: XReal)
    requires Valid(d)
    ensures !InRangeUnit(p) ==> r.NaN?
  {
    if !InRangeUnit(p) then NaN
    else if interval.Lower? then Div(Half, k.invUpperIncGamma(Finite(HalfNu(d)), p))
    else Div(Half, k.invLowerIncGamma(Finite(HalfNu(d)), p))
  }

  /** The support [0, +inf). */
  function Support(d: InverseChiSquare): (XReal, XReal)
  {
    (Zero, PosInf)
  }

  /** 1/(nu - 2), defined for nu > 2. */
  function Mean(d: InverseChiSquare): (r: XReal)
    requires Valid(d)
    ensures r.Finite? <==> d.nu > 2.0
    ensures r.Finite? ==> r.v > 0.0
    ensures !r.Finite? ==> r.NaN?
  {
    if d.nu > 2.0 then Finite(1.0 / (d.nu - 2.0)) else NaN
  }

  /** The quantile at 1/2: both tails are 1/2 there. */
  function Median(d: InverseChiSquare, k: Kernels): (r: XReal)
    requires Valid(d)
    ensures IncGammaInverseLaws(k) && IncGammaComplement(k) ==>
      CDF(d, r, Lower, k) == Half && CDF(d, r, Upper, k) == Half
  {
    var r := Quantile(d, Half, Lower, k);
    assert IncGammaInverseLaws(k) && IncGammaComplement(k) ==>
      CDF(d, r, Lower, k) == Half && CDF(d, r, Upper, k) == Half by {
      if IncGammaInverseLaws(k) && IncGammaComplement(k) {
        QuantileRoundTripLower(d, Half, k);
        CDFComplement(d, r, k);
        var up := CDF(d, r, Upper, k);
        assert Add(Half, up) == One;
      }
    }
    r
  }

  /** 1/(nu + 2) */
  function Mode(d: InverseChiSquare): (r: real)
    requires Valid(d)
    ensures r > 0.0
  {
    1.0 / (d.nu + 2.0)
  }

  /** 2/((nu - 2)^2 (nu - 4)), defined for nu > 4. */
  function Variance(d: InverseChiSquare): (r: XReal)
    requires Valid(d)
    ensures r.Finite? <==> d.nu > 4.0
    ensures r.Finite? ==> r.v > 0.0
    ensures !r.Finite? ==> r.NaN?
  {
    if d.nu > 4.0 then
      var s := d.nu - 2.0;
      var s2 := s * s;
      SquarePositive(s, s2);
      ProductPositive(s2, d.nu - 4.0);
      QuotientPositive(2.0, s2 * (d.nu - 4.0));
      Finite(2.0 / (s2 * (d.nu - 4.0)))
    else NaN
  }

  /** 4 sqrt(2 (nu - 4)) / (nu - 6), defined for nu > 6. */
  function Skewness(d: InverseChiSquare, k: Kernels): (r: XReal)
    requires Valid(d)
    ensures d.nu <= 6.0 ==> r.NaN?
    ensures SqrtLaw(k) && d.nu > 6.0 ==> r.Finite? && r.v > 0.0
  {
    if d.nu > 6.0 then
      var s := k.sqrt(Finite(2.0 * (d.nu - 4.0)));
      var r := Div(Mul(Finite(4.0), s), Finite(d.nu - 6.0));
      assert SqrtLaw(k) ==> r.Finite? && r.v > 0.0 by {
        if SqrtLaw(k) {
          SkewnessPositive(s, 2.0 * (d.nu - 4.0), d.nu - 6.0);
        }
      }
      r
    else NaN
  }

  /** 12 (5 nu - 22) / ((nu - 6)(nu - 8)), defined for nu > 8. */
  function Kurtosis(d: InverseChiSquare): (r: XReal)
    requires Valid(d)
    ensures r.Finite? <==> d.nu > 8.0
    ensures r.Finite? ==> r.v > 0.0
    ensures !r.Finite? ==> r.NaN?
  {
    if d.nu > 8.0 then
      ProductPositive(d.nu - 6.0, d.nu - 8.0);
      QuotientPositive(12.0 * (5.0 * d.nu - 22.0), (d.nu - 6.0) * (d.nu - 8.0));
      Finite(12.0 * (5.0 * d.nu - 22.0) / ((d.nu - 6.0) * (d.nu - 8.0)))
    else NaN
  }

  /** nu/2 + log(nu/2 Gamma(nu/2)) - (1 + nu/2) digamma(nu/2) - log nu */
  function Entropy(d: InverseChiSquare, k: Kernels): XReal
    requires Valid(d)
  {
    var h := Finite(HalfNu(d));
    Sub(Sub(Add(h, k.log(Mul(h, k.gammaFn(h)))), Mul(Add(One, h), k.digamma(h))), k.log(Finite(d.nu)))
  }

  // ---------------------------------------------------------------------
  // Helpers

  /** 4 s / c is a positive real when s is the non-negative root of y > 0. */
  lemma SkewnessPositive(s: XReal, y: real, c: real)
    requires s.Finite? && s.v >= 0.0 && s.v * s.v == y && y > 0.0 && c > 0.0
    ensures Div(Mul(Finite(4.0), s), Finite(c)).Finite?
    ensures Div(Mul(Finite(4.0), s), Finite(c)).v > 0.0
  {
    RootPositive(s.v, y);
    assert Mul(Finite(4.0), s) == Finite(4.0 * s.v);
    QuotientPositive(4.0 * s.v, c);
  }

  /** For g > 0, x = 1/2 / g is positive and 1/(2x) = g. */
  lemma HalfOverInverse(g: real)
    requires g > 0.0
    ensures 0.5 / g > 0.0
    ensures 1.0 / (2.0 * (0.5 / g)) == g
  {
    assert 2.0 * (0.5 / g) == 1.0 / g;
  }

  /** At x = 1/2 / g, with g a positive real, the gamma argument is g. */
  lemma GammaArgAtQuantile(g: XReal)
    requires g.Finite? && g.v > 0.0
    ensures Div(Half, g).Finite? && Div(Half, g).v > 0.0
    ensures GammaArg(Div(Half, g)) == g
  {
    HalfOverInverse(g.v);
    assert Div(Half, g) == Finite(0.5 / g.v);
    assert Mul(Finite(2.0), Finite(0.5 / g.v)) == Finite(2.0 * (0.5 / g.v));
  }

  // ---------------------------------------------------------------------
  // Properties

  /** The two tails sum to exactly 1 at every non-NaN argument, the NaN
      fallbacks of the gamma functions included: both fail together, and
      the two steps at the mean are complementary. */
  lemma CDFComplement(d: InverseChiSquare, x: XReal, k: Kernels)
    requires Valid(d) && !x.NaN? && IncGammaComplement(k)
    ensures Add(CDF(d, x, Lower, k), CDF(d, x, Upper, k)) == One
  {
    if !Le(x, Zero) {
      var a := Finite(HalfNu(d));
      var u := GammaArg(x);
      var lo := k.lowerIncGamma(a, u);
      var up := k.upperIncGamma(a, u);
      assert lo.NaN? <==> up.NaN?;
      if !lo.NaN? {
        assert lo.Finite? && up.Finite? && lo.v + up.v == 1.0;
        assert Add(up, lo) == Finite(up.v + lo.v);
      }
    }
  }

  /** The Lower quantile inverts the Lower tail on (0, 1). */
  lemma QuantileRoundTripLower(d: InverseChiSquare, p: XReal, k: Kernels)
    requires Valid(d) && p.Finite? && 0.0 < p.v < 1.0 && IncGammaInverseLaws(k)
    ensures Quantile(d, p, Lower, k).Finite? && Quantile(d, p, Lower, k).v > 0.0
    ensures CDF(d, Quantile(d, p, Lower, k), Lower, k) == p
  {
    var g := k.invUpperIncGamma(Finite(HalfNu(d)), p);
    assert g.Finite? && g.v > 0.0;
    GammaArgAtQuantile(g);
    assert k.upperIncGamma(Finite(HalfNu(d)), g) == p;
  }

  /** The Upper quantile inverts the Upper tail on (0, 1). */
  lemma QuantileRoundTripUpper(d: InverseChiSquare, p: XReal, k: Kernels)
    requires Valid(d) && p.Finite? && 0.0 < p.v < 1.0 && IncGammaInverseLaws(k)
    ensures Quantile(d, p, Upper, k).Finite? && Quantile(d, p, Upper, k).v > 0.0
    ensures CDF(d, Quantile(d, p, Upper, k), Upper, k) == p
  {
    var g := k.invLowerIncGamma(Finite(HalfNu(d)), p);
    assert g.Finite? && g.v > 0.0;
    GammaArgAtQuantile(g);
    assert k.lowerIncGamma(Finite(HalfNu(d)), g) == p;
  }

  /** Where the incomplete gamma functions fail with NaN at a positive x,
      the tails are decided by the side of the mean x lies on; without a
      mean (nu <= 2) the Lower tail is always 1 and the Upper tail 0. */
  lemma NaNFallback(d: InverseChiSquare, x: real, k: Kernels)
    requires Valid(d) && x > 0.0
    requires k.upperIncGamma(Finite(HalfNu(d)), GammaArg(Finite(x))).NaN?
    requires k.lowerIncGamma(Finite(HalfNu(d)), GammaArg(Finite(x))).NaN?
    ensures var below := d.nu > 2.0 && x * (d.nu - 2.0) < 1.0;
      && CDF(d, Finite(x), Lower, k) == (if below then Zero else One)
      && CDF(d, Finite(x), Upper, k) == (if below then One else Zero)
  {
    BelowMean(d, x);
  }

  /** x lies below the mean exactly when the mean exists and x (nu - 2) < 1. */
  lemma BelowMean(d: InverseChiSquare, x: real)
    requires Valid(d)
    ensures Lt(Finite(x), Mean(d)) <==> d.nu > 2.0 && x * (d.nu - 2.0) < 1.0
  {
    if d.nu > 2.0 {
      BelowReciprocal(x, d.nu - 2.0);
    }
  }

  /** The mode lies below the mean wherever the mean exists. */
  lemma ModeBelowMean(d: InverseChiSquare)
    requires Valid(d) && d.nu > 2.0
    ensures Mode(d) < Mean(d).v
  {
    QuotientStrictAntitone(1.0, d.nu - 2.0, d.nu + 2.0);
  }

  /** On (0, +inf) the density is a positive real. */
  lemma PDFPositive(d: InverseChiSquare, x: XReal, k: Kernels)
    requires Valid(d) && x.Finite? && x.v > 0.0
    requires Pow2Law(k) && PowLaws(k) && Log2Finite(k) && LogGammaFinite(k)
    ensures PDF(d, x, k).Finite? && PDF(d, x, k).v > 0.0
  {
    assert k.log2(x).Finite?;
    assert k.logGamma(Finite(d.nu * 0.5)).Finite?;
    assert Mul(Finite(2.0), x) == Finite(2.0 * x.v);
    var e := PdfExponent(d, x, k);
    assert e.Finite?;
    assert k.pow2(e) == k.pow(Finite(2.0), e);
  }
}
