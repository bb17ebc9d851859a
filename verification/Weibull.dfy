/** The Weibull distribution with shape alpha, location mu and scale theta:
    a location-scale family supported on (mu, +inf). Every formula is written
    in the standardised variable u = (x - mu)/theta. */
module Weibull {
  import opened ExtReal
  import opened Numerics
  import opened Wrappers
  import opened LocationScale
  import opened RealArith

  datatype Weibull = Weibull(alpha: real, mu: real, theta: real)

  predicate Valid(d: Weibull)
  {
    d.alpha > 0.0 && d.theta > 0.0
  }

  /** The constructor: the shape and the scale must be positive. The
      two-argument form of the source is Create(alpha, 0, theta). */
  function Create(alpha: real, mu: real, theta: real): (r: Result<Weibull>)
    ensures r.Ok? <==> alpha > 0.0 && theta > 0.0
    ensures r.Ok? ==> Valid(r.value) && r.value == Weibull(alpha, mu, theta)
  {
    if !(alpha > 0.0) then Invalid("alpha")
    else if !(theta > 0.0) then Invalid("theta")
    else Ok(Weibull(alpha, mu, theta))
  }

  /** The density at the location itself, where u = 0: infinite for
      alpha < 1, 1/theta for alpha = 1 (the exponential case), 0 above. */
  function DensityAtLocation(d: Weibull): XReal
    requires Valid(d)
  {
    if d.alpha < 1.0 then PosInf else if d.alpha == 1.0 then Finite(1.0 / d.theta) else Zero
  }

  /** alpha/theta * exp(-u^alpha) * u^(alpha-1), evaluated as
      (alpha/theta) * 2^(-2^v lb e + v) / u with v = alpha lb u. At +inf the
      exponent is -inf + inf, so the source's density is NaN there. */
  function PDFAsWritten(d: Weibull, x: XReal, k: Kernels): (r: XReal)
    requires Valid(d)
    ensures Lt(x, Finite(d.mu)) ==> r == Zero
    ensures x.NaN? ==> r.NaN?
    ensures x == Finite(d.mu) ==> r == DensityAtLocation(d)
  {
    StandardizeSign(x, d.mu, d.theta);
    var u := Standardize(x, d.mu, d.theta);
    if IsNegative(u) then Zero
    else if u.NaN? then NaN
    else if Le(u, Zero) then DensityAtLocation(d)
    else
      var v := Mul(k.log2(u), Finite(d.alpha));
      Div(Mul(Finite(d.alpha / d.theta), k.pow2(Add(Mul(Neg(k.pow2(v)), Finite(k.lbE)), v))), u)
  }

  /** The density with the limit 0 at +inf added. */
  function PDF(d: Weibull, x: XReal, k: Kernels): (r: XReal)
    requires Valid(d)
    ensures Lt(x, Finite(d.mu)) ==> r == Zero
    ensures x.NaN? ==> r.NaN?
    ensures x == Finite(d.mu) ==> r == DensityAtLocation(d)
    ensures x.PosInf? ==> r == Zero
  {
    if x.PosInf? then Zero else PDFAsWritten(d, x, k)
  }

  /** As written, the density at +inf is NaN; the corrected one is 0. */
  lemma PDFAsWrittenNaNAtInfinity(d: Weibull, k: Kernels)
    requires Valid(d) && BinaryEnds(k)
    ensures PDFAsWritten(d, PosInf, k).NaN?
    ensures PDF(d, PosInf, k) == Zero
  {
    var u := Standardize(PosInf, d.mu, d.theta);
    assert u == PosInf;
    var v := Mul(k.log2(u), Finite(d.alpha));
    assert v == PosInf;
    assert Mul(Neg(k.pow2(v)), Finite(k.lbE)) == NegInf;
  }

  /** Beyond the location the density is a positive real. */
  lemma PDFPositive(d: Weibull, x: real, k: Kernels)
    requires Valid(d) && x > d.mu
    requires Log2Finite(k) && Pow2Law(k) && PowLaws(k)
    ensures PDF(d, Finite(x), k).Finite? && PDF(d, Finite(x), k).v > 0.0
  {
    StandardizeSign(Finite(x), d.mu, d.theta);
    var u := Standardize(Finite(x), d.mu, d.theta);
    assert !Le(u, Zero);
    var v := Mul(k.log2(u), Finite(d.alpha));
    assert k.pow2(v) == k.pow(Finite(2.0), v);
    var e := Add(Mul(Neg(k.pow2(v)), Finite(k.lbE)), v);
    assert k.pow2(e) == k.pow(Finite(2.0), e);
    QuotientPositive(d.alpha, d.theta);
    ProductPositive(d.alpha / d.theta, k.pow2(e).v);
    QuotientPositive(d.alpha / d.theta * k.pow2(e).v, u.v);
  }

  /** Lower: 1 - exp(-u^alpha), computed as -expm1(-u^alpha);
      Upper: exp(-u^alpha); both tails are exact at and below the location. */
  function CDF(d: Weibull, x: XReal, interval: Interval, k: Kernels): (r: XReal)
    requires Valid(d)
    ensures Le(x, Finite(d.mu)) ==> r == (if interval.Lower? then Zero else One)
  {
    StandardizeSign(x, d.mu, d.theta);
    var u := Standardize(x, d.mu, d.theta);
    if interval.Lower? then
      if Le(u, Zero) then Zero else Neg(k.expm1(Neg(k.pow(u, Finite(d.alpha)))))
    else
      if Le(u, Zero) then One else k.exp(Neg(k.pow(u, Finite(d.alpha))))
  }

  /** 1/alpha, the exponent of the root the quantile takes. */
  function InvAlpha(d: Weibull): (r: real)
    requires Valid(d)
    ensures r > 0.0 && r * d.alpha == 1.0
  {
    1.0 / d.alpha
  }

  /** The standardised quantile of a tail: (-log(1-p))^(1/alpha) for Lower,
      (-log p)^(1/alpha) for Upper. */
  function StandardQuantile(d: Weibull, p: XReal, interval: Interval, k: Kernels): XReal
    requires Valid(d)
  {
    if interval.Lower? then k.pow(Neg(k.log1p(Neg(p))), Finite(InvAlpha(d)))
    else k.pow(Neg(k.log(p)), Finite(InvAlpha(d)))
  }

  /** mu + theta times the standardised quantile. */
  function Unclamped(d: Weibull, p: XReal, interval: Interval, k: Kernels): XReal
    requires Valid(d)
  {
    Add(Finite(d.mu), Mul(StandardQuantile(d, p, interval, k), Finite(d.theta)))
  }

  /** The quantile exactly as the source computes it: NaN outside [0, 1],
      +inf at the far end of each tail, mu + u theta otherwise, and in the
      Upper tail a negative result is replaced by 0. */
  function QuantileAsWritten(d: Weibull, p: XReal, interval: Interval, k: Kernels): (r: XReal)
    requires Valid(d)
    ensures !InRangeUnit(p) ==> r.NaN?
    ensures InRangeUnit(p) && interval.Lower? && p == One ==> r == PosInf
    ensures InRangeUnit(p) && interval.Upper? && p == Zero ==> r == PosInf
    ensures interval.Upper? ==> !IsNegative(r)
  {
    if !InRangeUnit(p) then NaN
    else if interval.Lower? then
      if p == One then PosInf
      else Unclamped(d, p, Lower, k)
    else
      if p == Zero then PosInf
      else
        var x := Unclamped(d, p, Upper, k);
        if IsNegative(x) then Zero else x
  }

  /** The quantile with the Upper-tail clamp moved to the support minimum mu,
      where the density starts. */
  function Quantile(d: Weibull, p: XReal, interval: Interval, k: Kernels): (r: XReal)
    requires Valid(d)
    ensures !InRangeUnit(p) ==> r.NaN?
    ensures InRangeUnit(p) && interval.Lower? && p == One ==> r == PosInf
    ensures InRangeUnit(p) && interval.Upper? && p == Zero ==> r == PosInf
    ensures interval.Upper? ==> !Lt(r, Finite(d.mu))
  {
    if !InRangeUnit(p) then NaN
    else if interval.Lower? then
      if p == One then PosInf
      else Unclamped(d, p, Lower, k)
    else
      if p == Zero then PosInf
      else
        var x := Unclamped(d, p, Upper, k);
        if Lt(x, Finite(d.mu)) then Finite(d.mu) else x
  }

  /** The support (mu, +inf). */
  function Support(d: Weibull): (XReal, XReal)
  {
    (Finite(d.mu), PosInf)
  }

  /** mu for alpha <= 1, else mu + theta ((alpha-1)/alpha)^(1/alpha). */
  function Mode(d: Weibull, k: Kernels): (r: XReal)
    requires Valid(d)
    ensures d.alpha <= 1.0 ==> r == Finite(d.mu)
    ensures PowLaws(k) ==> r.Finite? && r.v >= d.mu
  {
    if d.alpha <= 1.0 then Finite(d.mu)
    else
      var w := k.pow(Finite((d.alpha - 1.0) / d.alpha), Finite(InvAlpha(d)));
      var r := Add(Finite(d.mu), Mul(Finite(d.theta), w));
      assert PowLaws(k) ==> r.Finite? && r.v >= d.mu by {
        if PowLaws(k) {
          assert (d.alpha - 1.0) / d.alpha > 0.0;
          assert w.Finite? && w.v > 0.0;
          ProductPositive(d.theta, w.v);
          assert Mul(Finite(d.theta), w) == Finite(d.theta * w.v);
        }
      }
      r
  }

  /** mu + theta Gamma(1 + 1/alpha): above the location, and mu + theta in
      the exponential case alpha = 1. */
  function Mean(d: Weibull, k: Kernels): (r: XReal)
    requires Valid(d)
    ensures GammaPositive(k) ==> r.Finite? && r.v > d.mu
    ensures d.alpha == 1.0 && GammaSmallIntegers(k) ==> r == Finite(d.mu + d.theta)
  {
    var g := k.gammaFn(Finite(1.0 + 1.0 / d.alpha));
    assert GammaPositive(k) ==> g.Finite? && d.theta * g.v > 0.0 by {
      if GammaPositive(k) {
        assert 1.0 / d.alpha > 0.0;
        ProductPositive(d.theta, g.v);
      }
    }
    assert d.alpha == 1.0 ==> g == k.gammaFn(Finite(2.0));
    Add(Finite(d.mu), Mul(Finite(d.theta), g))
  }

  /** mu + theta (log 2)^(1/alpha): both tails are 1/2 there. */
  function Median(d: Weibull, k: Kernels): (r: XReal)
    requires Valid(d)
    ensures LogLaws(k) && Expm1Law(k) && PowLaws(k) && PowRootLaw(k) && k.log(Half) == Neg(k.log(Finite(2.0))) ==>
              CDF(d, r, Lower, k) == Half && CDF(d, r, Upper, k) == Half
  {
    var r := Add(Finite(d.mu), Mul(Finite(d.theta), k.pow(k.log(Finite(2.0)), Finite(InvAlpha(d)))));
    assert LogLaws(k) && Expm1Law(k) && PowLaws(k) && PowRootLaw(k) && k.log(Half) == Neg(k.log(Finite(2.0))) ==>
             CDF(d, r, Lower, k) == Half && CDF(d, r, Upper, k) == Half by {
      if LogLaws(k) && Expm1Law(k) && PowLaws(k) && PowRootLaw(k) && k.log(Half) == Neg(k.log(Finite(2.0))) {
        var l := k.log(Half);
        assert l.Finite? && l.v < 0.0;
        ExpOfLogHalf(k, l);
        var w := MedianRoot(d, l, k);
        assert r == Finite(d.mu + w * d.theta);
      }
    }
    r
  }

  /** With l = log(1/2), so that -l = log 2, e^l = 1/2 and -expm1(l) = 1/2,
      w = (log 2)^(1/alpha) is a real at which both tails of mu + w theta
      are 1/2. */
  lemma MedianRoot(d: Weibull, l: XReal, k: Kernels) returns (w: real)
    requires Valid(d) && PowLaws(k) && PowRootLaw(k)
    requires l.Finite? && l.v < 0.0 && Neg(l) == k.log(Finite(2.0))
    requires k.exp(l) == Half && Neg(k.expm1(l)) == Half
    ensures k.pow(k.log(Finite(2.0)), Finite(InvAlpha(d))) == Finite(w)
    ensures Mul(Finite(d.theta), Finite(w)) == Finite(w * d.theta)
    ensures CDF(d, Finite(d.mu + w * d.theta), Lower, k) == Half && CDF(d, Finite(d.mu + w * d.theta), Upper, k) == Half
  {
    w := StandardRoot(d, l, k);
    TailsAtStandardPoint(d, w, k);
  }

  /** exp(log(1/2)) = 1/2 and -expm1(log(1/2)) = 1/2. */
  lemma ExpOfLogHalf(k: Kernels, l: XReal)
    requires LogLaws(k) && Expm1Law(k) && l == k.log(Half)
    ensures k.exp(l) == Half && Neg(k.expm1(l)) == Half
  {
    assert k.exp(k.log(Finite(0.5))) == Finite(0.5);
    assert Sub(Half, One) == Finite(-0.5);
  }

  /** theta^2 (Gamma(1 + 2/alpha) - Gamma(1 + 1/alpha)^2): theta^2 in the
      exponential case alpha = 1. */
  function Variance(d: Weibull, k: Kernels): (r: XReal)
    requires Valid(d)
    ensures d.alpha == 1.0 && GammaSmallIntegers(k) ==> r == Finite(d.theta * d.theta)
  {
    var r := GammaSpread(d.alpha, d.theta, k);
    assert d.alpha == 1.0 && GammaSmallIntegers(k) ==> r == Finite(d.theta * d.theta) by {
      if d.alpha == 1.0 && GammaSmallIntegers(k) {
        assert 1.0 + 1.0 / d.alpha == 2.0 && 1.0 + 2.0 / d.alpha == 3.0;
        UnitGammaSpread(d.theta * d.theta, k.gammaFn(Finite(2.0)), k.gammaFn(Finite(3.0)));
      }
    }
    r
  }

  /** theta^2 (Gamma(1 + 2/alpha) - Gamma(1 + 1/alpha)^2), which depends only
      on the shape and the scale. */
  function GammaSpread(alpha: real, theta: real, k: Kernels): XReal
    requires alpha > 0.0
  {
    var g1 := k.gammaFn(Finite(1.0 + 1.0 / alpha));
    var g2 := k.gammaFn(Finite(1.0 + 2.0 / alpha));
    Mul(Finite(theta * theta), Sub(g2, Square(g1)))
  }

  /** With Gamma(2) = 1 and Gamma(3) = 2 the spread Gamma(3) - Gamma(2)^2 is 1. */
  lemma UnitGammaSpread(s: real, g1: XReal, g2: XReal)
    requires g1 == One && g2 == Finite(2.0)
    ensures Mul(Finite(s), Sub(g2, Square(g1))) == Finite(s)
  {
    assert Sub(g2, Square(g1)) == One;
    MulOne(s);
  }

  /** 1 + gamma (1 - 1/alpha) + log(theta/alpha): a real, and 1 for the
      standard exponential distribution alpha = theta = 1. */
  function Entropy(d: Weibull, k: Kernels): (r: XReal)
    requires Valid(d)
    ensures LogLaws(k) ==> r.Finite?
    ensures d.alpha == 1.0 && d.theta == 1.0 && LogLaws(k) ==> r == One
  {
    Add(Finite(1.0 + k.eulerGamma * (1.0 - 1.0 / d.alpha)), k.log(Finite(d.theta / d.alpha)))
  }

  /** dist + s */
  function Plus(d: Weibull, s: real): (r: Weibull)
    requires Valid(d)
    ensures Valid(r) && r.alpha == d.alpha && r.mu == d.mu + s && r.theta == d.theta
  {
    Weibull(d.alpha, d.mu + s, d.theta)
  }

  /** dist - s */
  function Minus(d: Weibull, s: real): (r: Weibull)
    requires Valid(d)
    ensures Valid(r) && r.alpha == d.alpha && r.mu == d.mu - s && r.theta == d.theta
  {
    Weibull(d.alpha, d.mu - s, d.theta)
  }

  /** dist * c: the constructor rejects the result unless c > 0. */
  function Times(d: Weibull, c: real): (r: Result<Weibull>)
    requires Valid(d)
    ensures r.Ok? <==> c > 0.0
    ensures r.Ok? ==> Valid(r.value) && r.value.alpha == d.alpha
    ensures r.Ok? ==> r.value.mu == d.mu * c && r.value.theta == d.theta * c
  {
    Create(d.alpha, d.mu * c, d.theta * c)
  }


  // ---------------------------------------------------------------------
  // Cumulative distribution

  /** Beyond the location the two tails are -expm1(-u^alpha) and
      exp(-u^alpha); they sum to exactly 1 for every non-NaN argument,
      given expm1(y) = exp(y) - 1. */
  lemma CDFComplement(d: Weibull, x: XReal, k: Kernels)
    requires Valid(d) && !x.NaN?
    requires ExpLaws(k) && Expm1Law(k) && PowLaws(k)
    ensures Add(CDF(d, x, Lower, k), CDF(d, x, Upper, k)) == One
  {
    StandardizeSign(x, d.mu, d.theta);
    var u := Standardize(x, d.mu, d.theta);
    if !Le(u, Zero) {
      var a := Finite(d.alpha);
      var y := Neg(k.pow(u, a));
      if u.Finite? {
        assert k.pow(u, a).Finite?;
      } else {
        assert u == PosInf;
        assert k.pow(PosInf, a) == PosInf;
      }
      ExpTailsSum(y, k);
    }
  }

  /** -expm1(y) + exp(y) = 1 at a real y and at -inf. */
  lemma ExpTailsSum(y: XReal, k: Kernels)
    requires ExpLaws(k) && Expm1Law(k) && (y.Finite? || y == NegInf)
    ensures Add(Neg(k.expm1(y)), k.exp(y)) == One
  {
    if y.Finite? {
      var e := k.exp(y);
      assert e.Finite?;
      assert k.expm1(y) == Sub(e, One);
      assert Neg(Sub(e, One)) == Finite(1.0 - e.v);
      assert Add(Finite(1.0 - e.v), e) == One;
    } else {
      assert k.exp(NegInf) == Zero;
      assert k.expm1(NegInf) == Sub(Zero, One);
      assert Neg(Sub(Zero, One)) == One;
    }
  }

  /** With alpha = 1, mu = 0, theta = 1 the Lower tail is 1 - e^(-x) on
      x >= 0: the exponential distribution. */
  lemma ExponentialSpecialCase(x: real, k: Kernels)
    requires x >= 0.0
    requires ExpLaws(k) && Expm1Law(k) && PowLaws(k)
    ensures CDF(Weibull(1.0, 0.0, 1.0), Finite(x), Lower, k) == Sub(One, k.exp(Finite(-x)))
  {
    var d := Weibull(1.0, 0.0, 1.0);
    UnitStandardize(x);
    if x == 0.0 {
      assert CDF(d, Finite(x), Lower, k) == Zero;
      ExpAtNegatedZero(k);
    } else {
      assert k.pow(Finite(x), Finite(1.0)) == Finite(x);
      assert Neg(Finite(x)) == Finite(-x);
      assert CDF(d, Finite(x), Lower, k) == Neg(k.expm1(Finite(-x)));
      NegatedExpm1(x, k);
    }
  }

  /** With mu = 0 and theta = 1 standardising changes nothing. */
  lemma UnitStandardize(x: real)
    ensures Standardize(Finite(x), 0.0, 1.0) == Finite(x)
  {
    var u := Standardize(Finite(x), 0.0, 1.0);
    assert u.v * 1.0 == x - 0.0;
  }

  /** -expm1(y) = 1 - exp(y) at y = -x. */
  lemma NegatedExpm1(x: real, k: Kernels)
    requires ExpLaws(k) && Expm1Law(k)
    ensures Neg(k.expm1(Finite(-x))) == Sub(One, k.exp(Finite(-x)))
  {
    var e := k.exp(Finite(-x));
    assert e.Finite?;
    assert k.expm1(Finite(-x)) == Sub(e, One);
  }

  /** 1 - exp(-0) = 0. */
  lemma ExpAtNegatedZero(k: Kernels)
    requires ExpLaws(k)
    ensures Sub(One, k.exp(Finite(-0.0))) == Zero
  {
    assert Finite(-0.0) == Zero;
    assert k.exp(Zero) == One;
  }

  // ---------------------------------------------------------------------
  // Quantile

  /** The Lower quantile inverts the Lower tail on (0, 1), given that
      log1p(y) = log(1 + y), that exp undoes log, and that
      (y^(1/alpha))^alpha = y. */
  lemma QuantileRoundTripLower(d: Weibull, p: XReal, k: Kernels)
    requires Valid(d) && InOpenUnit(p)
    requires LogLaws(k) && Log1pLaw(k) && Expm1Law(k) && PowLaws(k) && PowRootLaw(k)
    ensures CDF(d, Quantile(d, p, Lower, k), Lower, k) == p
  {
    var l := k.log(Finite(1.0 - p.v));
    assert Neg(p) == Finite(-p.v);
    assert k.log1p(Finite(-p.v)) == l by {
      assert 1.0 + -p.v == 1.0 - p.v;
    }
    assert l.Finite? && l.v < 0.0;
    var w := StandardRoot(d, l, k);
    assert StandardQuantile(d, p, Lower, k) == Finite(w);
    assert Quantile(d, p, Lower, k) == Finite(d.mu + w * d.theta);
    TailsAtStandardPoint(d, w, k);
    assert k.exp(l) == Finite(1.0 - p.v);
    assert k.expm1(l) == Finite(1.0 - p.v - 1.0);
    assert Neg(Finite(1.0 - p.v - 1.0)) == p;
  }

  /** The Upper quantile inverts the Upper tail on (0, 1). */
  lemma QuantileRoundTripUpper(d: Weibull, p: XReal, k: Kernels)
    requires Valid(d) && InOpenUnit(p)
    requires LogLaws(k) && PowLaws(k) && PowRootLaw(k)
    ensures CDF(d, Quantile(d, p, Upper, k), Upper, k) == p
  {
    var l := k.log(p);
    assert l.Finite? && l.v < 0.0;
    var w := StandardRoot(d, l, k);
    assert StandardQuantile(d, p, Upper, k) == Finite(w);
    StandardPointAboveLocation(d, w);
    assert Quantile(d, p, Upper, k) == Finite(d.mu + w * d.theta);
    TailsAtStandardPoint(d, w, k);
    assert k.exp(l) == p;
  }

  /** For a negative real log l, w = (-l)^(1/alpha) is a positive real with
      w^alpha = -l. */
  lemma StandardRoot(d: Weibull, l: XReal, k: Kernels) returns (w: real)
    requires Valid(d) && l.Finite? && l.v < 0.0 && PowLaws(k) && PowRootLaw(k)
    ensures k.pow(Neg(l), Finite(InvAlpha(d))) == Finite(w) && w > 0.0
    ensures Mul(Finite(w), Finite(d.theta)) == Finite(w * d.theta)
    ensures Neg(k.pow(Finite(w), Finite(d.alpha))) == l
  {
    var y := -l.v;
    assert Neg(l) == Finite(y);
    var x := k.pow(Finite(y), Finite(InvAlpha(d)));
    w := x.v;
    assert k.pow(x, Finite(d.alpha)) == Finite(y);
  }

  /** mu + w theta lies above mu for w > 0. */
  lemma StandardPointAboveLocation(d: Weibull, w: real)
    requires Valid(d) && w > 0.0
    ensures d.mu + w * d.theta > d.mu
  {
    ProductPositive(w, d.theta);
  }

  /** At x = mu + w theta with w > 0 the tails are -expm1(-w^alpha) and
      exp(-w^alpha). */
  lemma TailsAtStandardPoint(d: Weibull, w: real, k: Kernels)
    requires Valid(d) && w > 0.0
    ensures CDF(d, Finite(d.mu + w * d.theta), Lower, k) == Neg(k.expm1(Neg(k.pow(Finite(w), Finite(d.alpha)))))
    ensures CDF(d, Finite(d.mu + w * d.theta), Upper, k) == k.exp(Neg(k.pow(Finite(w), Finite(d.alpha))))
  {
    StandardizeAffine(d.mu, w, d.theta);
    assert Standardize(Finite(d.mu + w * d.theta), d.mu, d.theta) == Finite(w);
  }

  /** Where mu >= 0 the Upper-tail clamp of the source never fires, so the
      source's quantile and the corrected one agree on every argument. */
  lemma QuantileAgreesWhenLocationNonNegative(d: Weibull, p: XReal, interval: Interval, k: Kernels)
    requires Valid(d) && d.mu >= 0.0
    requires LogLaws(k) && PowLaws(k)
    ensures QuantileAsWritten(d, p, interval, k) == Quantile(d, p, interval, k)
  {
    if InRangeUnit(p) && interval.Upper? && p != Zero {
      UpperQuantileAtLeastLocation(d, p, k);
    }
  }

  /** On (0, 1] the unclamped Upper quantile is finite and at least mu. */
  lemma UpperQuantileAtLeastLocation(d: Weibull, p: XReal, k: Kernels)
    requires Valid(d) && InRangeUnit(p) && p != Zero
    requires LogLaws(k) && PowLaws(k)
    ensures Unclamped(d, p, Upper, k).Finite? && Unclamped(d, p, Upper, k).v >= d.mu
  {
    if p == One {
      UnclampedAtOne(d, k);
    } else {
      UpperQuantileInterior(d, p, k);
    }
  }

  /** At p = 1 the unclamped Upper quantile is mu itself. */
  lemma UnclampedAtOne(d: Weibull, k: Kernels)
    requires Valid(d)
    requires LogLaws(k) && PowLaws(k)
    ensures Unclamped(d, One, Upper, k) == Finite(d.mu)
  {
    StandardQuantileAtOne(d, k);
    assert Mul(Zero, Finite(d.theta)) == Zero;
    assert Add(Finite(d.mu), Zero) == Finite(d.mu);
  }

  /** On (0, 1) the standardised Upper quantile is positive, so the
      unclamped quantile lies strictly above mu. */
  lemma UpperQuantileInterior(d: Weibull, p: XReal, k: Kernels)
    requires Valid(d) && InOpenUnit(p)
    requires LogLaws(k) && PowLaws(k)
    ensures Unclamped(d, p, Upper, k).Finite? && Unclamped(d, p, Upper, k).v > d.mu
  {
    var l := k.log(p);
    assert l.Finite? && l.v < 0.0;
    assert Neg(l) == Finite(-l.v);
    var w := k.pow(Finite(-l.v), Finite(InvAlpha(d)));
    assert StandardQuantile(d, p, Upper, k) == w;
    assert w.Finite? && w.v > 0.0;
    ProductPositive(w.v, d.theta);
    assert Mul(w, Finite(d.theta)) == Finite(w.v * d.theta);
  }

  /** The standardised Upper quantile at p = 1 is 0. */
  lemma StandardQuantileAtOne(d: Weibull, k: Kernels)
    requires Valid(d)
    requires LogLaws(k) && PowLaws(k)
    ensures StandardQuantile(d, One, Upper, k) == Zero
  {
    assert k.log(One) == Zero;
    assert Neg(Zero) == Zero;
    assert k.pow(Zero, Finite(InvAlpha(d))) == Zero;
  }

  /** The source's Upper quantile at p = 1, for a negative location, is 0
      instead of the support minimum mu, and the Upper tail at 0 is then
      below 1, so CDF(Quantile(1)) != 1. */
  lemma UpperQuantileAsWrittenMissesLocation(d: Weibull, k: Kernels)
    requires Valid(d) && d.mu < 0.0
    requires LogLaws(k) && PowLaws(k) && ExpLaws(k)
    ensures QuantileAsWritten(d, One, Upper, k) == Zero
    ensures CDF(d, QuantileAsWritten(d, One, Upper, k), Upper, k) != One
  {
    assert k.log(One) == Zero;
    assert Neg(Zero) == Zero;
    assert k.pow(Zero, Finite(InvAlpha(d))) == Zero;
    assert Mul(Zero, Finite(d.theta)) == Zero;
    assert Add(Finite(d.mu), Zero) == Finite(d.mu);
    var u := Standardize(Zero, d.mu, d.theta);
    assert u.Finite? && u.v * d.theta == -d.mu;
    assert u.v > 0.0;
    var a := k.pow(u, Finite(d.alpha));
    assert a.Finite? && a.v > 0.0;
    assert Neg(a) == Finite(-a.v);
    assert k.exp(Finite(-a.v)).v < 1.0;
  }

  /** The corrected Upper quantile at p = 1 is the location, where the Upper
      tail is exactly 1. */
  lemma UpperQuantileAtOne(d: Weibull, k: Kernels)
    requires Valid(d)
    requires LogLaws(k) && PowLaws(k)
    ensures Quantile(d, One, Upper, k) == Finite(d.mu)
    ensures CDF(d, Quantile(d, One, Upper, k), Upper, k) == One
  {
    assert k.log(One) == Zero;
    assert Neg(Zero) == Zero;
    assert k.pow(Zero, Finite(InvAlpha(d))) == Zero;
    assert Mul(Zero, Finite(d.theta)) == Zero;
    assert Add(Finite(d.mu), Zero) == Finite(d.mu);
  }

  // ---------------------------------------------------------------------
  // Family operators

  /** Shifting then shifting back restores the distribution. */
  lemma PlusMinusRoundTrip(d: Weibull, s: real)
    requires Valid(d)
    ensures Minus(Plus(d, s), s) == d && Plus(Minus(d, s), s) == d
  {
  }

  /** Shifting the distribution and the argument together leaves both tails
      unchanged. */
  lemma CDFShiftInvariant(d: Weibull, s: real, x: XReal, interval: Interval, k: Kernels)
    requires Valid(d)
    ensures CDF(Plus(d, s), Add(x, Finite(s)), interval, k) == CDF(d, x, interval, k)
  {
    ShiftInvariant(x, d.mu, d.theta, s);
  }

  /** Scaling the distribution and the argument by c > 0 leaves both tails
      unchanged. */
  lemma CDFScaleInvariant(d: Weibull, c: real, x: XReal, interval: Interval, k: Kernels)
    requires Valid(d) && c > 0.0
    ensures CDF(Times(d, c).value, Mul(x, Finite(c)), interval, k) == CDF(d, x, interval, k)
  {
    var d' := Times(d, c).value;
    assert d' == Weibull(d.alpha, d.mu * c, d.theta * c);
    ScaleInvariant(x, d.mu, d.theta, c);
    var u := Standardize(x, d.mu, d.theta);
    assert Standardize(Mul(x, Finite(c)), d'.mu, d'.theta) == u;
  }

  /** The mean and the median move with the location; the variance does not. */
  lemma MomentsUnderShift(d: Weibull, s: real, k: Kernels)
    requires Valid(d)
    requires k.gammaFn(Finite(1.0 + 1.0 / d.alpha)).Finite?
    ensures Mean(Plus(d, s), k) == Add(Mean(d, k), Finite(s))
    ensures Variance(Plus(d, s), k) == Variance(d, k)
  {
    var d' := Plus(d, s);
    var t := ScaledGamma(d, k);
    MeanIsLocationPlus(d, t, k);
    MeanIsLocationPlus(d', t, k);
    assert d'.alpha == d.alpha && d'.theta == d.theta;
  }

  /** The mean is the location plus theta Gamma(1 + 1/alpha). */
  lemma MeanIsLocationPlus(d: Weibull, t: real, k: Kernels)
    requires Valid(d)
    requires Mul(Finite(d.theta), k.gammaFn(Finite(1.0 + 1.0 / d.alpha))) == Finite(t)
    ensures Mean(d, k) == Finite(d.mu + t)
  {
  }

  /** theta Gamma(1 + 1/alpha) as a real, where the gamma function is finite. */
  lemma ScaledGamma(d: Weibull, k: Kernels) returns (t: real)
    requires Valid(d) && k.gammaFn(Finite(1.0 + 1.0 / d.alpha)).Finite?
    ensures Mul(Finite(d.theta), k.gammaFn(Finite(1.0 + 1.0 / d.alpha))) == Finite(t)
  {
    t := d.theta * k.gammaFn(Finite(1.0 + 1.0 / d.alpha)).v;
  }
}
