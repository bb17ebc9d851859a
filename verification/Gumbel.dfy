/** The Gumbel (maximum extreme value) distribution with location mu and
    scale sigma. Every formula is written in the reflected variable
    u = (mu - x)/sigma: the Lower tail is exp(-e^u). */
module Gumbel {
  import opened ExtReal
  import opened Numerics
  import opened Wrappers
  import opened LocationScale
  import opened RealArith

  datatype Gumbel = Gumbel(mu: real, sigma: real)

  predicate Valid(d: Gumbel)
  {
    d.sigma > 0.0
  }

  /** The constructor: the location is any real, the scale must be positive.
      The one-argument form is Create(0, sigma), the parameterless one
      Create(0, 1). */
  function Create(mu: real, sigma: real): (r: Result<Gumbel>)
    ensures r.Ok? <==> sigma > 0.0
    ensures r.Ok? ==> Valid(r.value) && r.value.mu == mu && r.value.sigma == sigma
  {
    if sigma > 0.0 then Ok(Gumbel(mu, sigma)) else Invalid("sigma")
  }

  /** exp(-e^u + u) / sigma: NaN at NaN, 0 at both infinities. */
  function PDF(d: Gumbel, x: XReal, k: Kernels): (r: XReal)
    requires Valid(d)
    ensures x.NaN? ==> r.NaN?
    ensures IsInfinity(x) ==> r == Zero
  {
    var u := Reflect(x, d.mu, d.sigma);
    ReflectIsNegated(x, d.mu, d.sigma);
    if u.NaN? then NaN
    else if IsInfinity(u) then Zero
    else Mul(k.exp(Add(Neg(k.exp(u)), u)), Finite(1.0 / d.sigma))
  }

  /** Lower: exp(-e^u); Upper: -expm1(-e^u). */
  function CDF(d: Gumbel, x: XReal, interval: Interval, k: Kernels): (r: XReal)
    requires Valid(d)
    ensures x.NaN? ==> r.NaN?
  {
    var u := Reflect(x, d.mu, d.sigma);
    ReflectIsNegated(x, d.mu, d.sigma);
    if u.NaN? then NaN
    else if interval.Lower? then k.exp(Neg(k.exp(u)))
    else Neg(k.expm1(Neg(k.exp(u))))
  }

  /** The quantile: NaN outside [0, 1]; otherwise mu - sigma u with
      u = log(-log p) for the Lower tail (a NaN result read as +inf) and
      u = log(-log1p(-p)) for the Upper tail. */
  function Quantile(d: Gumbel, p: XReal, interval: Interval, k: Kernels): (r: XReal)
    requires Valid(d)
    ensures !InRangeUnit(p) ==> r.NaN?
    ensures interval.Lower? && InRangeUnit(p) ==> !r.NaN?
  {
    if !InRangeUnit(p) then NaN
    else if interval.Lower? then
      var x := Sub(Finite(d.mu), Mul(Finite(d.sigma), k.log(Neg(k.log(p)))));
      if x.NaN? then PosInf else x
    else
      Sub(Finite(d.mu), Mul(Finite(d.sigma), k.log(Neg(k.log1p(Neg(p))))))
  }

  /** The support is the whole real line. */
  function Support(d: Gumbel): (XReal, XReal)
  {
    (NegInf, PosInf)
  }

  /** mu + gamma sigma, gamma the Euler-Mascheroni constant: the mean lies
      above the mode mu by gamma sigma. */
  function Mean(d: Gumbel, k: Kernels): (r: real)
    ensures Valid(d) && k.eulerGamma > 0.0 ==> r > Mode(d)
  {
    assert Valid(d) && k.eulerGamma > 0.0 ==> k.eulerGamma * d.sigma > 0.0 by {
      if Valid(d) && k.eulerGamma > 0.0 { ProductPositive(k.eulerGamma, d.sigma); }
    }
    d.mu + k.eulerGamma * d.sigma
  }

  /** The median is the Lower quantile at 1/2, so the Lower tail there is 1/2. */
  function Median(d: Gumbel, k: Kernels): (r: XReal)
    requires Valid(d)
    ensures LogLaws(k) ==> CDF(d, r, Lower, k) == Half
  {
    assert LogLaws(k) ==> CDF(d, Quantile(d, Half, Lower, k), Lower, k) == Half by {
      if LogLaws(k) { QuantileRoundTripLower(d, Half, k); }
    }
    Quantile(d, Half, Lower, k)
  }

  function Mode(d: Gumbel): real
  {
    d.mu
  }

  /** (pi sigma)^2 / 6, a positive real. */
  function Variance(d: Gumbel, k: Kernels): (r: real)
    requires Valid(d)
    ensures r > 0.0
  {
    var ps := k.pi * d.sigma;
    ProductPositive(k.pi, d.sigma);
    SquarePositive(ps, ps * ps);
    ps * ps / 6.0
  }

  /** 12 sqrt(6) zeta(3) / pi^3, the same positive constant for every
      member of the family. */
  function Skewness(k: Kernels): (r: XReal)
    ensures SqrtLaw(k) ==> r.Finite? && r.v > 0.0
  {
    var s := k.sqrt(Finite(6.0));
    var pi3 := k.pi * k.pi * k.pi;
    ProductPositive(k.pi, k.pi);
    ProductPositive(k.pi * k.pi, k.pi);
    var r := Div(Mul(Mul(Finite(12.0), s), Finite(k.zeta3)), Finite(pi3));
    assert SqrtLaw(k) ==> r.Finite? && r.v > 0.0 by {
      if SqrtLaw(k) {
        assert s.Finite? && s.v >= 0.0 && s.v * s.v == 6.0;
        assert s.v > 0.0;
        ProductPositive(12.0, s.v);
        ProductPositive(12.0 * s.v, k.zeta3);
        QuotientPositive(12.0 * s.v * k.zeta3, pi3);
      }
    }
    r
  }

  const Kurtosis: real := 12.0 / 5.0

  /** log sigma + gamma + 1 */
  function Entropy(d: Gumbel, k: Kernels): (r: XReal)
    requires Valid(d)
    ensures LogLaws(k) ==> r.Finite?
  {
    Add(Add(k.log(Finite(d.sigma)), Finite(k.eulerGamma)), One)
  }

  /** dist + s */
  function Plus(d: Gumbel, s: real): (r: Gumbel)
    requires Valid(d)
    ensures Valid(r) && r.mu == d.mu + s && r.sigma == d.sigma
  {
    Gumbel(d.mu + s, d.sigma)
  }

  /** dist - s */
  function Minus(d: Gumbel, s: real): (r: Gumbel)
    requires Valid(d)
    ensures Valid(r) && r.mu == d.mu - s && r.sigma == d.sigma
  {
    Gumbel(d.mu - s, d.sigma)
  }

  /** dist * c: the constructor rejects the result unless c > 0. */
  function Times(d: Gumbel, c: real): (r: Result<Gumbel>)
    requires Valid(d)
    ensures r.Ok? <==> c > 0.0
    ensures r.Ok? ==> r.value.mu == d.mu * c && r.value.sigma == d.sigma * c
  {
    Create(d.mu * c, d.sigma * c)
  }

  /** dist / c: the constructor rejects the result unless c > 0. A zero
      divisor makes mu / c infinite or NaN, which the location check rejects
      first; a negative one makes the scale negative. */
  function Divide(d: Gumbel, c: real): (r: Result<Gumbel>)
    requires Valid(d)
    ensures r.Ok? <==> c > 0.0
    ensures r.Ok? ==> r.value.mu == d.mu / c && r.value.sigma == d.sigma / c
    ensures c == 0.0 ==> r == Invalid("mu")
    ensures c < 0.0 ==> r == Invalid("sigma")
  {
    if c == 0.0 then Invalid("mu")
    else
      assert d.sigma / c > 0.0 <==> c > 0.0 by {
        if c < 0.0 { assert d.sigma / c == -(d.sigma / -c); }
      }
      Create(d.mu / c, d.sigma / c)
  }

  // ---------------------------------------------------------------------
  // Density and cumulative distribution

  /** At every real argument the density is a positive real. */
  lemma PDFPositive(d: Gumbel, x: XReal, k: Kernels)
    requires Valid(d) && x.Finite? && ExpLaws(k)
    ensures PDF(d, x, k).Finite? && PDF(d, x, k).v > 0.0
  {
    var u := Reflect(x, d.mu, d.sigma);
    ReflectIsNegated(x, d.mu, d.sigma);
    assert u.Finite?;
    var e := k.exp(u);
    assert e.Finite?;
    var y := -e.v + u.v;
    assert Add(Neg(e), u) == Finite(y);
    var f := k.exp(Finite(y));
    assert f.Finite? && f.v > 0.0;
    ProductPositive(f.v, 1.0 / d.sigma);
  }

  /** The two tails sum to exactly 1 at every non-NaN argument, including
      both infinities, given expm1(y) = exp(y) - 1. */
  lemma CDFComplement(d: Gumbel, x: XReal, k: Kernels)
    requires Valid(d) && !x.NaN? && ExpLaws(k) && Expm1Law(k)
    ensures Add(CDF(d, x, Lower, k), CDF(d, x, Upper, k)) == One
  {
    var u := Reflect(x, d.mu, d.sigma);
    ReflectIsNegated(x, d.mu, d.sigma);
    var y := Neg(k.exp(u));
    if u.Finite? {
      var e := k.exp(u);
      assert e.Finite?;
      assert y == Finite(-e.v);
      var f := k.exp(y);
      assert f.Finite?;
      assert k.expm1(y) == Sub(f, One);
      assert Neg(Sub(f, One)) == Finite(1.0 - f.v);
    } else if u.PosInf? {
      assert y == NegInf;
      assert k.exp(NegInf) == Zero;
      assert k.expm1(NegInf) == Sub(Zero, One);
    } else {
      assert u.NegInf?;
      assert k.exp(NegInf) == Zero;
      assert y == Zero;
      assert k.exp(Zero) == One;
      assert k.expm1(Zero) == Sub(One, One);
    }
  }

  /** The Lower tail is 0 at -inf and 1 at +inf. */
  lemma CDFLimits(d: Gumbel, k: Kernels)
    requires Valid(d) && ExpLaws(k)
    ensures CDF(d, NegInf, Lower, k) == Zero
    ensures CDF(d, PosInf, Lower, k) == One
  {
    ReflectIsNegated(NegInf, d.mu, d.sigma);
    ReflectIsNegated(PosInf, d.mu, d.sigma);
    assert k.exp(PosInf) == PosInf;
    assert k.exp(NegInf) == Zero;
    assert k.exp(Zero) == One;
  }

  /** Shifting the distribution and the argument together leaves both tails
      unchanged. */
  lemma CDFShiftInvariant(d: Gumbel, s: real, x: XReal, interval: Interval, k: Kernels)
    requires Valid(d)
    ensures CDF(Plus(d, s), Add(x, Finite(s)), interval, k) == CDF(d, x, interval, k)
  {
    ShiftInvariant(x, d.mu, d.sigma, s);
    ReflectIsNegated(x, d.mu, d.sigma);
    ReflectIsNegated(Add(x, Finite(s)), d.mu + s, d.sigma);
  }

  /** Scaling the distribution and the argument by c > 0 leaves both tails
      unchanged. */
  lemma CDFScaleInvariant(d: Gumbel, c: real, x: XReal, interval: Interval, k: Kernels)
    requires Valid(d) && c > 0.0
    ensures CDF(Times(d, c).value, Mul(x, Finite(c)), interval, k) == CDF(d, x, interval, k)
  {
    var d' := Times(d, c).value;
    assert d' == Gumbel(d.mu * c, d.sigma * c);
    ScaleInvariant(x, d.mu, d.sigma, c);
    ReflectIsNegated(x, d.mu, d.sigma);
    ReflectIsNegated(Mul(x, Finite(c)), d'.mu, d'.sigma);
    assert Reflect(Mul(x, Finite(c)), d'.mu, d'.sigma) == Reflect(x, d.mu, d.sigma);
  }

  // ---------------------------------------------------------------------
  // Quantile

  /** mu - sigma u reflects back to u. */
  lemma ReflectAffine(d: Gumbel, u: real)
    requires Valid(d)
    ensures Reflect(Sub(Finite(d.mu), Mul(Finite(d.sigma), Finite(u))), d.mu, d.sigma) == Finite(u)
  {
    StandardizeAffine(d.mu, u, d.sigma);
  }

  /** The Lower quantile inverts the Lower tail on (0, 1): with l = log p,
      the reflected variable is log(-l), and exp(-exp(log(-l))) = exp(l) = p. */
  lemma QuantileRoundTripLower(d: Gumbel, p: XReal, k: Kernels)
    requires Valid(d) && InOpenUnit(p) && LogLaws(k)
    ensures CDF(d, Quantile(d, p, Lower, k), Lower, k) == p
  {
    var l := k.log(p);
    assert l.Finite? && l.v < 0.0;
    assert Neg(l) == Finite(-l.v);
    var u := k.log(Finite(-l.v));
    assert u.Finite?;
    ReflectAffine(d, u.v);
    assert k.exp(u) == Finite(-l.v);
    assert Neg(Finite(-l.v)) == l;
  }

  /** The Upper quantile inverts the Upper tail on (0, 1): with
      l = log1p(-p) = log(1 - p), -expm1(-exp(log(-l))) = 1 - exp(l) = p. */
  lemma QuantileRoundTripUpper(d: Gumbel, p: XReal, k: Kernels)
    requires Valid(d) && InOpenUnit(p) && LogLaws(k) && Log1pLaw(k) && Expm1Law(k)
    ensures CDF(d, Quantile(d, p, Upper, k), Upper, k) == p
  {
    assert Neg(p) == Finite(-p.v);
    assert 1.0 + -p.v == 1.0 - p.v;
    var l := k.log1p(Finite(-p.v));
    assert l == k.log(Finite(1.0 - p.v));
    assert l.Finite? && l.v < 0.0;
    assert Neg(l) == Finite(-l.v);
    var u := k.log(Finite(-l.v));
    assert u.Finite?;
    ReflectAffine(d, u.v);
    assert k.exp(u) == Finite(-l.v);
    assert Neg(Finite(-l.v)) == l;
    assert k.exp(l) == Finite(1.0 - p.v);
    assert k.expm1(l) == Sub(Finite(1.0 - p.v), One);
    assert Neg(Finite(1.0 - p.v - 1.0)) == p;
  }

  /** At the ends of [0, 1] each quantile is the matching infinity: the
      Lower tail's -inf at 0 and +inf at 1, the Upper tail's the reverse. */
  lemma QuantileEnds(d: Gumbel, k: Kernels)
    requires Valid(d) && LogLaws(k) && LogEnds(k) && Log1pLaw(k)
    ensures Quantile(d, Zero, Lower, k) == NegInf
    ensures Quantile(d, One, Lower, k) == PosInf
    ensures Quantile(d, Zero, Upper, k) == PosInf
    ensures Quantile(d, One, Upper, k) == NegInf
  {
    assert Neg(NegInf) == PosInf;
    assert Mul(Finite(d.sigma), PosInf) == PosInf;
    assert Mul(Finite(d.sigma), NegInf) == NegInf;
    assert k.log(One) == Zero;
    assert Neg(Zero) == Zero;
    assert Neg(One) == Finite(-1.0);
    assert k.log1p(Zero) == k.log(Finite(1.0 + 0.0));
  }

  // ---------------------------------------------------------------------
  // Moments and family operators

  /** The Lower tail at the mode is exp(-1): the mode is the 1/e quantile. */
  lemma ModeQuantile(d: Gumbel, k: Kernels)
    requires Valid(d) && ExpLaws(k)
    ensures CDF(d, Finite(Mode(d)), Lower, k) == k.exp(Finite(-1.0))
  {
    assert Reflect(Finite(Mode(d)), d.mu, d.sigma) == Zero;
  }

  /** Shifting moves the mean and the mode and nothing else. */
  lemma MomentsUnderShift(d: Gumbel, s: real, k: Kernels)
    requires Valid(d)
    ensures Mean(Plus(d, s), k) == Mean(d, k) + s
    ensures Mode(Plus(d, s)) == Mode(d) + s
    ensures Variance(Plus(d, s), k) == Variance(d, k)
    ensures Entropy(Plus(d, s), k) == Entropy(d, k)
  {
  }

  /** Scaling by c > 0 multiplies the mean and the mode by c and the variance
      by c^2. */
  lemma MomentsUnderScale(d: Gumbel, c: real, k: Kernels)
    requires Valid(d) && c > 0.0
    ensures Mean(Times(d, c).value, k) == c * Mean(d, k)
    ensures Mode(Times(d, c).value) == c * Mode(d)
    ensures Variance(Times(d, c).value, k) == c * c * Variance(d, k)
  {
    var d' := Times(d, c).value;
    var ps := k.pi * d.sigma;
    assert k.pi * d'.sigma == c * ps;
    assert (c * ps) * (c * ps) == (c * c) * (ps * ps);
  }

  /** Multiplying and dividing by the same positive c restores the
      distribution. */
  lemma TimesDivideRoundTrip(d: Gumbel, c: real)
    requires Valid(d) && c > 0.0
    ensures Divide(Times(d, c).value, c) == Ok(d)
  {
    var d' := Times(d, c).value;
    assert d' == Gumbel(d.mu * c, d.sigma * c);
    assert d.mu * c / c == d.mu;
    assert d.sigma * c / c == d.sigma;
    assert Divide(d', c) == Create(d.mu, d.sigma);
  }

  /** Shifting then shifting back restores the distribution. */
  lemma PlusMinusRoundTrip(d: Gumbel, s: real)
    requires Valid(d)
    ensures Minus(Plus(d, s), s) == d && Plus(Minus(d, s), s) == d
  {
  }
}
