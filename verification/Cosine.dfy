/** The raised-cosine distribution with location mu and scale sigma: the
    density (1 + cos(pi u)) / (2 sigma) on the support [mu - sigma, mu + sigma],
    u = (x - mu)/sigma. Its quantile inverts Kepler's equation. */
module Cosine {
  import opened ExtReal
  import opened Numerics
  import opened Wrappers
  import opened LocationScale
  import opened RealArith

  datatype Cosine = Cosine(mu: real, sigma: real)

  predicate Valid(d: Cosine)
  {
    d.sigma > 0.0
  }

  /** The constructor: the location is any real, the scale must be positive.
      The one-argument form is Create(0, sigma), the parameterless one
      Create(0, 1). */
  function Create(mu: real, sigma: real): (r: Result<Cosine>)
    ensures r.Ok? <==> sigma > 0.0
    ensures r.Ok? ==> Valid(r.value) && r.value.mu == mu && r.value.sigma == sigma
  {
    if sigma > 0.0 then Ok(Cosine(mu, sigma)) else Invalid("sigma")
  }

  /** The width below which the quantile treats p as 0, 1 or 1/2. */
  const Eps: real := 1.0e-28

  /** The lower and the upper end of the support. */
  function Lo(d: Cosine): real { d.mu - d.sigma }
  function Hi(d: Cosine): real { d.mu + d.sigma }

  /** The density vanishes outside the open support (|u| >= 1). */
  function PDF(d: Cosine, x: XReal, k: Kernels): (r: XReal)
    requires Valid(d)
    ensures Le(x, Finite(Lo(d))) || Ge(x, Finite(Hi(d))) ==> r == Zero
  {
    var u := Standardize(x, d.mu, d.sigma);
    StandardizeCompare(x, d.mu, d.sigma, -1.0);
    StandardizeCompare(x, d.mu, d.sigma, 1.0);
    if Ge(Abs(u), One) then Zero
    else Mul(Mul(Add(One, k.cosPi(u)), Finite(1.0 / d.sigma)), Half)
  }

  /** Lower: (1 + u + sin(pi u)/pi)/2, Upper: (1 - u - sin(pi u)/pi)/2, each
      exactly 0 or 1 outside the support. */
  function CDF(d: Cosine, x: XReal, interval: Interval, k: Kernels): (r: XReal)
    requires Valid(d)
    ensures Le(x, Finite(Lo(d))) ==> r == (if interval.Lower? then Zero else One)
    ensures Ge(x, Finite(Hi(d))) ==> r == (if interval.Lower? then One else Zero)
  {
    var u := Standardize(x, d.mu, d.sigma);
    StandardizeCompare(x, d.mu, d.sigma, -1.0);
    StandardizeCompare(x, d.mu, d.sigma, 1.0);
    if interval.Lower? then
      if Le(u, Finite(-1.0)) then Zero
      else if Ge(u, One) then One
      else Mul(Add(Add(One, u), Mul(k.sinPi(u), RcpPi(k))), Half)
    else
      if Le(u, Finite(-1.0)) then One
      else if Ge(u, One) then Zero
      else Mul(Sub(Sub(One, u), Div(k.sinPi(u), Pi(k))), Half)
  }

  /** The standardised Lower quantile E/pi - 1, E solving Kepler's equation
      E - sin E = 2 pi p. */
  function KeplerOffset(p: XReal, k: Kernels): XReal
  {
    Sub(Mul(k.keplerE(Mul(Mul(Pi(k), p), Finite(2.0)), One), RcpPi(k)), One)
  }

  /** The quantile: NaN outside [0, 1]; the support ends within Eps of 0 and
      1; the location within Eps of 1/2; otherwise mu + sigma u for the
      Lower tail and mu - sigma u for the Upper one. */
  function Quantile(d: Cosine, p: XReal, interval: Interval, k: Kernels): (r: XReal)
    requires Valid(d)
    ensures !InRangeUnit(p) ==> r.NaN?
    ensures InRangeUnit(p) && p.v < Eps ==> r == Finite(if interval.Lower? then Lo(d) else Hi(d))
    ensures InRangeUnit(p) && p.v >= Eps && 1.0 - p.v < Eps ==>
              r == Finite(if interval.Lower? then Hi(d) else Lo(d))
    ensures InRangeUnit(p) && p.v >= Eps && 1.0 - p.v >= Eps && Lt(Abs(Sub(p, Half)), Finite(Eps)) ==>
              r == Finite(d.mu)
  {
    if !InRangeUnit(p) then NaN
    else if p.v < Eps then Finite(if interval.Lower? then Lo(d) else Hi(d))
    else if 1.0 - p.v < Eps then Finite(if interval.Lower? then Hi(d) else Lo(d))
    else if Lt(Abs(Sub(p, Half)), Finite(Eps)) then Finite(d.mu)
    else
      var u := KeplerOffset(p, k);
      if interval.Lower? then Add(Finite(d.mu), Mul(Finite(d.sigma), u))
      else Sub(Finite(d.mu), Mul(Finite(d.sigma), u))
  }

  /** p is far enough from 0, 1/2 and 1 for the quantile to solve Kepler's
      equation. */
  predicate KeplerRegion(p: XReal)
  {
    InRangeUnit(p) && p.v >= Eps && 1.0 - p.v >= Eps && !Lt(Abs(Sub(p, Half)), Finite(Eps))
  }

  /** The support [mu - sigma, mu + sigma]. */
  function Support(d: Cosine): (XReal, XReal)
  {
    (Finite(Lo(d)), Finite(Hi(d)))
  }

  /** The distribution is symmetric about mu, which is its mean, median and
      mode. */
  const Symmetric: bool := true

  function Mean(d: Cosine): real { d.mu }
  function Median(d: Cosine): real { d.mu }
  function Mode(d: Cosine): real { d.mu }

  /** sigma^2 (1 - 6/pi^2) / 3: positive, and below the variance sigma^2/3 of
      the uniform law on [mu - sigma, mu + sigma]. */
  function Variance(d: Cosine, k: Kernels): (r: real)
    requires Valid(d)
    ensures PiBounds(k) ==> 0.0 < r < d.sigma * d.sigma / 3.0
  {
    var s2 := d.sigma * d.sigma;
    var r := s2 * (1.0 - 6.0 / (k.pi * k.pi)) / 3.0;
    assert PiBounds(k) ==> 0.0 < r < s2 / 3.0 by {
      if PiBounds(k) {
        SquarePositive(d.sigma, s2);
        VarianceBounds(s2, k.pi, r);
      }
    }
    r
  }

  const Skewness: real := 0.0

  /** 6 (90 - pi^4) / (5 (pi^2 - 6)^2): negative (the law is platykurtic),
      and above the bound -2 that every distribution's excess kurtosis keeps. */
  function Kurtosis(k: Kernels): (r: real)
    ensures PiDigits(k) ==> -2.0 < r < 0.0
  {
    var pi2 := k.pi * k.pi;
    var t := pi2 - 6.0;
    var r := if t == 0.0 then 0.0 else 6.0 * (90.0 - pi2 * pi2) / (5.0 * (t * t));
    assert PiDigits(k) ==> -2.0 < r < 0.0 by {
      if PiDigits(k) {
        KurtosisBounds(k.pi, pi2, t);
      }
    }
    r
  }

  /** 2 ln 2 + ln sigma - 1 */
  function Entropy(d: Cosine, k: Kernels): XReal
    requires Valid(d)
  {
    Sub(Add(Mul(Finite(2.0), k.log(Finite(2.0))), k.log(Finite(d.sigma))), One)
  }

  /** dist + s */
  function Plus(d: Cosine, s: real): (r: Cosine)
    requires Valid(d)
    ensures Valid(r) && r.mu == d.mu + s && r.sigma == d.sigma
  {
    Cosine(d.mu + s, d.sigma)
  }

  /** dist - s */
  function Minus(d: Cosine, s: real): (r: Cosine)
    requires Valid(d)
    ensures Valid(r) && r.mu == d.mu - s && r.sigma == d.sigma
  {
    Cosine(d.mu - s, d.sigma)
  }

  /** dist * c: the constructor rejects the result unless c > 0. */
  function Times(d: Cosine, c: real): (r: Result<Cosine>)
    requires Valid(d)
    ensures r.Ok? <==> c > 0.0
    ensures r.Ok? ==> r.value.mu == d.mu * c && r.value.sigma == d.sigma * c
  {
    Create(d.mu * c, d.sigma * c)
  }

  /** dist / c: the constructor rejects the result unless c > 0. A zero
      divisor makes mu / c infinite or NaN, which the location check rejects
      first; a negative one makes the scale negative. */
  function Divide(d: Cosine, c: real): (r: Result<Cosine>)
    requires Valid(d)
    ensures r.Ok? <==> c > 0.0
    ensures r.Ok? ==> r.value.mu == d.mu / c && r.value.sigma == d.sigma / c
    ensures c == 0.0 ==> r == Invalid("mu")
    ensures c < 0.0 ==> r == Invalid("sigma")
  {
    if c == 0.0 then Invalid("mu")
    else
      assert d.sigma / c > 0.0 <==> c > 0.0 by {
        if c < 0.0 { assert d.sigma / c == -(d.sigma / -c); }
      }
      Create(d.mu / c, d.sigma / c)
  }

  // ---------------------------------------------------------------------
  // Density

  /** On the open support the density is a non-negative real. */
  lemma PDFNonNegative(d: Cosine, x: XReal, k: Kernels)
    requires Valid(d) && x.Finite? && CosPiLaws(k)
    ensures PDF(d, x, k).Finite? && PDF(d, x, k).v >= 0.0
  {
    var u := Standardize(x, d.mu, d.sigma);
    if !Ge(Abs(u), One) {
      var c := k.cosPi(u);
      assert c.Finite? && 1.0 + c.v >= 0.0;
      assert Add(One, c) == Finite(1.0 + c.v);
      var a := (1.0 + c.v) * (1.0 / d.sigma);
      assert a >= 0.0;
      assert Mul(Finite(1.0 + c.v), Finite(1.0 / d.sigma)) == Finite(a);
    }
  }

  /** The density is even about mu. */
  lemma PDFSymmetric(d: Cosine, t: real, k: Kernels)
    requires Valid(d) && CosPiLaws(k)
    ensures PDF(d, Finite(d.mu + t), k) == PDF(d, Finite(d.mu - t), k)
  {
    var u := Standardize(Finite(d.mu + t), d.mu, d.sigma);
    var w := Standardize(Finite(d.mu - t), d.mu, d.sigma);
    assert w == Neg(u) by {
      assert u.v * d.sigma == t;
      assert w.v * d.sigma == -t;
      assert (w.v + u.v) * d.sigma == 0.0;
    }
    assert Abs(w) == Abs(u);
    assert k.cosPi(Neg(u)) == k.cosPi(u);
  }

  // ---------------------------------------------------------------------
  // Cumulative distribution

  /** The two tails sum to exactly 1 at every non-NaN argument: on the open
      support the sine terms cancel, since sin(pi u) RcpPI = sin(pi u)/PI. */
  lemma CDFComplement(d: Cosine, x: XReal, k: Kernels)
    requires Valid(d) && !x.NaN? && SinPiLaws(k)
    ensures Add(CDF(d, x, Lower, k), CDF(d, x, Upper, k)) == One
  {
    var u := Standardize(x, d.mu, d.sigma);
    if !Le(u, Finite(-1.0)) && !Ge(u, One) {
      assert u.Finite?;
      var s := k.sinPi(u);
      assert s.Finite?;
      var a := s.v * (1.0 / k.pi);
      assert Mul(s, RcpPi(k)) == Finite(a);
      assert Div(s, Pi(k)) == Finite(a);
      assert Add(Add(One, u), Finite(a)) == Finite(1.0 + u.v + a);
      assert Sub(Sub(One, u), Finite(a)) == Finite(1.0 - u.v - a);
      assert Mul(Finite(1.0 + u.v + a), Half) == Finite((1.0 + u.v + a) * 0.5);
      assert Mul(Finite(1.0 - u.v - a), Half) == Finite((1.0 - u.v - a) * 0.5);
    }
  }

  /** The Lower tail at mu + t is the Upper tail at mu - t. */
  lemma CDFReflection(d: Cosine, t: real, k: Kernels)
    requires Valid(d) && SinPiLaws(k)
    ensures CDF(d, Finite(d.mu + t), Lower, k) == CDF(d, Finite(d.mu - t), Upper, k)
  {
    var u := MirrorStandardize(d, t);
    if -1.0 < u.v < 1.0 {
      StandardTailsMirror(u, k);
    }
  }

  /** Both tails are 1/2 at the median mu. */
  lemma MedianSplitsMass(d: Cosine, k: Kernels)
    requires Valid(d) && SinPiLaws(k)
    ensures CDF(d, Finite(Median(d)), Lower, k) == Half
    ensures CDF(d, Finite(Median(d)), Upper, k) == Half
  {
    var m := Finite(Median(d));
    CDFReflection(d, 0.0, k);
    assert d.mu + 0.0 == Median(d) && d.mu - 0.0 == Median(d);
    CDFComplement(d, m, k);
    var a := CDF(d, m, Lower, k);
    assert Add(a, a) == One;
    assert a.Finite?;
  }

  /** mu + t and mu - t standardise to opposite values. */
  lemma MirrorStandardize(d: Cosine, t: real) returns (u: XReal)
    requires Valid(d)
    ensures u == Standardize(Finite(d.mu + t), d.mu, d.sigma) && u.Finite?
    ensures Standardize(Finite(d.mu - t), d.mu, d.sigma) == Neg(u)
  {
    u := Standardize(Finite(d.mu + t), d.mu, d.sigma);
    var w := Standardize(Finite(d.mu - t), d.mu, d.sigma);
    assert u.v * d.sigma == t;
    assert w.v * d.sigma == -t;
    assert (w.v + u.v) * d.sigma == 0.0;
  }

  /** The Lower formula at u equals the Upper formula at -u. */
  lemma StandardTailsMirror(u: XReal, k: Kernels)
    requires SinPiLaws(k) && u.Finite?
    ensures Mul(Add(Add(One, u), Mul(k.sinPi(u), RcpPi(k))), Half)
         == Mul(Sub(Sub(One, Neg(u)), Div(k.sinPi(Neg(u)), Pi(k))), Half)
  {
    var s := k.sinPi(u);
    assert s.Finite?;
    assert k.sinPi(Neg(u)) == Neg(s);
    var a := s.v * (1.0 / k.pi);
    assert Mul(s, RcpPi(k)) == Finite(a);
    assert Div(Neg(s), Pi(k)) == Finite(-a);
  }

  /** Shifting the distribution and the argument together leaves both tails
      unchanged. */
  lemma CDFShiftInvariant(d: Cosine, s: real, x: XReal, interval: Interval, k: Kernels)
    requires Valid(d)
    ensures CDF(Plus(d, s), Add(x, Finite(s)), interval, k) == CDF(d, x, interval, k)
  {
    ShiftInvariant(x, d.mu, d.sigma, s);
  }

  /** Scaling the distribution and the argument by c > 0 leaves both tails
      unchanged. */
  lemma CDFScaleInvariant(d: Cosine, c: real, x: XReal, interval: Interval, k: Kernels)
    requires Valid(d) && c > 0.0
    ensures CDF(Times(d, c).value, Mul(x, Finite(c)), interval, k) == CDF(d, x, interval, k)
  {
    var d' := Times(d, c).value;
    assert d' == Cosine(d.mu * c, d.sigma * c);
    ScaleInvariant(x, d.mu, d.sigma, c);
    var u := Standardize(x, d.mu, d.sigma);
    assert Standardize(Mul(x, Finite(c)), d'.mu, d'.sigma) == u;
  }

  // ---------------------------------------------------------------------
  // Quantile

  /** For p in (0, 1) the Kepler offset u is a real in (-1, 1) with
      sin(pi u) = 2 pi p - pi (u + 1). */
  lemma KeplerOffsetRange(p: XReal, k: Kernels) returns (u: real)
    requires InOpenUnit(p) && KeplerLaw(k)
    ensures KeplerOffset(p, k) == Finite(u)
    ensures -1.0 < u < 1.0
    ensures k.sinPi(Finite(u)) == Finite(k.pi * p.v * 2.0 - k.pi * (u + 1.0))
  {
    var m := k.pi * p.v * 2.0;
    MeanAnomaly(p, k);
    var e := KeplerSolution(m, k);
    var r := 1.0 / k.pi;
    assert RcpPi(k) == Finite(r);
    assert Mul(Finite(e), Finite(r)) == Finite(e * r);
    u := e * r - 1.0;
    assert Sub(Finite(e * r), One) == Finite(u);
    assert k.sinPi(Finite(u)) == Finite(m - e);
    ReciprocalScale(k.pi, r, e);
    assert u + 1.0 == e * r;
  }

  /** e r lies in (0, 2) and pi (e r) = e, for r = 1/pi and e in (0, 2 pi). */
  lemma ReciprocalScale(pi: real, r: real, e: real)
    requires pi > 0.0 && r == 1.0 / pi && 0.0 < e < 2.0 * pi
    ensures 0.0 < e * r
    ensures e * r < 2.0
    ensures pi * (e * r) == e
  {
    assert pi * r == 1.0;
    assert r > 0.0;
    ProductPositive(e, r);
    assert pi * (e * r) == e * (pi * r);
    var q := e * r;
    assert pi * q == e;
    assert pi * q < pi * 2.0;
    ProductCancelLt(pi, q, 2.0);
  }

  /** 2 pi p, for p in (0, 1), is a mean anomaly in (0, 2 pi). */
  lemma MeanAnomaly(p: XReal, k: Kernels)
    requires InOpenUnit(p)
    ensures Mul(Mul(Pi(k), p), Finite(2.0)) == Finite(k.pi * p.v * 2.0)
    ensures 0.0 < k.pi * p.v * 2.0 < 2.0 * k.pi
  {
    assert k.pi * p.v < k.pi * 1.0;
  }

  /** The eccentric anomaly e at mean anomaly m, as a named real. */
  lemma KeplerSolution(m: real, k: Kernels) returns (e: real)
    requires 0.0 < m < 2.0 * k.pi && KeplerLaw(k)
    ensures k.keplerE(Finite(m), One) == Finite(e) && 0.0 < e < 2.0 * k.pi
    ensures k.sinPi(Sub(Mul(Finite(e), RcpPi(k)), One)) == Finite(m - e)
  {
    e := k.keplerE(Finite(m), One).v;
  }

  /** The two tails' quantiles mirror each other about mu at every p in
      [0, 1]: Lower(p) + Upper(p) = 2 mu. */
  lemma QuantileReflection(d: Cosine, p: XReal, k: Kernels)
    requires Valid(d) && InRangeUnit(p) && KeplerLaw(k)
    ensures Quantile(d, p, Lower, k).Finite? && Quantile(d, p, Upper, k).Finite?
    ensures Quantile(d, p, Lower, k).v + Quantile(d, p, Upper, k).v == 2.0 * d.mu
  {
    if KeplerRegion(p) {
      assert InOpenUnit(p);
      var u := KeplerOffsetRange(p, k);
      KeplerQuantile(d, p, Lower, u, k);
      KeplerQuantile(d, p, Upper, u, k);
    }
  }

  /** The quantile stays within the support. */
  lemma QuantileWithinSupport(d: Cosine, p: XReal, interval: Interval, k: Kernels)
    requires Valid(d) && InRangeUnit(p) && KeplerLaw(k)
    ensures Quantile(d, p, interval, k).Finite?
    ensures Lo(d) <= Quantile(d, p, interval, k).v <= Hi(d)
  {
    if KeplerRegion(p) {
      KeplerWithinSupport(d, p, interval, k);
    } else {
      ThresholdQuantile(d, p, interval, k);
    }
  }

  /** In the Kepler region the quantile lies strictly inside the support. */
  lemma KeplerWithinSupport(d: Cosine, p: XReal, interval: Interval, k: Kernels)
    requires Valid(d) && InRangeUnit(p) && KeplerLaw(k) && KeplerRegion(p)
    ensures Quantile(d, p, interval, k).Finite?
    ensures Lo(d) < Quantile(d, p, interval, k).v < Hi(d)
  {
    var u := KeplerOffsetBounds(p, k);
    OffsetWithinSupport(d, u, interval);
    KeplerQuantile(d, p, interval, u, k);
  }

  /** mu + sigma u and mu - sigma u lie strictly inside the support for u
      in (-1, 1). */
  lemma OffsetWithinSupport(d: Cosine, u: real, interval: Interval)
    requires Valid(d) && -1.0 < u < 1.0
    ensures var x := if interval.Lower? then d.mu + d.sigma * u else d.mu - d.sigma * u;
      Lo(d) < x < Hi(d)
  {
    var w := ScaledOffsetRange(d.sigma, u);
    if interval.Lower? {
      assert d.mu - d.sigma < d.mu + w < d.mu + d.sigma;
    } else {
      assert d.mu - d.sigma < d.mu - w < d.mu + d.sigma;
    }
  }

  /** In the Kepler region the standardised quantile lies in (-1, 1). */
  lemma KeplerOffsetBounds(p: XReal, k: Kernels) returns (u: real)
    requires KeplerRegion(p) && KeplerLaw(k)
    ensures KeplerOffset(p, k) == Finite(u) && -1.0 < u < 1.0
  {
    assert InOpenUnit(p);
    u := KeplerOffsetRange(p, k);
  }

  /** Outside the Kepler region the quantile is the near end of the support
      for p within Eps of 0, the far end for p within Eps of 1, and the
      location for p within Eps of 1/2; the Upper tail swaps the ends. */
  lemma ThresholdQuantile(d: Cosine, p: XReal, interval: Interval, k: Kernels)
    requires Valid(d) && InRangeUnit(p) && !KeplerRegion(p)
    ensures p.v < Eps ==>
      Quantile(d, p, interval, k) == Finite(if interval.Lower? then Lo(d) else Hi(d))
    ensures p.v >= Eps && 1.0 - p.v < Eps ==>
      Quantile(d, p, interval, k) == Finite(if interval.Lower? then Hi(d) else Lo(d))
    ensures p.v >= Eps && 1.0 - p.v >= Eps ==> Quantile(d, p, interval, k) == Finite(d.mu)
  {
  }

  /** In the Kepler region the quantile is mu + sigma u (Lower) or
      mu - sigma u (Upper). */
  lemma KeplerQuantile(d: Cosine, p: XReal, interval: Interval, u: real, k: Kernels)
    requires Valid(d) && KeplerRegion(p) && KeplerOffset(p, k) == Finite(u)
    ensures Quantile(d, p, interval, k) == Finite(if interval.Lower? then d.mu + d.sigma * u else d.mu - d.sigma * u)
  {
    assert Mul(Finite(d.sigma), Finite(u)) == Finite(d.sigma * u);
  }

  /** sigma u lies in (-sigma, sigma) for u in (-1, 1). */
  lemma ScaledOffsetRange(sigma: real, u: real) returns (w: real)
    requires sigma > 0.0 && -1.0 < u < 1.0
    ensures w == sigma * u && -sigma < w < sigma
  {
    w := sigma * u;
    ProductPositive(sigma, 1.0 - u);
    DistributeDifference(1.0, u, sigma);
    ProductPositive(sigma, u + 1.0);
  }

  /** Where the quantile solves Kepler's equation, the Lower tail at the
      Lower quantile is p again. */
  lemma QuantileRoundTripLower(d: Cosine, p: XReal, k: Kernels)
    requires Valid(d) && KeplerRegion(p) && KeplerLaw(k)
    ensures CDF(d, Quantile(d, p, Lower, k), Lower, k) == p
  {
    assert InOpenUnit(p);
    var u := KeplerOffsetRange(p, k);
    var x := Finite(d.mu + d.sigma * u);
    KeplerQuantile(d, p, Lower, u, k);
    StandardizeAffine(d.mu, u, d.sigma);
    assert d.mu + d.sigma * u == d.mu + u * d.sigma;
    assert Standardize(x, d.mu, d.sigma) == Finite(u);
    StandardTailAtKepler(p, u, k);
  }

  /** Where the quantile solves Kepler's equation, the Upper tail at the
      Upper quantile is p again. */
  lemma QuantileRoundTripUpper(d: Cosine, p: XReal, k: Kernels)
    requires Valid(d) && KeplerRegion(p) && KeplerLaw(k) && SinPiLaws(k)
    ensures CDF(d, Quantile(d, p, Upper, k), Upper, k) == p
  {
    assert InOpenUnit(p);
    var u := KeplerOffsetRange(p, k);
    var w := UpperQuantileStandardizes(d, p, u, k);
    UpperTailAtMirror(d, Quantile(d, p, Upper, k), u, k);
    StandardTailAtKepler(p, u, k);
  }

  /** Where x standardises to -u, u in (-1, 1), the Upper tail equals the
      standardised Lower tail at u. */
  lemma UpperTailAtMirror(d: Cosine, x: XReal, u: real, k: Kernels)
    requires Valid(d) && -1.0 < u < 1.0 && SinPiLaws(k)
    requires Standardize(x, d.mu, d.sigma) == Neg(Finite(u))
    ensures CDF(d, x, Upper, k) == Mul(Add(Add(One, Finite(u)), Mul(k.sinPi(Finite(u)), RcpPi(k))), Half)
  {
    var w := Neg(Finite(u));
    assert k.sinPi(w) == Neg(k.sinPi(Finite(u)));
    var s := k.sinPi(Finite(u));
    var a := s.v * (1.0 / k.pi);
    assert Mul(s, RcpPi(k)) == Finite(a);
    assert Div(Neg(s), Pi(k)) == Finite(-a);
    assert Sub(Sub(One, w), Finite(-a)) == Add(Add(One, Finite(u)), Finite(a));
  }

  /** The Upper quantile mu - sigma u standardises to -u. */
  lemma UpperQuantileStandardizes(d: Cosine, p: XReal, u: real, k: Kernels) returns (w: XReal)
    requires Valid(d) && KeplerRegion(p) && KeplerOffset(p, k) == Finite(u)
    ensures w == Standardize(Quantile(d, p, Upper, k), d.mu, d.sigma)
    ensures w == Neg(Finite(u))
  {
    var x := Finite(d.mu - d.sigma * u);
    KeplerQuantile(d, p, Upper, u, k);
    StandardizeAffine(d.mu, u, d.sigma);
    w := Standardize(x, d.mu, d.sigma);
  }

  /** The standardised Lower tail at the Kepler offset u:
      (1 + u + sin(pi u)/pi)/2 = p. */
  lemma StandardTailAtKepler(p: XReal, u: real, k: Kernels)
    requires InOpenUnit(p)
    requires k.sinPi(Finite(u)) == Finite(k.pi * p.v * 2.0 - k.pi * (u + 1.0))
    ensures Mul(Add(Add(One, Finite(u)), Mul(k.sinPi(Finite(u)), RcpPi(k))), Half) == p
  {
    var s := k.pi * p.v * 2.0 - k.pi * (u + 1.0);
    var r := 1.0 / k.pi;
    assert RcpPi(k) == Finite(r);
    KeplerTailArith(k.pi, r, p.v, u, s);
    assert Mul(Finite(s), Finite(r)) == Finite(s * r);
    assert Add(Add(One, Finite(u)), Finite(s * r)) == Finite(p.v * 2.0);
  }

  /** (pi p 2 - pi (u + 1)) / pi = 2 p - (u + 1). */
  lemma KeplerTailArith(pi: real, r: real, p: real, u: real, s: real)
    requires pi > 0.0 && r == 1.0 / pi && s == pi * p * 2.0 - pi * (u + 1.0)
    ensures s * r == p * 2.0 - (u + 1.0)
  {
    assert s == (p * 2.0 - (u + 1.0)) * pi;
    assert pi * r == 1.0;
    assert s * r == (p * 2.0 - (u + 1.0)) * (pi * r);
  }

  // ---------------------------------------------------------------------
  // Moments and family operators

  /** The variance is positive: 1 - 6/pi^2 > 0 since pi^2 > 9. */
  /** With 3.14 < pi < 3.15: pi^4 > 90 and 5 (pi^2 - 6)^2 > 74, so the
      kurtosis numerator 6 (90 - pi^4) lies in (-60, 0). */
  lemma KurtosisBounds(pi: real, pi2: real, t: real)
    requires 3.14 < pi < 3.15 && pi2 == pi * pi && t == pi2 - 6.0
    ensures t != 0.0 && -2.0 < 6.0 * (90.0 - pi2 * pi2) / (5.0 * (t * t)) < 0.0
  {
    assert 9.8596 < pi2 < 9.9225 by {
      assert pi * pi > 3.14 * pi > 3.14 * 3.14;
      assert pi * pi < 3.15 * pi < 3.15 * 3.15;
    }
    var q := pi2 * pi2;
    assert 97.0 < q < 99.0 by {
      assert pi2 * pi2 > 9.8596 * pi2 > 9.8596 * 9.8596;
      assert pi2 * pi2 < 9.9225 * pi2 < 9.9225 * 9.9225;
    }
    var t2 := t * t;
    assert t2 > 14.0 by {
      assert t > 3.8;
      assert t * t > 3.8 * t > 3.8 * 3.8;
    }
    var num := 6.0 * (90.0 - q);
    var den := 5.0 * t2;
    assert -60.0 < num < 0.0;
    assert den > 70.0;
    var r := num / den;
    assert r * den == num;
    FactorPositive(den, -r, -num);
    FactorPositive(den, r + 2.0, num + 2.0 * den);
  }

  /** With pi > 3: 0 < 6/pi^2 < 1, so s2 (1 - 6/pi^2)/3 lies in (0, s2/3). */
  lemma VarianceBounds(s2: real, pi: real, r: real)
    requires s2 > 0.0 && 3.0 < pi && r == s2 * (1.0 - 6.0 / (pi * pi)) / 3.0
    ensures 0.0 < r < s2 / 3.0
  {
    var p2 := pi * pi;
    assert p2 > 9.0 by { assert pi * pi > 3.0 * pi; }
    var q := 6.0 / p2;
    assert q * p2 == 6.0;
    FactorPositive(p2, q, 6.0);
    FactorPositive(p2, 1.0 - q, p2 - 6.0);
    ProductPositive(s2, 1.0 - q);
    ProductPositive(s2, q);
  }

  /** Scaling by c multiplies the variance by c^2 and leaves the location
      statistics scaled by c. */
  lemma MomentsUnderScale(d: Cosine, c: real, k: Kernels)
    requires Valid(d) && c > 0.0
    ensures Variance(Times(d, c).value, k) == c * c * Variance(d, k)
    ensures Mean(Times(d, c).value) == c * Mean(d)
  {
    var d' := Times(d, c).value;
    var f := 1.0 - 6.0 / (k.pi * k.pi);
    assert d'.sigma * d'.sigma == c * c * (d.sigma * d.sigma);
    assert d'.sigma * d'.sigma * f / 3.0 == c * c * (d.sigma * d.sigma * f / 3.0);
  }

  /** Shifting moves the location statistics and nothing else. */
  lemma MomentsUnderShift(d: Cosine, s: real, k: Kernels)
    requires Valid(d)
    ensures Mean(Plus(d, s)) == Mean(d) + s && Median(Plus(d, s)) == Median(d) + s
    ensures Mode(Plus(d, s)) == Mode(d) + s
    ensures Variance(Plus(d, s), k) == Variance(d, k)
    ensures Entropy(Plus(d, s), k) == Entropy(d, k)
  {
  }

  /** Multiplying and dividing by the same positive c restores the
      distribution. */
  lemma TimesDivideRoundTrip(d: Cosine, c: real)
    requires Valid(d) && c > 0.0
    ensures Divide(Times(d, c).value, c) == Ok(d)
  {
    var d' := Times(d, c).value;
    assert d' == Cosine(d.mu * c, d.sigma * c);
    assert d.mu * c / c == d.mu;
    assert d.sigma * c / c == d.sigma;
    assert Divide(d', c) == Create(d.mu, d.sigma);
  }

  /** Shifting then shifting back restores the distribution. */
  lemma PlusMinusRoundTrip(d: Cosine, s: real)
    requires Valid(d)
    ensures Minus(Plus(d, s), s) == d && Plus(Minus(d, s), s) == d
  {
  }
}
