/** The Cauchy distribution with location mu and scale gamma: a stable
    family of index 1, so the sum or difference of two independent members
    is again a member, with locations adding (or subtracting) and scales
    always adding. */
module Cauchy {
  import opened ExtReal
  import opened Numerics
  import opened Wrappers
  import opened LocationScale
  import opened RealArith

  datatype Cauchy = Cauchy(mu: real, gamma: real)

  predicate Valid(d: Cauchy)
  {
    d.gamma > 0.0
  }

  /** The constructor: the location is any real, the scale must be positive. */
  function Create(mu: real, gamma: real): (r: Result<Cauchy>)
    ensures r.Ok? <==> gamma > 0.0
    ensures r.Ok? ==> Valid(r.value) && r.value.mu == mu && r.value.gamma == gamma
  {
    if gamma > 0.0 then Ok(Cauchy(mu, gamma)) else Invalid("gamma")
  }

  /** The parameterless constructor: mu = 0, gamma = 1. */
  const Standard: Cauchy := Cauchy(0.0, 1.0)

  /** gamma^2, cached by the constructor. */
  function GammaSq(d: Cauchy): (r: real)
    requires Valid(d)
    ensures r > 0.0
  {
    var g2 := d.gamma * d.gamma;
    SquarePositive(d.gamma, g2);
    g2
  }

  /** gamma / (pi ((x - mu)^2 + gamma^2)): NaN exactly at NaN, 0 at both
      infinities and a positive real everywhere else. */
  function PDF(d: Cauchy, x: XReal, k: Kernels): (r: XReal)
    requires Valid(d)
    ensures x.NaN? <==> r.NaN?
    ensures IsInfinity(x) ==> r == Zero
    ensures x.Finite? ==> r.Finite? && r.v > 0.0
  {
    var pdfNorm := Mul(RcpPi(k), Finite(d.gamma));
    var den := Add(Square(Sub(x, Finite(d.mu))), Finite(GammaSq(d)));
    NormPositive(k, d.gamma);
    var n := pdfNorm.v;
    if x.Finite? then
      var t := x.v - d.mu;
      assert Sub(x, Finite(d.mu)) == Finite(t);
      FiniteDensity(n, t, GammaSq(d));
      Div(pdfNorm, den)
    else
      NonFiniteDensity(n, x, d.mu, GammaSq(d));
      Div(pdfNorm, den)
  }

  /** gamma/pi is a positive real. */
  lemma NormPositive(k: Kernels, gamma: real)
    requires gamma > 0.0
    ensures Mul(RcpPi(k), Finite(gamma)).Finite? && Mul(RcpPi(k), Finite(gamma)).v > 0.0
  {
    ProductPositive(1.0 / (k.pi as real), gamma);
  }

  /** n / ((x - mu)^2 + g2) is NaN at NaN and 0 at both infinities. */
  lemma NonFiniteDensity(n: real, x: XReal, mu: real, g2: real)
    requires n > 0.0 && !x.Finite?
    ensures Div(Finite(n), Add(Square(Sub(x, Finite(mu))), Finite(g2))) == (if x.NaN? then NaN else Zero)
  {
    if !x.NaN? {
      assert Sub(x, Finite(mu)) == x;
      assert Square(x) == PosInf;
    }
  }

  /** n / (t^2 + g2) is a positive real for n, g2 > 0. */
  lemma FiniteDensity(n: real, t: real, g2: real)
    requires n > 0.0 && g2 > 0.0
    ensures Div(Finite(n), Add(Square(Finite(t)), Finite(g2))) == Finite(n / (t * t + g2))
    ensures n / (t * t + g2) > 0.0
  {
    SquareNonNegative(t);
    QuotientPositive(n, t * t + g2);
  }

  /** The standardised argument of a tail: (x - mu)/gamma for Lower,
      (mu - x)/gamma for Upper. */
  function TailArgument(d: Cauchy, x: XReal, interval: Interval): (u: XReal)
    requires Valid(d)
    ensures x.NaN? <==> u.NaN?
    ensures interval.Upper? ==> u == Neg(Standardize(x, d.mu, d.gamma))
  {
    ReflectIsNegated(x, d.mu, d.gamma);
    if interval.Lower? then Standardize(x, d.mu, d.gamma) else Reflect(x, d.mu, d.gamma)
  }

  /** atan(u)/pi + 1/2 */
  function StandardCDF(u: XReal, k: Kernels): (r: XReal)
    ensures AtanLaws(k) ==> (u.NaN? <==> r.NaN?)
    ensures AtanLaws(k) && !u.NaN? ==> r.Finite? && 0.0 <= r.v <= 1.0
  {
    AtanOverPi(k, u);
    Add(Mul(k.atan(u), RcpPi(k)), Half)
  }

  /** Lower: atan((x - mu)/gamma)/pi + 1/2; Upper: atan((mu - x)/gamma)/pi + 1/2. */
  function CDF(d: Cauchy, x: XReal, interval: Interval, k: Kernels): (r: XReal)
    requires Valid(d)
    ensures AtanLaws(k) ==> (x.NaN? <==> r.NaN?)
    ensures AtanLaws(k) && !x.NaN? ==> r.Finite? && 0.0 <= r.v <= 1.0
  {
    StandardCDF(TailArgument(d, x, interval), k)
  }

  /** Lower: mu + gamma tan(pi (p - 1/2)); Upper: mu - gamma tan(pi (p - 1/2));
      NaN for p outside [0, 1]. */
  function Quantile(d: Cauchy, p: XReal, interval: Interval, k: Kernels): (r: XReal)
    requires Valid(d)
    ensures !InRangeUnit(p) ==> r.NaN?
    ensures AtanTanPiLaw(k) && InOpenUnit(p) ==> r.Finite?
  {
    if !InRangeUnit(p) then NaN
    else
      var t := k.tanPi(Sub(p, Half));
      if interval.Lower? then Add(Finite(d.mu), Mul(Finite(d.gamma), t))
      else Sub(Finite(d.mu), Mul(Finite(d.gamma), t))
  }

  predicate Symmetric(d: Cauchy) { true }

  /** log(4 pi gamma) */
  function Entropy(d: Cauchy, k: Kernels): XReal
    requires Valid(d)
  {
    k.log(Finite(4.0 * k.pi * d.gamma))
  }

  function Median(d: Cauchy): real { d.mu }

  function Mode(d: Cauchy): real { d.mu }

  /** Stability index, skewness parameter and scale of the stable family. */
  function Alpha(d: Cauchy): real { 1.0 }

  function Beta(d: Cauchy): real { 0.0 }

  function C(d: Cauchy): real { d.gamma }

  /** Sum of two independent Cauchy variables. */
  function Sum(d1: Cauchy, d2: Cauchy): (r: Cauchy)
    requires Valid(d1) && Valid(d2)
    ensures Valid(r)
    ensures r.mu == d1.mu + d2.mu && r.gamma == d1.gamma + d2.gamma
  {
    Cauchy(d1.mu + d2.mu, d1.gamma + d2.gamma)
  }

  /** Difference of two independent Cauchy variables: the scales still add. */
  function Difference(d1: Cauchy, d2: Cauchy): (r: Cauchy)
    requires Valid(d1) && Valid(d2)
    ensures Valid(r)
    ensures r.mu == d1.mu - d2.mu && r.gamma == d1.gamma + d2.gamma
  {
    Cauchy(d1.mu - d2.mu, d1.gamma + d2.gamma)
  }

  /** dist + s */
  function Plus(d: Cauchy, s: real): (r: Cauchy)
    requires Valid(d)
    ensures Valid(r) && r.mu == d.mu + s && r.gamma == d.gamma
  {
    Cauchy(d.mu + s, d.gamma)
  }

  /** dist - s */
  function Minus(d: Cauchy, s: real): (r: Cauchy)
    requires Valid(d)
    ensures Valid(r) && r.mu == d.mu - s && r.gamma == d.gamma
  {
    Cauchy(d.mu - s, d.gamma)
  }

  /** dist * c: the constructor rejects the result unless c > 0. */
  function Times(d: Cauchy, c: real): (r: Result<Cauchy>)
    requires Valid(d)
    ensures r.Ok? <==> c > 0.0
    ensures r.Ok? ==> Valid(r.value) && r.value.mu == d.mu * c && r.value.gamma == d.gamma * c
  {
    Create(d.mu * c, d.gamma * c)
  }

  // ---------------------------------------------------------------------
  // Density

  /** The density is symmetric about the location. */
  lemma PDFSymmetric(d: Cauchy, t: real, k: Kernels)
    requires Valid(d)
    ensures Symmetric(d)
    ensures PDF(d, Finite(d.mu + t), k) == PDF(d, Finite(d.mu - t), k)
  {
    assert Sub(Finite(d.mu + t), Finite(d.mu)) == Finite(t);
    assert Sub(Finite(d.mu - t), Finite(d.mu)) == Neg(Finite(t));
    SquareNeg(Finite(t));
  }


  /** The mode mu is the unique maximum of the density. */
  lemma ModeMaximisesDensity(d: Cauchy, x: real, k: Kernels)
    requires Valid(d)
    ensures PDF(d, Finite(x), k).v <= PDF(d, Finite(Mode(d)), k).v
    ensures x != Mode(d) ==> PDF(d, Finite(x), k).v < PDF(d, Finite(Mode(d)), k).v
  {
    var n, s := DensityAt(d, x, k);
    var n', s' := DensityAt(d, Mode(d), k);
    if x != Mode(d) {
      QuotientStrictAntitone(n, s', s);
    }
  }

  /**
   * At a real x the density is n / s with n = gamma/pi and
   * s = (x - mu)^2 + gamma^2, so s is least, gamma^2, exactly at x = mu.
   */
  lemma DensityAt(d: Cauchy, x: real, k: Kernels) returns (n: real, s: real)
    requires Valid(d)
    ensures n == (1.0 / (k.pi as real)) * d.gamma && n > 0.0
    ensures s >= GammaSq(d) > 0.0 && (s == GammaSq(d) <==> x == d.mu)
    ensures PDF(d, Finite(x), k) == Finite(n / s)
  {
    n := (1.0 / (k.pi as real)) * d.gamma;
    ProductPositive(1.0 / (k.pi as real), d.gamma);
    assert Mul(RcpPi(k), Finite(d.gamma)) == Finite(n);
    var t := x - d.mu;
    assert Sub(Finite(x), Finite(d.mu)) == Finite(t);
    s := t * t + GammaSq(d);
    SquareNonNegative(t);
    if t > 0.0 {
      SquarePositive(t, t * t);
    } else if t < 0.0 {
      SquarePositive(-t, t * t);
    }
  }

  // ---------------------------------------------------------------------
  // Cumulative distribution

  /** Lower and Upper tails are exact complements, given that atan is odd. */
  lemma CDFComplement(d: Cauchy, x: XReal, k: Kernels)
    requires Valid(d) && AtanLaws(k) && !x.NaN?
    ensures Add(CDF(d, x, Lower, k), CDF(d, x, Upper, k)) == One
  {
    var u := Standardize(x, d.mu, d.gamma);
    assert k.atan(Neg(u)) == Neg(k.atan(u));
    assert k.atan(u).Finite?;
    var a := k.atan(u).v;
    var r := 1.0 / (k.pi as real);
    assert RcpPi(k) == Finite(r);
    assert StandardCDF(u, k) == Finite(a * r + 0.5);
    assert StandardCDF(Neg(u), k) == Finite((-a) * r + 0.5);
  }

  /** For the standard member (mu = 0, gamma = 1): PDF(0) = 1/pi. */
  lemma StandardPDFAtZero(k: Kernels)
    ensures PDF(Standard, Zero, k) == RcpPi(k)
  {
    assert Sub(Zero, Zero) == Zero;
    assert Square(Zero) == Zero;
    StandardGammaSq();
    assert Add(Zero, One) == One;
    var r := 1.0 / (k.pi as real);
    assert RcpPi(k) == Finite(r);
    MulOne(r);
    DivOne(r);
  }

  lemma StandardGammaSq()
    ensures GammaSq(Standard) == 1.0
  {
  }

  /** For the standard member: CDF(0) = 1/2 in both tails. */
  lemma StandardCDFAtZero(k: Kernels)
    requires AtanLaws(k)
    ensures CDF(Standard, Zero, Lower, k) == Half && CDF(Standard, Zero, Upper, k) == Half
  {
    CDFAtMedian(Standard, k);
  }

  /** The Lower tail at mu + t equals the Upper tail at mu - t. */
  lemma CDFReflection(d: Cauchy, t: real, k: Kernels)
    requires Valid(d)
    ensures CDF(d, Finite(d.mu + t), Lower, k) == CDF(d, Finite(d.mu - t), Upper, k)
  {
    assert (d.mu + t - d.mu) * (1.0 / d.gamma) == (d.mu - (d.mu - t)) * (1.0 / d.gamma);
  }

  /** Half the mass lies on each side of the median. */
  lemma CDFAtMedian(d: Cauchy, k: Kernels)
    requires Valid(d) && AtanLaws(k)
    ensures CDF(d, Finite(Median(d)), Lower, k) == Half
    ensures CDF(d, Finite(Median(d)), Upper, k) == Half
  {
    var x := Finite(d.mu);
    assert Standardize(x, d.mu, d.gamma) == Zero;
    assert Neg(Zero) == Zero;
    assert k.atan(Neg(Zero)) == Neg(k.atan(Zero));
    assert k.atan(Zero) == Zero;
    ReflectIsNegated(x, d.mu, d.gamma);
  }


  /** Shifting the distribution and the argument together leaves the CDF unchanged. */
  lemma CDFShiftInvariant(d: Cauchy, s: real, x: XReal, interval: Interval, k: Kernels)
    requires Valid(d)
    ensures CDF(Plus(d, s), Add(x, Finite(s)), interval, k) == CDF(d, x, interval, k)
  {
    TailArgumentShift(d, s, x, interval);
  }

  /** The standardised tail argument is unchanged by a common shift. */
  lemma TailArgumentShift(d: Cauchy, s: real, x: XReal, interval: Interval)
    requires Valid(d)
    ensures TailArgument(Plus(d, s), Add(x, Finite(s)), interval) == TailArgument(d, x, interval)
  {
    ShiftInvariant(x, d.mu, d.gamma, s);
    ReflectIsNegated(x, d.mu, d.gamma);
    ReflectIsNegated(Add(x, Finite(s)), d.mu + s, d.gamma);
  }

  /** Scaling the distribution and the argument by c > 0 leaves the CDF unchanged. */
  lemma CDFScaleInvariant(d: Cauchy, c: real, x: XReal, interval: Interval, k: Kernels)
    requires Valid(d) && c > 0.0
    ensures CDF(Times(d, c).value, Mul(x, Finite(c)), interval, k) == CDF(d, x, interval, k)
  {
    TailArgumentScale(d, c, x, interval);
  }

  /** The standardised tail argument is unchanged by a common positive scale. */
  lemma TailArgumentScale(d: Cauchy, c: real, x: XReal, interval: Interval)
    requires Valid(d) && c > 0.0
    ensures TailArgument(Times(d, c).value, Mul(x, Finite(c)), interval) == TailArgument(d, x, interval)
  {
    var d' := Times(d, c).value;
    assert d' == Cauchy(d.mu * c, d.gamma * c);
    ScaleInvariant(x, d.mu, d.gamma, c);
  }

  // ---------------------------------------------------------------------
  // Quantile

  /** The Upper quantile is the Lower quantile reflected about the location:
      Upper(p) = 2 mu - Lower(p), for every p (NaN and infinities included). */
  lemma QuantileReflection(d: Cauchy, p: XReal, k: Kernels)
    requires Valid(d)
    ensures Quantile(d, p, Upper, k) == Sub(Finite(2.0 * d.mu), Quantile(d, p, Lower, k))
  {
  }

  /** At p = 0 and p = 1 the quantile is the matching end of the support,
      given that tan(pi t) has its poles at -1/2 and 1/2. */
  lemma QuantileEnds(d: Cauchy, k: Kernels)
    requires Valid(d) && TanPiPoles(k)
    ensures Quantile(d, Zero, Lower, k) == NegInf && Quantile(d, One, Lower, k) == PosInf
    ensures Quantile(d, Zero, Upper, k) == PosInf && Quantile(d, One, Upper, k) == NegInf
  {
    assert Sub(Zero, Half) == Finite(-0.5);
    assert Sub(One, Half) == Half;
    assert Mul(Finite(d.gamma), NegInf) == NegInf;
    assert Mul(Finite(d.gamma), PosInf) == PosInf;
  }

  /** For p in (0, 1) the quantile inverts the CDF in both tails, given
      atan(tan(pi t)) = pi t on (-1/2, 1/2). */
  lemma QuantileRoundTrip(d: Cauchy, p: XReal, interval: Interval, k: Kernels)
    requires Valid(d) && InOpenUnit(p) && AtanTanPiLaw(k)
    ensures CDF(d, Quantile(d, p, interval, k), interval, k) == p
  {
    var tv := p.v - 0.5;
    assert Sub(p, Half) == Finite(tv);
    QuantileStandardizes(d, p, interval, k);
    var u := TailArgument(d, Quantile(d, p, interval, k), interval);
    assert k.atan(u) == Finite(k.pi * tv);
    assert k.pi * tv * (1.0 / k.pi) == tv;
    assert Mul(k.atan(u), RcpPi(k)) == Finite(tv);
    assert CDF(d, Quantile(d, p, interval, k), interval, k) == StandardCDF(u, k) == Add(Finite(tv), Half);
  }

  /** The tail argument at the p-quantile is tan(pi (p - 1/2)). */
  lemma QuantileStandardizes(d: Cauchy, p: XReal, interval: Interval, k: Kernels)
    requires Valid(d) && InOpenUnit(p) && AtanTanPiLaw(k)
    ensures TailArgument(d, Quantile(d, p, interval, k), interval) == k.tanPi(Sub(p, Half))
  {
    var g := d.gamma;
    var tv := p.v - 0.5;
    assert Sub(p, Half) == Finite(tv);
    var t := k.tanPi(Finite(tv)).v;
    var q := Quantile(d, p, interval, k);
    if interval.Lower? {
      assert q == Finite(d.mu + g * t);
      var u := Standardize(q, d.mu, g);
      assert u.v * g == g * t;
      assert u == Finite(t);
    } else {
      assert q == Finite(d.mu - g * t);
      var u := Reflect(q, d.mu, g);
      assert u == Finite((d.mu - (d.mu - g * t)) * (1.0 / g));
      assert (d.mu - (d.mu - g * t)) == g * t;
      assert g * t * (1.0 / g) == t;
    }
  }

  // ---------------------------------------------------------------------
  // Stable-family parameters and composition

  /** Stability index 1 and skewness 0 for every member; under Sum the
      location and the scale C both add, so the sum stays in the family. */
  lemma SumFollowsStableRule(d1: Cauchy, d2: Cauchy)
    requires Valid(d1) && Valid(d2)
    ensures Alpha(Sum(d1, d2)) == Alpha(d1) == Alpha(d2) == 1.0
    ensures Beta(Sum(d1, d2)) == 0.0
    ensures C(Sum(d1, d2)) == C(d1) + C(d2)
    ensures Median(Sum(d1, d2)) == Median(d1) + Median(d2)
  {
  }

  lemma SumCommutes(d1: Cauchy, d2: Cauchy)
    requires Valid(d1) && Valid(d2)
    ensures Sum(d1, d2) == Sum(d2, d1)
  {
  }

  lemma SumAssociates(d1: Cauchy, d2: Cauchy, d3: Cauchy)
    requires Valid(d1) && Valid(d2) && Valid(d3)
    ensures Sum(Sum(d1, d2), d3) == Sum(d1, Sum(d2, d3))
  {
  }

  /** Subtracting a variable is adding its mirror image Cauchy(-mu, gamma). */
  lemma DifferenceIsSumOfMirror(d1: Cauchy, d2: Cauchy)
    requires Valid(d1) && Valid(d2)
    ensures Difference(d1, d2) == Sum(d1, Cauchy(-d2.mu, d2.gamma))
  {
  }

  /** Shifting then shifting back restores the distribution; shifts compose. */
  lemma PlusMinusRoundTrip(d: Cauchy, s: real, t: real)
    requires Valid(d)
    ensures Minus(Plus(d, s), s) == d
    ensures Plus(Plus(d, s), t) == Plus(d, s + t)
  {
  }

  /** The entropy does not depend on the location. */
  lemma EntropyShiftInvariant(d: Cauchy, s: real, k: Kernels)
    requires Valid(d)
    ensures Entropy(Plus(d, s), k) == Entropy(d, k)
  {
  }

  /** Shifting one operand shifts the sum. */
  lemma PlusCommutesWithSum(d1: Cauchy, d2: Cauchy, s: real)
    requires Valid(d1) && Valid(d2)
    ensures Sum(Plus(d1, s), d2) == Plus(Sum(d1, d2), s)
  {
  }

  /** Scaling distributes over Sum, and scalings compose. */
  lemma TimesDistributesOverSum(d1: Cauchy, d2: Cauchy, c: real, c': real)
    requires Valid(d1) && Valid(d2) && c > 0.0 && c' > 0.0
    ensures Times(Sum(d1, d2), c) == Ok(Sum(Times(d1, c).value, Times(d2, c).value))
    ensures Times(Times(d1, c).value, c') == Times(d1, c * c')
  {
    assert c * c' > 0.0;
    assert (d1.mu + d2.mu) * c == d1.mu * c + d2.mu * c;
    assert (d1.gamma + d2.gamma) * c == d1.gamma * c + d2.gamma * c;
    assert Times(Sum(d1, d2), c).value == Cauchy((d1.mu + d2.mu) * c, (d1.gamma + d2.gamma) * c);
    assert Times(d1, c).value == Cauchy(d1.mu * c, d1.gamma * c);
    assert Times(d2, c).value == Cauchy(d2.mu * c, d2.gamma * c);
    assert d1.mu * c * c' == d1.mu * (c * c');
    assert d1.gamma * c * c' == d1.gamma * (c * c');
    assert Times(d1, c * c').value == Cauchy(d1.mu * (c * c'), d1.gamma * (c * c'));
    assert Times(Times(d1, c).value, c').value == Cauchy(d1.mu * c * c', d1.gamma * c * c');
  }

}
