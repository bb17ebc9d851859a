/** The beta prime distribution with shapes alpha and beta on [0, +inf):
    x follows it when x/(x + 1) follows the beta distribution, so both
    tails are regularised incomplete beta functions of that probability. */
module BetaPrime {
  import opened ExtReal
  import opened Numerics
  import opened Wrappers
  import opened RealArith

  datatype BetaPrime = BetaPrime(alpha: real, beta: real)

  predicate Valid(d: BetaPrime)
  {
    d.alpha > 0.0 && d.beta > 0.0
  }

  /** The constructor: both shapes must be positive. */
  function Create(alpha: real, beta: real): (r: Result<BetaPrime>)
    ensures r.Ok? <==> alpha > 0.0 && beta > 0.0
    ensures r.Ok? ==> Valid(r.value) && r.value == BetaPrime(alpha, beta)
  {
    if !(alpha > 0.0) then Invalid("alpha")
    else if !(beta > 0.0) then Invalid("beta")
    else Ok(BetaPrime(alpha, beta))
  }

  /** 1 / B(alpha, beta), cached by the constructor. */
  function PdfNorm(d: BetaPrime, k: Kernels): XReal
  {
    Div(One, k.beta(Finite(d.alpha), Finite(d.beta)))
  }

  /** x^(alpha-1) (1+x)^(-alpha-beta) / B(alpha, beta), evaluated through
      exp and log; 0 at and below 0. */
  function PDFAsWritten(d: BetaPrime, x: XReal, k: Kernels): (r: XReal)
    requires Valid(d)
    ensures Le(x, Zero) ==> r == Zero
  {
    if Le(x, Zero) then Zero
    else
      Mul(PdfNorm(d, k),
          k.exp(Sub(Mul(k.log(x), Finite(d.alpha - 1.0)), Mul(k.log1p(x), Finite(d.alpha + d.beta)))))
  }

  /** The density with the limit 0 at +inf added. */
  function PDF(d: BetaPrime, x: XReal, k: Kernels): (r: XReal)
    requires Valid(d)
    ensures Le(x, Zero) ==> r == Zero
    ensures x.PosInf? ==> r == Zero
  {
    if x.PosInf? then Zero else PDFAsWritten(d, x, k)
  }

  /** As written, the density at +inf is (alpha - 1) inf - (alpha + beta) inf
      under exp: NaN exactly when alpha >= 1 (inf - inf, or inf times 0 at
      alpha = 1), and 0 below. The corrected density is 0 there. */
  lemma PDFAsWrittenNaNAtInfinity(d: BetaPrime, k: Kernels)
    requires Valid(d) && LogEnds(k) && k.log1p(PosInf) == PosInf
    requires ExpLaws(k) && BetaPositive(k)
    ensures PDFAsWritten(d, PosInf, k).NaN? <==> d.alpha >= 1.0
    ensures PDF(d, PosInf, k) == Zero
  {
    var b := k.beta(Finite(d.alpha), Finite(d.beta));
    assert b.Finite? && b.v > 0.0;
    assert PdfNorm(d, k).Finite?;
    assert Mul(k.log1p(PosInf), Finite(d.alpha + d.beta)) == PosInf;
    var a := Mul(k.log(PosInf), Finite(d.alpha - 1.0));
    if d.alpha < 1.0 {
      assert a == NegInf;
      assert k.exp(Sub(a, PosInf)) == Zero;
    } else if d.alpha == 1.0 {
      assert a == NaN;
    } else {
      assert a == PosInf;
    }
  }

  /** On (0, +inf) the density is a positive real. */
  lemma PDFPositive(d: BetaPrime, x: real, k: Kernels)
    requires Valid(d) && x > 0.0
    requires LogLaws(k) && Log1pLaw(k) && ExpLaws(k) && BetaPositive(k)
    ensures PDF(d, Finite(x), k).Finite? && PDF(d, Finite(x), k).v > 0.0
  {
    var b := k.beta(Finite(d.alpha), Finite(d.beta));
    assert b.Finite? && b.v > 0.0;
    QuotientPositive(1.0, b.v);
    assert k.log1p(Finite(x)) == k.log(Finite(1.0 + x));
    var e := Sub(Mul(k.log(Finite(x)), Finite(d.alpha - 1.0)), Mul(k.log1p(Finite(x)), Finite(d.alpha + d.beta)));
    assert e.Finite?;
    ProductPositive(1.0 / b.v, k.exp(e).v);
  }

  /** The tails as the source computes them: I(x/(x+1); alpha, beta) and
      I(1/(x+1); beta, alpha), exact at and below 0. At +inf the Lower tail
      evaluates I at +inf/+inf, which is NaN. */
  function CDFAsWritten(d: BetaPrime, x: XReal, interval: Interval, k: Kernels): (r: XReal)
    requires Valid(d)
    ensures Le(x, Zero) ==> r == (if interval.Lower? then Zero else One)
  {
    if interval.Lower? then
      if Le(x, Zero) then Zero
      else k.incBeta(Div(x, Add(x, One)), Finite(d.alpha), Finite(d.beta))
    else
      if Le(x, Zero) then One
      else k.incBeta(Div(One, Add(x, One)), Finite(d.beta), Finite(d.alpha))
  }

  /** The tails with the Lower one also exact at +inf. */
  function CDF(d: BetaPrime, x: XReal, interval: Interval, k: Kernels): (r: XReal)
    requires Valid(d)
    ensures Le(x, Zero) ==> r == (if interval.Lower? then Zero else One)
    ensures interval.Lower? && x == PosInf ==> r == One
    ensures interval.Upper? || x != PosInf ==> r == CDFAsWritten(d, x, interval, k)
  {
    if interval.Lower? && x == PosInf then One
    else CDFAsWritten(d, x, interval, k)
  }

  /** The odds u/(1 - u) of a probability u. */
  function Odds(u: XReal): XReal
  {
    Div(u, Sub(One, u))
  }

  /** The quantile: NaN outside [0, 1], the ends of the support at the ends
      of [0, 1], otherwise the odds of the inverse incomplete beta function
      at p (Lower) or 1 - p (Upper). */
  function Quantile(d: BetaPrime, p: XReal, interval: Interval, k: Kernels): (r: XReal)
    requires Valid(d)
    ensures !InRangeUnit(p) ==> r.NaN?
    ensures InRangeUnit(p) && p == Zero ==> r == (if interval.Lower? then Zero else PosInf)
    ensures InRangeUnit(p) && p == One ==> r == (if interval.Lower? then PosInf else Zero)
  {
    if !InRangeUnit(p) then NaN
    else if interval.Lower? then
      if Le(p, Zero) then Zero
      else if Ge(p, One) then PosInf
      else Odds(k.invIncBeta(p, Finite(d.alpha), Finite(d.beta)))
    else
      if Le(p, Zero) then PosInf
      else if Ge(p, One) then Zero
      else Odds(k.invIncBeta(Sub(One, p), Finite(d.alpha), Finite(d.beta)))
  }

  /** The support [0, +inf). */
  function Support(d: BetaPrime): (XReal, XReal)
  {
    (Zero, PosInf)
  }

  /** alpha / (beta - 1), defined for beta > 1. */
  function Mean(d: BetaPrime): (r: XReal)
    requires Valid(d)
    ensures r.Finite? <==> d.beta > 1.0
    ensures !r.Finite? ==> r.NaN?
    ensures r.Finite? ==> r.v > 0.0
  {
    if d.beta > 1.0 then
      QuotientPositive(d.alpha, d.beta - 1.0);
      Finite(d.alpha / (d.beta - 1.0))
    else NaN
  }

  /** The median is the Lower quantile at 1/2, so the Lower tail there is 1/2. */
  function Median(d: BetaPrime, k: Kernels): (r: XReal)
    requires Valid(d)
    ensures IncBetaInverseLaw(k) ==> CDF(d, r, Lower, k) == Half
  {
    assert IncBetaInverseLaw(k) ==> CDF(d, Quantile(d, Half, Lower, k), Lower, k) == Half by {
      if IncBetaInverseLaw(k) { QuantileRoundTripLower(d, Half, k); }
    }
    Quantile(d, Half, Lower, k)
  }

  /** The mode exactly as the source computes it: alpha - 1/(beta + 1) for
      alpha >= 1, else 0. From alpha >= 1 on it overshoots the stationary
      point by alpha beta/(beta + 1). */
  function ModeAsWritten(d: BetaPrime): (r: real)
    requires Valid(d)
    ensures d.alpha < 1.0 ==> r == Mode(d) == 0.0
    ensures d.alpha >= 1.0 ==> r == Mode(d) + d.alpha * d.beta / (d.beta + 1.0) && r > Mode(d)
  {
    if d.alpha >= 1.0 then
      ModeOvershoot(d.alpha, d.beta);
      d.alpha - 1.0 / (d.beta + 1.0)
    else 0.0
  }

  /** alpha - 1/(beta + 1) = (alpha - 1)/(beta + 1) + alpha beta/(beta + 1),
      and the second term is positive. */
  lemma ModeOvershoot(alpha: real, beta: real)
    requires alpha > 0.0 && beta > 0.0
    ensures alpha - 1.0 / (beta + 1.0) == (alpha - 1.0) / (beta + 1.0) + alpha * beta / (beta + 1.0)
    ensures alpha * beta / (beta + 1.0) > 0.0
  {
    var b := beta + 1.0;
    assert (alpha - 1.0) / b + alpha * beta / b == (alpha - 1.0 + alpha * beta) / b;
    assert alpha - 1.0 + alpha * beta == alpha * b - 1.0;
    assert (alpha * b - 1.0) / b == alpha - 1.0 / b;
    ProductPositive(alpha, beta);
    QuotientPositive(alpha * beta, b);
  }

  /** The mode (alpha - 1)/(beta + 1) for alpha >= 1, else 0. */
  function Mode(d: BetaPrime): (r: real)
    requires Valid(d)
    ensures r >= 0.0
    ensures d.alpha >= 1.0 ==> Stationary(d, r)
  {
    if d.alpha >= 1.0 then
      var m := (d.alpha - 1.0) / (d.beta + 1.0);
      ModeIsStationary(d.alpha, d.beta, m);
      m
    else 0.0
  }

  /** x is a stationary point of the log-density (alpha - 1) log x -
      (alpha + beta) log(1 + x): (alpha - 1)(1 + x) = (alpha + beta) x. */
  predicate Stationary(d: BetaPrime, x: real)
  {
    (d.alpha - 1.0) * (1.0 + x) == (d.alpha + d.beta) * x
  }

  /** alpha (alpha + beta - 1) / ((beta - 2)(beta - 1)^2), defined for beta > 2. */
  function Variance(d: BetaPrime): (r: XReal)
    requires Valid(d)
    ensures r.Finite? <==> d.beta > 2.0
    ensures !r.Finite? ==> r.NaN?
    ensures r.Finite? ==> r.v > 0.0
  {
    if d.beta > 2.0 then
      var b1 := d.beta - 1.0;
      var b1sq := b1 * b1;
      SquarePositive(b1, b1sq);
      var den := (d.beta - 2.0) * b1sq;
      ProductPositive(d.beta - 2.0, b1sq);
      var num := d.alpha * (d.alpha + d.beta - 1.0);
      ProductPositive(d.alpha, d.alpha + d.beta - 1.0);
      QuotientPositive(num, den);
      Finite(num / den)
    else NaN
  }

  /** 2 (2 alpha + beta - 1)/(beta - 3) sqrt((beta - 2)/(alpha (alpha + beta - 1))),
      defined for beta > 3. */
  function Skewness(d: BetaPrime, k: Kernels): (r: XReal)
    requires Valid(d)
    ensures d.beta <= 3.0 ==> r.NaN?
    ensures d.beta > 3.0 && SqrtLaw(k) ==> r.Finite? && r.v >= 0.0
  {
    if d.beta > 3.0 then
      var a := 2.0 * (2.0 * d.alpha + d.beta - 1.0) / (d.beta - 3.0);
      QuotientPositive(2.0 * (2.0 * d.alpha + d.beta - 1.0), d.beta - 3.0);
      var den := d.alpha * (d.alpha + d.beta - 1.0);
      ProductPositive(d.alpha, d.alpha + d.beta - 1.0);
      QuotientPositive(d.beta - 2.0, den);
      var s := k.sqrt(Finite((d.beta - 2.0) / den));
      assert SqrtLaw(k) ==> Mul(Finite(a), s).Finite? && Mul(Finite(a), s).v >= 0.0 by {
        if SqrtLaw(k) {
          assert s.Finite? && s.v >= 0.0;
          assert a * s.v >= 0.0;
        }
      }
      Mul(Finite(a), s)
    else NaN
  }

  /** 6 (alpha (alpha + beta - 1)(5 beta - 11) + (beta - 1)^2 (beta - 2)) /
      (alpha (alpha + beta - 1)(beta - 3)(beta - 4)), defined for beta > 4. */
  function Kurtosis(d: BetaPrime): (r: XReal)
    requires Valid(d)
    ensures r.Finite? <==> d.beta > 4.0
    ensures !r.Finite? ==> r.NaN?
  {
    if d.beta > 4.0 then
      var c := d.alpha * (d.alpha + d.beta - 1.0);
      ProductPositive(d.alpha, d.alpha + d.beta - 1.0);
      var den := c * (d.beta - 3.0) * (d.beta - 4.0);
      ProductPositive(c, d.beta - 3.0);
      ProductPositive(c * (d.beta - 3.0), d.beta - 4.0);
      Finite(6.0 * (c * (5.0 * d.beta - 11.0) + (d.beta - 1.0) * (d.beta - 1.0) * (d.beta - 2.0)) / den)
    else NaN
  }

  // ---------------------------------------------------------------------
  // Cumulative distribution

  /** The source's Lower tail is NaN at +inf while its Upper tail there is 0,
      so the two tails do not sum to 1 at +inf. */
  lemma CDFAsWrittenAtInfinity(d: BetaPrime, k: Kernels)
    requires Valid(d) && IncBetaNaN(k) && IncBetaEnds(k)
    ensures CDFAsWritten(d, PosInf, Lower, k).NaN?
    ensures CDFAsWritten(d, PosInf, Upper, k) == Zero
    ensures Add(CDFAsWritten(d, PosInf, Lower, k), CDFAsWritten(d, PosInf, Upper, k)) != One
  {
    assert Add(PosInf, One) == PosInf;
    assert Div(PosInf, PosInf) == NaN;
    assert Div(One, PosInf) == Zero;
    assert k.incBeta(Zero, Finite(d.beta), Finite(d.alpha)) == Zero;
  }

  /** The two tails sum to exactly 1 at every non-NaN argument: x/(x+1) and
      1/(x+1) split 1, and I(z; a, b) + I(1 - z; b, a) = 1. */
  lemma CDFComplement(d: BetaPrime, x: XReal, k: Kernels)
    requires Valid(d) && !x.NaN? && IncBetaReflection(k) && IncBetaEnds(k)
    ensures Add(CDF(d, x, Lower, k), CDF(d, x, Upper, k)) == One
  {
    if x == PosInf {
      assert Add(PosInf, One) == PosInf;
      assert Div(One, PosInf) == Zero;
      assert k.incBeta(Zero, Finite(d.beta), Finite(d.alpha)) == Zero;
    } else if !Le(x, Zero) {
      assert x.Finite? && x.v > 0.0;
      OddsToProbability(x.v);
      var z := x.v / (x.v + 1.0);
      var w := 1.0 / (x.v + 1.0);
      assert Add(x, One) == Finite(x.v + 1.0);
      assert Div(x, Finite(x.v + 1.0)) == Finite(z);
      assert Div(One, Finite(x.v + 1.0)) == Finite(w);
      var lo := k.incBeta(Finite(z), Finite(d.alpha), Finite(d.beta));
      var up := k.incBeta(Finite(w), Finite(d.beta), Finite(d.alpha));
      assert lo.Finite? && up.Finite? && lo.v + up.v == 1.0;
    }
  }

  /** Below +inf the corrected tails are the source's. */
  lemma CDFAgreesBelowInfinity(d: BetaPrime, x: XReal, interval: Interval, k: Kernels)
    requires Valid(d) && x != PosInf
    ensures CDF(d, x, interval, k) == CDFAsWritten(d, x, interval, k)
  {
  }

  // ---------------------------------------------------------------------
  // Quantile

  /** The Upper quantile at p is the Lower quantile at 1 - p, for every p
      in [0, 1]. */
  lemma QuantileTailSymmetry(d: BetaPrime, p: XReal, k: Kernels)
    requires Valid(d) && InRangeUnit(p)
    ensures Quantile(d, p, Upper, k) == Quantile(d, Sub(One, p), Lower, k)
  {
    assert Sub(One, p) == Finite(1.0 - p.v);
  }

  /** The Lower quantile inverts the Lower tail on (0, 1): the odds of
      u = I^-1(p) have probability u again, and I(u) = p. */
  lemma QuantileRoundTripLower(d: BetaPrime, p: XReal, k: Kernels)
    requires Valid(d) && InOpenUnit(p) && IncBetaInverseLaw(k)
    ensures CDF(d, Quantile(d, p, Lower, k), Lower, k) == p
  {
    var u := k.invIncBeta(p, Finite(d.alpha), Finite(d.beta));
    assert u.Finite? && 0.0 < u.v < 1.0;
    OddsRoundTrip(u.v);
    var x := Quantile(d, p, Lower, k);
    assert x == Odds(u);
  }

  /** The Upper quantile inverts the Upper tail on (0, 1), through the
      tail symmetry of the quantile and the complement of the tails. */
  lemma QuantileRoundTripUpper(d: BetaPrime, p: XReal, k: Kernels)
    requires Valid(d) && InOpenUnit(p)
    requires IncBetaInverseLaw(k) && IncBetaReflection(k) && IncBetaEnds(k)
    ensures CDF(d, Quantile(d, p, Upper, k), Upper, k) == p
  {
    var q := Sub(One, p);
    assert q == Finite(1.0 - p.v);
    QuantileTailSymmetry(d, p, k);
    var x := Quantile(d, q, Lower, k);
    QuantileRoundTripLower(d, q, k);
    var u := k.invIncBeta(q, Finite(d.alpha), Finite(d.beta));
    OddsRoundTrip(u.v);
    assert !x.NaN?;
    CDFComplement(d, x, k);
    var up := CDF(d, x, Upper, k);
    assert Add(q, up) == One;
    assert up.Finite? && up.v == p.v;
  }

  /** The odds of a probability u in (0, 1) are a positive real, and the
      Lower tail's argument x/(x + 1) recovers u. */
  lemma OddsRoundTrip(u: real)
    requires 0.0 < u < 1.0
    ensures Odds(Finite(u)).Finite? && Odds(Finite(u)).v > 0.0
    ensures Div(Odds(Finite(u)), Add(Odds(Finite(u)), One)) == Finite(u)
  {
    ProbabilityToOdds(u);
    var x := u / (1.0 - u);
    QuotientPositive(u, 1.0 - u);
    assert Sub(One, Finite(u)) == Finite(1.0 - u);
    assert Odds(Finite(u)) == Finite(x);
    assert Add(Finite(x), One) == Finite(x + 1.0);
  }

  // ---------------------------------------------------------------------
  // Mode

  /** (alpha - 1)/(beta + 1) solves (alpha - 1)(1 + x) = (alpha + beta) x. */
  lemma ModeIsStationary(alpha: real, beta: real, m: real)
    requires alpha >= 1.0 && beta > 0.0 && m == (alpha - 1.0) / (beta + 1.0)
    ensures m >= 0.0
    ensures (alpha - 1.0) * (1.0 + m) == (alpha + beta) * m
  {
    assert m * (beta + 1.0) == alpha - 1.0;
    if alpha > 1.0 { QuotientPositive(alpha - 1.0, beta + 1.0); }
    assert (alpha - 1.0) * (1.0 + m) == (alpha - 1.0) + m * (beta + 1.0) * m;
    assert (alpha + beta) * m == (alpha - 1.0) + m * (beta + 1.0) * m by {
      assert (alpha + beta) * m == (alpha - 1.0) * m + (beta + 1.0) * m;
    }
  }

  /** With alpha = 2, beta = 1 the source's mode is 3/2, which is not a
      stationary point of the density; the corrected mode 1/2 is. */
  lemma ModeAsWrittenCounterexample()
    ensures ModeAsWritten(BetaPrime(2.0, 1.0)) == 1.5
    ensures !Stationary(BetaPrime(2.0, 1.0), ModeAsWritten(BetaPrime(2.0, 1.0)))
    ensures Mode(BetaPrime(2.0, 1.0)) == 0.5
    ensures Stationary(BetaPrime(2.0, 1.0), Mode(BetaPrime(2.0, 1.0)))
  {
  }

  /** Below alpha = 1 both modes are 0; at alpha = 1 the source's mode is
      beta/(beta + 1) while the density is decreasing from 0. */
  lemma ModeAtSmallShape(d: BetaPrime)
    requires Valid(d) && d.alpha <= 1.0
    ensures d.alpha < 1.0 ==> ModeAsWritten(d) == Mode(d) == 0.0
    ensures d.alpha == 1.0 ==> Mode(d) == 0.0 && ModeAsWritten(d) == 1.0 - 1.0 / (d.beta + 1.0)
  {
  }
}
