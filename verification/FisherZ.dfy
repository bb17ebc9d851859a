/** Fisher's z distribution with degrees of freedom n and m: half the log of
    an F(n, m) variable, on the whole real line. Its tails are regularised
    incomplete beta functions of u/(u + m) with u = n e^(2x); its moments
    come from a numerical integration engine and are memoised. */
module FisherZ {
  import opened ExtReal
  import opened Numerics
  import opened Wrappers
  import opened RealArith
  import opened MomentCache

  datatype FisherZ = FisherZ(n: real, m: real)

  predicate Valid(d: FisherZ)
  {
    d.n > 0.0 && d.m > 0.0
  }

  /** The constructor: both degrees of freedom must be positive. */
  function Create(n: real, m: real): (r: Result<FisherZ>)
    ensures r.Ok? <==> n > 0.0 && m > 0.0
    ensures r.Ok? ==> Valid(r.value) && r.value == FisherZ(n, m)
  {
    if !(n > 0.0) then Invalid("n")
    else if !(m > 0.0) then Invalid("m")
    else Ok(FisherZ(n, m))
  }

  /** The accuracy the moments ask of the integration engine. */
  const Eps: real := 1.0e-28

  /** The number of evaluation points after which the engine gives up. */
  const Budget: nat := 2048

  /** The relative tolerance under which n and m count as equal. */
  const Tiny: real := 1.0e-30

  /** (n lb n + m lb m)/2 - lb B(n/2, m/2) + 1, the base-2 log of the
      normalising constant, cached by the constructor. */
  function PdfLogNorm(d: FisherZ, k: Kernels): XReal
  {
    Add(Sub(Mul(Add(Mul(k.log2(Finite(d.n)), Finite(d.n)), Mul(k.log2(Finite(d.m)), Finite(d.m))), Half),
            Mul(k.logBeta(Finite(d.n * 0.5), Finite(d.m * 0.5)), Finite(k.lbE))),
        One)
  }

  /** n e^(2x), the quantity both tails are built from. */
  function Scaled(d: FisherZ, x: XReal, k: Kernels): XReal
  {
    Mul(Finite(d.n), k.exp(Mul(Finite(2.0), x)))
  }

  /** n x lb e - lb(n e^(2x) + m) (n + m)/2 + the normaliser: the base-2 log
      of the density. */
  function PdfExponent(d: FisherZ, x: XReal, k: Kernels): XReal
  {
    Add(Sub(Mul(Mul(Finite(d.n), x), Finite(k.lbE)),
            Mul(Mul(k.log2(Add(Scaled(d, x, k), Finite(d.m))), Finite(d.n + d.m)), Half)),
        PdfLogNorm(d, k))
  }

  /** The density, 2 to the power of its base-2 log, with no guard: a
      positive real at every real x. */
  function PDF(d: FisherZ, x: XReal, k: Kernels): (r: XReal)
    requires Valid(d)
    ensures x.Finite? && DensityLaws(k) ==> r.Finite? && r.v > 0.0
  {
    assert x.Finite? && DensityLaws(k) ==> k.pow2(PdfExponent(d, x, k)).Finite? && k.pow2(PdfExponent(d, x, k)).v > 0.0 by {
      if x.Finite? && DensityLaws(k) { PDFPositive(d, x.v, k); }
    }
    k.pow2(PdfExponent(d, x, k))
  }

  /** What the density needs of the kernels to be a positive real. */
  ghost predicate DensityLaws(k: Kernels)
  {
    ExpLaws(k) && Log2Finite(k) && LogBetaFinite(k) && Pow2Law(k) && PowLaws(k)
  }

  /** At a real x the base-2 log of the density is a real, so the density
      2^(...) is a positive real. */
  lemma PDFPositive(d: FisherZ, x: real, k: Kernels)
    requires Valid(d) && DensityLaws(k)
    ensures k.pow2(PdfExponent(d, Finite(x), k)).Finite? && k.pow2(PdfExponent(d, Finite(x), k)).v > 0.0
  {
    var u := ScaledFinite(d, x, k);
    assert Add(Scaled(d, Finite(x), k), Finite(d.m)) == Finite(u + d.m);
    assert k.log2(Finite(u + d.m)).Finite?;
    assert k.logBeta(Finite(d.n * 0.5), Finite(d.m * 0.5)).Finite?;
    assert k.log2(Finite(d.n)).Finite? && k.log2(Finite(d.m)).Finite?;
    var e := PdfExponent(d, Finite(x), k);
    assert e.Finite?;
    assert k.pow2(e) == k.pow(Finite(2.0), e);
  }

  /** The tails: exact at -inf and +inf, otherwise I(u/(u + m); n/2, m/2)
      (Lower) and I(m/(u + m); m/2, n/2) (Upper) with u = n e^(2x). */
  function CDF(d: FisherZ, x: XReal, interval: Interval, k: Kernels): (r: XReal)
    requires Valid(d)
    ensures x == NegInf ==> r == (if interval.Lower? then Zero else One)
    ensures x == PosInf ==> r == (if interval.Lower? then One else Zero)
  {
    var u := Scaled(d, x, k);
    if interval.Lower? then
      if x == NegInf then Zero
      else if x == PosInf then One
      else k.incBeta(Div(u, Add(u, Finite(d.m))), Finite(d.n * 0.5), Finite(d.m * 0.5))
    else
      if x == NegInf then One
      else if x == PosInf then Zero
      else k.incBeta(Div(Finite(d.m), Add(u, Finite(d.m))), Finite(d.m * 0.5), Finite(d.n * 0.5))
  }

  /** The quantile: NaN outside [0, 1], otherwise half the log of
      m u/(n (1 - u)) where u inverts I(.; n/2, m/2) at p (Lower), or of
      m (1 - u)/(n u) where u inverts I(.; m/2, n/2) at p (Upper). */
  function Quantile(d: FisherZ, p: XReal, interval: Interval, k: Kernels): (r: XReal)
    requires Valid(d)
    ensures !InRangeUnit(p) ==> r.NaN?
  {
    if !InRangeUnit(p) then NaN
    else if interval.Lower? then
      var u := k.invIncBeta(p, Finite(d.n * 0.5), Finite(d.m * 0.5));
      Mul(k.log(Div(Mul(Finite(d.m), u), Mul(Finite(d.n), Sub(One, u)))), Half)
    else
      var u := k.invIncBeta(p, Finite(d.m * 0.5), Finite(d.n * 0.5));
      Mul(k.log(Div(Mul(Finite(d.m), Sub(One, u)), Mul(Finite(d.n), u))), Half)
  }

  /** The distribution is symmetric about 0 exactly when n = m. */
  predicate Symmetric(d: FisherZ)
  {
    d.n == d.m
  }

  /** |n - m| < hypot(n, m) 1e-30: n and m are equal to working accuracy,
      and the mean, median and skewness are taken to be 0. */
  predicate NearSymmetric(d: FisherZ, k: Kernels)
  {
    Lt(Abs(Finite(d.n - d.m)), Mul(k.hypot(Finite(d.n), Finite(d.m)), Finite(Tiny)))
  }

  /** 0 when near-symmetric, else the Lower quantile at 1/2. It splits the
      mass in half: through the quantile when n and m differ to working
      accuracy, and at 0 when they are equal. */
  function Median(d: FisherZ, k: Kernels): (r: XReal)
    requires Valid(d)
    ensures (!NearSymmetric(d, k) || Symmetric(d)) && MedianLaws(k) ==> CDF(d, r, Lower, k) == Half
  {
    var r := if NearSymmetric(d, k) then Zero else Quantile(d, Half, Lower, k);
    assert (!NearSymmetric(d, k) || Symmetric(d)) && MedianLaws(k) ==> CDF(d, r, Lower, k) == Half by {
      if (!NearSymmetric(d, k) || Symmetric(d)) && MedianLaws(k) {
        if Symmetric(d) {
          SymmetricIsNearSymmetric(d, k);
          SymmetricHalfAtZero(d, k);
        } else {
          QuantileRoundTripLower(d, 0.5, k);
        }
      }
    }
    r
  }

  /** What the median needs of the kernels to split the mass in half. */
  ghost predicate MedianLaws(k: Kernels)
  {
    ExpLaws(k) && LogLaws(k) && IncBetaInverseLaw(k) && IncBetaReflection(k) && HypotLaw(k)
  }

  /** The mode is 0 for every n and m. */
  function Mode(d: FisherZ): XReal
  {
    Zero
  }

  /** With u = n e^(2x), the derivative of the log-density
      n x - (n + m)/2 log(u + m) is n - (n + m) u/(u + m); it vanishes
      exactly when n (u + m) = (n + m) u. */
  predicate Stationary(d: FisherZ, u: real)
  {
    d.n * (u + d.m) == (d.n + d.m) * u
  }

  /** The log-density is stationary at u = n e^(2x) exactly when u = n, and
      the mode 0 is the point where u = n. */
  lemma ModeIsStationary(d: FisherZ, u: real, k: Kernels)
    requires Valid(d) && ExpLaws(k)
    ensures Stationary(d, u) <==> u == d.n
    ensures Scaled(d, Mode(d), k) == Finite(d.n) && Stationary(d, d.n)
  {
    assert d.n * (u + d.m) - (d.n + d.m) * u == d.m * (d.n - u);
    if Stationary(d, u) {
      assert d.m * (d.n - u) == 0.0;
    }
    assert Mul(Finite(2.0), Zero) == Zero;
  }

  /** The numerical integration engine: the moment asked for, of the
      distribution given, to accuracy eps within a budget of evaluation
      points. Its numerics are not part of this model. */
  type Integrator = (Moment, FisherZ, real, nat) -> XReal

  /** What a first read of moment q computes: 0 for the mean and the
      skewness of a near-symmetric distribution, the engine's answer
      otherwise. */
  function MomentValue(d: FisherZ, q: Moment, engine: Integrator, k: Kernels): (r: XReal)
    ensures (q.Mean? || q.Skewness?) && NearSymmetric(d, k) ==> r == Zero
    ensures !((q.Mean? || q.Skewness?) && NearSymmetric(d, k)) ==> r == engine(q, d, Eps, Budget)
  {
    if (q.Mean? || q.Skewness?) && NearSymmetric(d, k) then Zero
    else engine(q, d, Eps, Budget)
  }

  /** A distribution object: its parameters and its moment cells. */
  datatype Instance = Instance(dist: FisherZ, cache: Cache)

  /** A freshly constructed object has every cell empty. */
  function New(d: FisherZ): (r: Instance)
    ensures r.dist == d && forall q: Moment :: Cell(r.cache, q).None?
  {
    Instance(d, Empty)
  }

  /** One read of a memoised moment (Mean, Variance, Skewness, Kurtosis or
      Entropy): the stored value, or MomentValue stored on first read. The
      parameters and the other cells are untouched. */
  function ReadMoment(s: Instance, q: Moment, engine: Integrator, k: Kernels): (r: (XReal, Instance))
    ensures r.1.dist == s.dist
    ensures Cell(r.1.cache, q) == Some(r.0)
    ensures Cell(s.cache, q).Some? ==> r.0 == Cell(s.cache, q).value && r.1 == s
    ensures forall q': Moment :: q' != q ==> Cell(r.1.cache, q') == Cell(s.cache, q')
    ensures Consistent(s.cache, (q': Moment) => MomentValue(s.dist, q', engine, k)) ==>
      r.0 == MomentValue(s.dist, q, engine, k) &&
      Consistent(r.1.cache, (q': Moment) => MomentValue(s.dist, q', engine, k))
  {
    var compute := (q': Moment) => MomentValue(s.dist, q', engine, k);
    var r := Read(s.cache, q, compute);
    var v := (r.0, Instance(s.dist, r.1));
    assert Consistent(s.cache, compute) ==> v.0 == compute(q) && Consistent(r.1, compute) by {
      if Consistent(s.cache, compute) {
        ReadIsTransparent(s.cache, q, compute);
      }
    }
    v
  }

  /** The first read of the mean of a fresh object gives MomentValue, and
      a second read gives the same value without consulting the engine
      again. */
  lemma MeanIsMemoised(d: FisherZ, engine: Integrator, k: Kernels)
    ensures ReadMoment(New(d), Mean, engine, k).0 == MomentValue(d, Mean, engine, k)
    ensures var first := ReadMoment(New(d), Mean, engine, k);
      forall other: Integrator :: ReadMoment(first.1, Mean, other, k) == first
  {
    var first := ReadMoment(New(d), Mean, engine, k);
    assert Cell(first.1.cache, Mean) == Some(first.0);
  }

  /** hypot(n, n) > 0 for n > 0, so an exactly symmetric distribution is
      near-symmetric. */
  lemma SymmetricIsNearSymmetric(d: FisherZ, k: Kernels)
    requires Valid(d) && HypotLaw(k) && Symmetric(d)
    ensures NearSymmetric(d, k)
  {
    var h := k.hypot(Finite(d.n), Finite(d.m)).v;
    assert h * h == d.n * d.n + d.m * d.m;
    SquarePositive(d.n, d.n * d.n);
    RootPositive(h, d.n * d.n + d.m * d.m);
    ProductPositive(h, Tiny);
    assert Abs(Finite(d.n - d.m)) == Zero;
  }

  /** For n = m the mean, the median, the skewness and the mode are all 0. */
  lemma SymmetricCentre(d: FisherZ, engine: Integrator, k: Kernels)
    requires Valid(d) && HypotLaw(k) && Symmetric(d)
    ensures MomentValue(d, Mean, engine, k) == Zero
    ensures MomentValue(d, Skewness, engine, k) == Zero
    ensures Median(d, k) == Zero && Mode(d) == Zero
  {
    SymmetricIsNearSymmetric(d, k);
  }

  /** b/(a + b) and a/(a + b) split 1 for a >= 0 and b > 0. */
  lemma ShareSplit(a: real, b: real)
    requires a >= 0.0 && b > 0.0
    ensures 0.0 <= a / (a + b) <= 1.0
    ensures a / (a + b) + b / (a + b) == 1.0
  {
    var s := a + b;
    assert a / s + b / s == (a + b) / s;
    assert a / s <= s / s;
  }

  /** For finite x, u = n e^(2x) is a positive real. */
  lemma ScaledFinite(d: FisherZ, x: real, k: Kernels) returns (u: real)
    requires Valid(d) && ExpLaws(k)
    ensures Scaled(d, Finite(x), k) == Finite(u) && u > 0.0
  {
    var e := k.exp(Finite(2.0 * x)).v;
    u := d.n * e;
    ProductPositive(d.n, e);
  }

  /** The two tails are NaN exactly at NaN, and otherwise finite and sum
      to 1. */
  lemma CDFComplement(d: FisherZ, x: XReal, k: Kernels)
    requires Valid(d) && ExpLaws(k) && IncBetaReflection(k) && IncBetaNaN(k)
    ensures x.NaN? ==> CDF(d, x, Lower, k).NaN? && CDF(d, x, Upper, k).NaN?
    ensures !x.NaN? ==>
      && CDF(d, x, Lower, k).Finite? && CDF(d, x, Upper, k).Finite?
      && CDF(d, x, Lower, k).v + CDF(d, x, Upper, k).v == 1.0
  {
    if x.Finite? {
      var u := ScaledFinite(d, x.v, k);
      ShareSplit(u, d.m);
      var z := u / (u + d.m);
      var w := d.m / (u + d.m);
      assert CDF(d, x, Lower, k) == k.incBeta(Finite(z), Finite(d.n * 0.5), Finite(d.m * 0.5));
      assert CDF(d, x, Upper, k) == k.incBeta(Finite(w), Finite(d.m * 0.5), Finite(d.n * 0.5));
    } else if x.NaN? {
      assert Scaled(d, x, k) == NaN;
    }
  }

  /** At the ends of [0, 1] the quantile is the matching end of the real
      line: -inf and +inf for the Lower tail, +inf and -inf for the Upper. */
  lemma QuantileEnds(d: FisherZ, k: Kernels)
    requires Valid(d) && IncBetaInverseEnds(k) && LogEnds(k)
    ensures Quantile(d, Zero, Lower, k) == NegInf && Quantile(d, One, Lower, k) == PosInf
    ensures Quantile(d, Zero, Upper, k) == PosInf && Quantile(d, One, Upper, k) == NegInf
  {
    assert k.invIncBeta(Zero, Finite(d.n * 0.5), Finite(d.m * 0.5)) == Zero;
    assert k.invIncBeta(One, Finite(d.n * 0.5), Finite(d.m * 0.5)) == One;
    assert k.invIncBeta(Zero, Finite(d.m * 0.5), Finite(d.n * 0.5)) == Zero;
    assert k.invIncBeta(One, Finite(d.m * 0.5), Finite(d.n * 0.5)) == One;
    assert Div(Mul(Finite(d.m), Zero), Mul(Finite(d.n), Sub(One, Zero))) == Zero;
    assert Div(Mul(Finite(d.m), One), Mul(Finite(d.n), Sub(One, One))) == PosInf;
    assert Div(Mul(Finite(d.m), Sub(One, Zero)), Mul(Finite(d.n), Zero)) == PosInf;
    assert Div(Mul(Finite(d.m), Sub(One, One)), Mul(Finite(d.n), One)) == Zero;
  }

  /** With y = m u/(n (1 - u)) and U = n y, U/(U + m) = u. */
  lemma LowerOddsBack(n: real, m: real, u: real) returns (y: real)
    requires n > 0.0 && m > 0.0 && 0.0 < u < 1.0
    ensures y == m * u / (n * (1.0 - u)) && y > 0.0
    ensures n * y >= 0.0 && (n * y) / (n * y + m) == u
  {
    var v := 1.0 - u;
    ProductPositive(n, v);
    ProductPositive(m, u);
    y := m * u / (n * v);
    QuotientPositive(m * u, n * v);
    var big := n * y;
    ProductPositive(n, y);
    assert y * (n * v) == m * u;
    assert big * v == m * u;
    assert big == u * (big + m);
    assert big / (big + m) == u;
  }

  /** With y = m (1 - u)/(n u) and U = n y, m/(U + m) = u. */
  lemma UpperOddsBack(n: real, m: real, u: real) returns (y: real)
    requires n > 0.0 && m > 0.0 && 0.0 < u < 1.0
    ensures y == m * (1.0 - u) / (n * u) && y > 0.0
    ensures n * y >= 0.0 && m / (n * y + m) == u
  {
    var v := 1.0 - u;
    ProductPositive(n, u);
    ProductPositive(m, v);
    y := m * v / (n * u);
    QuotientPositive(m * v, n * u);
    var big := n * y;
    ProductPositive(n, y);
    assert y * (n * u) == m * v;
    assert big * u == m * v;
    assert m == u * (big + m);
    assert m / (big + m) == u;
  }

  /** x = (log y)/2 is a real at which n e^(2x) = n y. */
  lemma ScaledAtHalfLog(d: FisherZ, y: real, k: Kernels) returns (x: XReal)
    requires Valid(d) && ExpLaws(k) && LogLaws(k) && y > 0.0
    ensures x == Mul(k.log(Finite(y)), Half) && x.Finite?
    ensures Scaled(d, x, k) == Finite(d.n * y)
  {
    var l := k.log(Finite(y)).v;
    x := Finite(l * 0.5);
    assert 2.0 * (l * 0.5) == l;
    assert Mul(Finite(2.0), x) == Finite(l);
  }

  /** At a real x with n e^(2x) = n y, for y = m u/(n (1 - u)), the Lower
      tail is I(u; n/2, m/2). */
  lemma LowerTailAt(d: FisherZ, x: XReal, y: real, u: real, k: Kernels)
    requires Valid(d) && x.Finite? && 0.0 < u < 1.0 && y == d.m * u / (d.n * (1.0 - u))
    requires Scaled(d, x, k) == Finite(d.n * y)
    ensures CDF(d, x, Lower, k) == k.incBeta(Finite(u), Finite(d.n * 0.5), Finite(d.m * 0.5))
  {
    var _ := LowerOddsBack(d.n, d.m, u);
    LowerTailAtOdds(d, x, d.n * y, u, k);
  }

  /** At a real x with n e^(2x) = U the Lower tail is I(U/(U + m); n/2, m/2). */
  lemma LowerTailAtOdds(d: FisherZ, x: XReal, U: real, u: real, k: Kernels)
    requires Valid(d) && x.Finite? && Scaled(d, x, k) == Finite(U) && U >= 0.0 && U / (U + d.m) == u
    ensures CDF(d, x, Lower, k) == k.incBeta(Finite(u), Finite(d.n * 0.5), Finite(d.m * 0.5))
  {
    assert Add(Finite(U), Finite(d.m)) == Finite(U + d.m);
  }

  /** At a real x with n e^(2x) = n y, for y = m (1 - u)/(n u), the Upper
      tail is I(u; m/2, n/2). */
  lemma UpperTailAt(d: FisherZ, x: XReal, y: real, u: real, k: Kernels)
    requires Valid(d) && x.Finite? && 0.0 < u < 1.0 && y == d.m * (1.0 - u) / (d.n * u)
    requires Scaled(d, x, k) == Finite(d.n * y)
    ensures CDF(d, x, Upper, k) == k.incBeta(Finite(u), Finite(d.m * 0.5), Finite(d.n * 0.5))
  {
    var _ := UpperOddsBack(d.n, d.m, u);
    UpperTailAtOdds(d, x, d.n * y, u, k);
  }

  /** At a real x with n e^(2x) = U the Upper tail is I(m/(U + m); m/2, n/2). */
  lemma UpperTailAtOdds(d: FisherZ, x: XReal, U: real, u: real, k: Kernels)
    requires Valid(d) && x.Finite? && Scaled(d, x, k) == Finite(U) && U >= 0.0 && d.m / (U + d.m) == u
    ensures CDF(d, x, Upper, k) == k.incBeta(Finite(u), Finite(d.m * 0.5), Finite(d.n * 0.5))
  {
    assert Add(Finite(U), Finite(d.m)) == Finite(U + d.m);
  }

  /** The odds a b/(c e) of positive factors are positive. */
  lemma OddsPositive(a: real, b: real, c: real, e: real) returns (y: real)
    requires a > 0.0 && b > 0.0 && c > 0.0 && e > 0.0
    ensures y == a * b / (c * e) && y > 0.0
  {
    ProductPositive(a, b);
    ProductPositive(c, e);
    y := a * b / (c * e);
    QuotientPositive(a * b, c * e);
  }

  /** The Lower quantile at p in (0, 1) is half the log of the odds
      m u/(n (1 - u)) of the inverse u. */
  lemma LowerQuantileIs(d: FisherZ, p: real, u: real, y: real, k: Kernels)
    requires Valid(d) && 0.0 < p < 1.0 && 0.0 < u < 1.0
    requires k.invIncBeta(Finite(p), Finite(d.n * 0.5), Finite(d.m * 0.5)) == Finite(u)
    requires y == d.m * u / (d.n * (1.0 - u))
    ensures Quantile(d, Finite(p), Lower, k) == Mul(k.log(Finite(y)), Half)
  {
    var v := 1.0 - u;
    var den := d.n * v;
    ProductPositive(d.n, v);
    assert Sub(One, Finite(u)) == Finite(v);
    assert Mul(Finite(d.n), Finite(v)) == Finite(den);
    assert Mul(Finite(d.m), Finite(u)) == Finite(d.m * u);
    assert den != 0.0 && y == (d.m * u) / den;
    assert Div(Finite(d.m * u), Finite(den)) == Finite(y);
  }

  /** The Upper quantile at p in (0, 1) is half the log of
      m (1 - u)/(n u) for the inverse u. */
  lemma UpperQuantileIs(d: FisherZ, p: real, u: real, y: real, k: Kernels)
    requires Valid(d) && 0.0 < p < 1.0 && 0.0 < u < 1.0
    requires k.invIncBeta(Finite(p), Finite(d.m * 0.5), Finite(d.n * 0.5)) == Finite(u)
    requires y == d.m * (1.0 - u) / (d.n * u)
    ensures Quantile(d, Finite(p), Upper, k) == Mul(k.log(Finite(y)), Half)
  {
    var v := 1.0 - u;
    var den := d.n * u;
    ProductPositive(d.n, u);
    assert Sub(One, Finite(u)) == Finite(v);
    assert Mul(Finite(d.m), Finite(v)) == Finite(d.m * v);
    assert Mul(Finite(d.n), Finite(u)) == Finite(den);
    assert den != 0.0 && y == (d.m * v) / den;
    assert Div(Finite(d.m * v), Finite(den)) == Finite(y);
  }

  /** The Lower quantile at p in (0, 1) is a real x where the Lower tail is
      I(u; n/2, m/2) for u the inverse incomplete beta at p. */
  lemma LowerQuantilePoint(d: FisherZ, p: real, k: Kernels) returns (x: XReal, u: real)
    requires Valid(d) && 0.0 < p < 1.0
    requires ExpLaws(k) && LogLaws(k) && IncBetaInverseLaw(k)
    ensures Quantile(d, Finite(p), Lower, k) == x && x.Finite?
    ensures k.invIncBeta(Finite(p), Finite(d.n * 0.5), Finite(d.m * 0.5)) == Finite(u)
    ensures CDF(d, x, Lower, k) == k.incBeta(Finite(u), Finite(d.n * 0.5), Finite(d.m * 0.5))
  {
    u := k.invIncBeta(Finite(p), Finite(d.n * 0.5), Finite(d.m * 0.5)).v;
    var y := OddsPositive(d.m, u, d.n, 1.0 - u);
    LowerQuantileIs(d, p, u, y, k);
    x := ScaledAtHalfLog(d, y, k);
    LowerTailAt(d, x, y, u, k);
  }

  /** The Upper quantile at p in (0, 1) is a real x where the Upper tail is
      I(u; m/2, n/2) for u the inverse incomplete beta at p. */
  lemma UpperQuantilePoint(d: FisherZ, p: real, k: Kernels) returns (x: XReal, u: real)
    requires Valid(d) && 0.0 < p < 1.0
    requires ExpLaws(k) && LogLaws(k) && IncBetaInverseLaw(k)
    ensures Quantile(d, Finite(p), Upper, k) == x && x.Finite?
    ensures k.invIncBeta(Finite(p), Finite(d.m * 0.5), Finite(d.n * 0.5)) == Finite(u)
    ensures CDF(d, x, Upper, k) == k.incBeta(Finite(u), Finite(d.m * 0.5), Finite(d.n * 0.5))
  {
    u := k.invIncBeta(Finite(p), Finite(d.m * 0.5), Finite(d.n * 0.5)).v;
    var y := OddsPositive(d.m, 1.0 - u, d.n, u);
    UpperQuantileIs(d, p, u, y, k);
    x := ScaledAtHalfLog(d, y, k);
    UpperTailAt(d, x, y, u, k);
  }

  /** For p in (0, 1) the Lower tail at the Lower quantile is p. */
  lemma QuantileRoundTripLower(d: FisherZ, p: real, k: Kernels)
    requires Valid(d) && 0.0 < p < 1.0
    requires ExpLaws(k) && LogLaws(k) && IncBetaInverseLaw(k)
    ensures CDF(d, Quantile(d, Finite(p), Lower, k), Lower, k) == Finite(p)
  {
    var x, u := LowerQuantilePoint(d, p, k);
  }

  /** For p in (0, 1) the Upper tail at the Upper quantile is p. */
  lemma QuantileRoundTripUpper(d: FisherZ, p: real, k: Kernels)
    requires Valid(d) && 0.0 < p < 1.0
    requires ExpLaws(k) && LogLaws(k) && IncBetaInverseLaw(k)
    ensures CDF(d, Quantile(d, Finite(p), Upper, k), Upper, k) == Finite(p)
  {
    var x, u := UpperQuantilePoint(d, p, k);
  }

  /** At 0 the Lower tail of a symmetric distribution is I(1/2; n/2, n/2),
      which the reflection identity forces to be 1/2. */
  lemma SymmetricHalfAtZero(d: FisherZ, k: Kernels)
    requires Valid(d) && Symmetric(d) && ExpLaws(k) && IncBetaReflection(k)
    ensures CDF(d, Zero, Lower, k) == Half
  {
    assert Mul(Finite(2.0), Zero) == Zero;
    assert Scaled(d, Zero, k) == Finite(d.n);
    var t := d.n + d.m;
    assert 0.5 * t == d.n;
    assert d.n / t == 0.5;
    assert Div(Finite(d.n), Add(Finite(d.n), Finite(d.m))) == Half;
    var a := Finite(d.n * 0.5);
    assert k.incBeta(Half, a, a).v + k.incBeta(Half, a, a).v == 1.0;
  }

  /** The density has no guard: at +inf its base-2 log is +inf - +inf, so
      the density is NaN rather than 0. */
  lemma PDFNaNAtInfinity(d: FisherZ, k: Kernels)
    requires Valid(d) && ExpLaws(k) && BinaryEnds(k)
    ensures PDF(d, PosInf, k) == NaN
  {
    assert Mul(Finite(2.0), PosInf) == PosInf;
    assert Scaled(d, PosInf, k) == PosInf;
    var t := Mul(Mul(Finite(d.n), PosInf), Finite(k.lbE));
    assert t == PosInf;
    var g := Mul(Mul(k.log2(Add(PosInf, Finite(d.m))), Finite(d.n + d.m)), Half);
    assert g == PosInf;
    assert Sub(t, g) == NaN;
    assert PdfExponent(d, PosInf, k) == NaN;
  }
}
