/** The numeric library the distributions consume but do not implement:
    elementary transcendental functions, special functions and constants.
    They are uninterpreted — the fields of a `Kernels` record passed to every
    operation — and each law below states one algebraic fact that holds of the
    exact mathematical functions. A lemma assumes exactly the laws it needs.
    Every quantifier names its trigger so that no law instantiates another
    without end. */
module Numerics {
  import opened ExtReal

  type Positive = r: real | r > 0.0 witness 1.0

  datatype Kernels = Kernels(
    pi: Positive,
    eulerGamma: real,
    zeta3: Positive,
    lbE: real,
    exp: XReal -> XReal,
    expm1: XReal -> XReal,
    log: XReal -> XReal,
    log1p: XReal -> XReal,
    log2: XReal -> XReal,
    pow2: XReal -> XReal,
    sqrt: XReal -> XReal,
    pow: (XReal, XReal) -> XReal,
    atan: XReal -> XReal,
    tanPi: XReal -> XReal,
    sinPi: XReal -> XReal,
    cosPi: XReal -> XReal,
    keplerE: (XReal, XReal) -> XReal,
    gammaFn: XReal -> XReal,
    logGamma: XReal -> XReal,
    digamma: XReal -> XReal,
    beta: (XReal, XReal) -> XReal,
    logBeta: (XReal, XReal) -> XReal,
    hypot: (XReal, XReal) -> XReal,
    incBeta: (XReal, XReal, XReal) -> XReal,
    invIncBeta: (XReal, XReal, XReal) -> XReal,
    lowerIncGamma: (XReal, XReal) -> XReal,
    upperIncGamma: (XReal, XReal) -> XReal,
    invLowerIncGamma: (XReal, XReal) -> XReal,
    invUpperIncGamma: (XReal, XReal) -> XReal
  )

  /** The constant PI as a value. */
  function Pi(k: Kernels): XReal
  {
    Finite(k.pi)
  }

  /** The constant RcpPI, the reciprocal of PI. */
  function RcpPi(k: Kernels): XReal
  {
    Div(One, Finite(k.pi))
  }

  /** 3 < pi < 4. */
  ghost predicate PiBounds(k: Kernels)
  {
    3.0 < k.pi < 4.0
  }

  /** Two decimals of pi, enough to fix the sign of the kurtosis constants. */
  ghost predicate PiDigits(k: Kernels)
  {
    3.14 < k.pi < 3.15
  }

  /** exp maps reals to positive reals (below 1 exactly on the negative
      reals), 0 to 1, -inf to 0, +inf to +inf and NaN to NaN. */
  ghost predicate ExpLaws(k: Kernels)
  {
    && (forall y: real {:trigger k.exp(Finite(y))} ::
          && k.exp(Finite(y)).Finite?
          && k.exp(Finite(y)).v > 0.0
          && (y < 0.0 ==> k.exp(Finite(y)).v < 1.0))
    && k.exp(Zero) == One
    && k.exp(NegInf) == Zero
    && k.exp(PosInf) == PosInf
    && k.exp(NaN) == NaN
  }

  /** a + b, named so that the law below fires only where a proof writes
      the sum this way. */
  function Sum(a: real, b: real): real
  {
    a + b
  }

  /** exp(a + b) = exp(a) exp(b) on the reals. */
  ghost predicate ExpAddLaw(k: Kernels)
  {
    forall a: real, b: real {:trigger k.exp(Finite(Sum(a, b)))} ::
      k.exp(Finite(Sum(a, b))) == Mul(k.exp(Finite(a)), k.exp(Finite(b)))
  }

  /** One instance of exp(a + b) = exp(a) exp(b). */
  lemma ExpOfSum(k: Kernels, a: real, b: real, c: real)
    requires ExpAddLaw(k) && a + b == c
    ensures k.exp(Finite(c)) == Mul(k.exp(Finite(a)), k.exp(Finite(b)))
  {
    assert Sum(a, b) == c;
    assert k.exp(Finite(Sum(a, b))) == Mul(k.exp(Finite(a)), k.exp(Finite(b)));
  }

  /** expm1(y) = exp(y) - 1 everywhere. */
  ghost predicate Expm1Law(k: Kernels)
  {
    forall y: XReal {:trigger k.expm1(y)} :: k.expm1(y) == Sub(k.exp(y), One)
  }

  /** log is finite on the positive reals and exp undoes it there; it is
      negative below 1 and positive above 1, and log 1 = 0. */
  ghost predicate LogLaws(k: Kernels)
  {
    && (forall y: real {:trigger k.log(Finite(y))} :: y > 0.0 ==>
          && k.log(Finite(y)).Finite?
          && k.exp(k.log(Finite(y))) == Finite(y)
          && (y < 1.0 ==> k.log(Finite(y)).v < 0.0)
          && (y > 1.0 ==> k.log(Finite(y)).v > 0.0))
    && k.log(One) == Zero
  }

  /** log 0 = -inf, log(+inf) = +inf and log1p(-1) = -inf. */
  ghost predicate LogEnds(k: Kernels)
  {
    k.log(Zero) == NegInf && k.log(PosInf) == PosInf && k.log1p(Finite(-1.0)) == NegInf
  }

  /** log undoes exp on the reals. */
  ghost predicate LogExpLaw(k: Kernels)
  {
    forall a: real {:trigger k.log(k.exp(Finite(a)))} :: k.log(k.exp(Finite(a))) == Finite(a)
  }

  /** log(y z) = log y + log z for positive y, z, from exp(a + b) = exp(a) exp(b)
      and log undoing exp. */
  lemma LogOfProduct(k: Kernels, y: real, z: real)
    requires ExpAddLaw(k) && LogLaws(k) && LogExpLaw(k) && y > 0.0 && z > 0.0
    ensures k.log(Finite(y * z)) == Add(k.log(Finite(y)), k.log(Finite(z)))
  {
    var ly, lz := ExpOfLogSum(k, y, z);
    assert k.log(k.exp(Finite(ly + lz))) == Finite(ly + lz);
  }

  /** exp(log y + log z) = y z for positive y, z. */
  lemma ExpOfLogSum(k: Kernels, y: real, z: real) returns (ly: real, lz: real)
    requires ExpAddLaw(k) && LogLaws(k) && y > 0.0 && z > 0.0
    ensures k.log(Finite(y)) == Finite(ly) && k.log(Finite(z)) == Finite(lz)
    ensures k.exp(Finite(ly + lz)) == Finite(y * z)
  {
    ly := k.log(Finite(y)).v;
    lz := k.log(Finite(z)).v;
    assert k.exp(Finite(ly)) == Finite(y) && k.exp(Finite(lz)) == Finite(z);
    ExpOfSum(k, ly, lz, ly + lz);
  }


  /** log z = -log y when y z = 1 and y > 0. */
  ghost predicate LogReciprocalLaw(k: Kernels)
  {
    forall y: real, z: real {:trigger k.log(Finite(y)), k.log(Finite(z))} ::
      y > 0.0 && y * z == 1.0 ==> k.log(Finite(z)) == Neg(k.log(Finite(y)))
  }

  /** log2 is finite on the positive reals. */
  ghost predicate Log2Finite(k: Kernels)
  {
    forall y: real {:trigger k.log2(Finite(y))} :: y > 0.0 ==> k.log2(Finite(y)).Finite?
  }

  /** log2 of +inf is +inf; pow2 maps -inf to 0, +inf to +inf and NaN to
      NaN; lb e is positive. */
  ghost predicate BinaryEnds(k: Kernels)
  {
    && k.log2(PosInf) == PosInf
    && k.pow2(NegInf) == Zero && k.pow2(PosInf) == PosInf && k.pow2(NaN) == NaN
    && k.lbE > 0.0
  }

  /** logGamma is finite on the positive reals. */
  ghost predicate LogGammaFinite(k: Kernels)
  {
    forall y: real {:trigger k.logGamma(Finite(y))} :: y > 0.0 ==> k.logGamma(Finite(y)).Finite?
  }

  /** log1p(y) = log(1 + y) for y > -1. */
  ghost predicate Log1pLaw(k: Kernels)
  {
    forall y: real {:trigger k.log1p(Finite(y))} :: y > -1.0 ==> k.log1p(Finite(y)) == k.log(Finite(1.0 + y))
  }

  /** A positive real to a real power is a positive real, at most 1 when the
      base is at most 1 and the exponent positive, at most 1 when the base is
      at least 1 and the exponent not positive, above 1 when both the base
      exceeds 1 and the exponent is positive; the first power is the
      identity; +inf to a positive power is +inf. */
  ghost predicate PowLaws(k: Kernels)
  {
    && (forall u: real, a: real {:trigger k.pow(Finite(u), Finite(a))} :: u > 0.0 ==>
         && k.pow(Finite(u), Finite(a)).Finite?
         && k.pow(Finite(u), Finite(a)).v > 0.0
         && (u <= 1.0 && a > 0.0 ==> k.pow(Finite(u), Finite(a)).v <= 1.0)
         && (u >= 1.0 && a <= 0.0 ==> k.pow(Finite(u), Finite(a)).v <= 1.0)
         && (u > 1.0 && a > 0.0 ==> k.pow(Finite(u), Finite(a)).v > 1.0)
         && (a == 1.0 ==> k.pow(Finite(u), Finite(a)) == Finite(u)))
    && (forall a: real {:trigger k.pow(PosInf, Finite(a))} :: a > 0.0 ==> k.pow(PosInf, Finite(a)) == PosInf)
    && (forall a: real {:trigger k.pow(Zero, Finite(a))} :: a > 0.0 ==> k.pow(Zero, Finite(a)) == Zero)
  }

  /** (y^(1/a))^a = y for y > 0 and a > 0. */
  ghost predicate PowRootLaw(k: Kernels)
  {
    forall y: real, a: real {:trigger k.pow(k.pow(Finite(y), Finite(1.0 / a)), Finite(a))} ::
      y > 0.0 && a > 0.0 ==> k.pow(k.pow(Finite(y), Finite(1.0 / a)), Finite(a)) == Finite(y)
  }

  /** y^a y^(-a) = 1 for y > 0. */
  ghost predicate PowReciprocalLaw(k: Kernels)
  {
    forall y: real, a: real, b: real {:trigger k.pow(Finite(y), Finite(a)), k.pow(Finite(y), Finite(b))} ::
      y > 0.0 && a + b == 0.0 ==> Mul(k.pow(Finite(y), Finite(a)), k.pow(Finite(y), Finite(b))) == One
  }

  /** (1/y)^a y^a = 1 for y > 0. */
  ghost predicate PowReciprocalBaseLaw(k: Kernels)
  {
    forall y: real, a: real {:trigger k.pow(Finite(1.0 / y), Finite(a))} ::
      y > 0.0 ==> Mul(k.pow(Finite(1.0 / y), Finite(a)), k.pow(Finite(y), Finite(a))) == One
  }

  /** pow2(a) = 2^a. */
  ghost predicate Pow2Law(k: Kernels)
  {
    forall a: real {:trigger k.pow2(Finite(a))} :: k.pow2(Finite(a)) == k.pow(Finite(2.0), Finite(a))
  }

  /** 2^(a + b) = 2^a 2^b on the reals. */
  ghost predicate Pow2AddLaw(k: Kernels)
  {
    forall a: real, b: real {:trigger k.pow2(Finite(Sum(a, b)))} ::
      k.pow2(Finite(Sum(a, b))) == Mul(k.pow2(Finite(a)), k.pow2(Finite(b)))
  }

  /** 2^(a lb y) = y^a for positive y. */
  ghost predicate Pow2LogLaw(k: Kernels)
  {
    forall y: real, a: real {:trigger k.pow2(Mul(k.log2(Finite(y)), Finite(a)))} ::
      y > 0.0 ==> k.pow2(Mul(k.log2(Finite(y)), Finite(a))) == k.pow(Finite(y), Finite(a))
  }

  /** The gamma function is a positive real at positive reals. */
  ghost predicate GammaPositive(k: Kernels)
  {
    forall y: real {:trigger k.gammaFn(Finite(y))} :: y > 0.0 ==> k.gammaFn(Finite(y)).Finite? && k.gammaFn(Finite(y)).v > 0.0
  }

  /** Gamma(n) = (n - 1)! for n = 1, 2, 3. */
  ghost predicate GammaSmallIntegers(k: Kernels)
  {
    k.gammaFn(One) == One && k.gammaFn(Finite(2.0)) == One && k.gammaFn(Finite(3.0)) == Finite(2.0)
  }

  /** The log of the beta function is finite at positive arguments. */
  ghost predicate LogBetaFinite(k: Kernels)
  {
    forall a: real, b: real {:trigger k.logBeta(Finite(a), Finite(b))} ::
      a > 0.0 && b > 0.0 ==> k.logBeta(Finite(a), Finite(b)).Finite?
  }

  /** The beta function is a positive real at positive arguments. */
  ghost predicate BetaPositive(k: Kernels)
  {
    forall a: real, b: real {:trigger k.beta(Finite(a), Finite(b))} ::
      a > 0.0 && b > 0.0 ==> k.beta(Finite(a), Finite(b)).Finite? && k.beta(Finite(a), Finite(b)).v > 0.0
  }

  /** The square root of a non-negative real is the non-negative real whose
      square it is. */
  ghost predicate SqrtLaw(k: Kernels)
  {
    forall y: real {:trigger k.sqrt(Finite(y))} :: y >= 0.0 ==>
      && k.sqrt(Finite(y)).Finite?
      && k.sqrt(Finite(y)).v >= 0.0
      && k.sqrt(Finite(y)).v * k.sqrt(Finite(y)).v == y
  }

  /** atan is odd, maps NaN to NaN, and maps every other value into
      [-pi/2, pi/2]. */
  ghost predicate AtanLaws(k: Kernels)
  {
    && (forall y: XReal {:trigger k.atan(Neg(y))} :: k.atan(Neg(y)) == Neg(k.atan(y)))
    && (forall y: XReal {:trigger k.atan(y)} :: !y.NaN? ==>
          k.atan(y).Finite? && 2.0 * k.atan(y).v <= k.pi && -2.0 * k.atan(y).v <= k.pi)
    && k.atan(NaN) == NaN
  }

  /** atan(y)/pi lies in [-1/2, 1/2] for every non-NaN y. */
  lemma AtanOverPi(k: Kernels, y: XReal)
    ensures AtanLaws(k) && !y.NaN? ==>
      Mul(k.atan(y), RcpPi(k)).Finite? && -0.5 <= Mul(k.atan(y), RcpPi(k)).v <= 0.5
  {
    if AtanLaws(k) && !y.NaN? {
      AtanOverPiBounds(k, y);
    }
  }

  lemma AtanOverPiBounds(k: Kernels, y: XReal)
    requires AtanLaws(k) && !y.NaN?
    ensures Mul(k.atan(y), RcpPi(k)).Finite?
    ensures -0.5 <= Mul(k.atan(y), RcpPi(k)).v <= 0.5
  {
    var a := k.atan(y).v;
    var r := 1.0 / (k.pi as real);
    assert r > 0.0;
    assert 2.0 * a * r <= k.pi * r;
    assert -2.0 * a * r <= k.pi * r;
    assert k.pi * r == 1.0;
  }

  /** On (-1/2, 1/2), tan(pi t) is finite and atan(tan(pi t)) = pi t. */
  ghost predicate AtanTanPiLaw(k: Kernels)
  {
    forall t: real {:trigger k.tanPi(Finite(t))} :: -0.5 < t < 0.5 ==>
      && k.tanPi(Finite(t)).Finite?
      && k.atan(k.tanPi(Finite(t))) == Finite(k.pi * t)
  }

  /** tan(pi t) has its poles at -1/2 and 1/2. */
  ghost predicate TanPiPoles(k: Kernels)
  {
    k.tanPi(Finite(-0.5)) == NegInf && k.tanPi(Half) == PosInf
  }

  /** sin(pi u) is finite on the reals, and odd. */
  ghost predicate SinPiLaws(k: Kernels)
  {
    && (forall u: real {:trigger k.sinPi(Finite(u))} :: k.sinPi(Finite(u)).Finite?)
    && (forall y: XReal {:trigger k.sinPi(Neg(y))} :: k.sinPi(Neg(y)) == Neg(k.sinPi(y)))
  }

  /** cos(pi u) lies in [-1, 1] on the reals, and is even. */
  ghost predicate CosPiLaws(k: Kernels)
  {
    && (forall u: real {:trigger k.cosPi(Finite(u))} ::
          k.cosPi(Finite(u)).Finite? && -1.0 <= k.cosPi(Finite(u)).v <= 1.0)
    && (forall y: XReal {:trigger k.cosPi(Neg(y))} :: k.cosPi(Neg(y)) == k.cosPi(y))
  }

  /** For a mean anomaly m in (0, 2 pi), keplerE(m, 1) is the eccentric
      anomaly E in (0, 2 pi) with E - sin E = m; since sin E = -sin(pi (E/pi - 1)),
      this reads sinPi(E RcpPI - 1) = m - E. */
  ghost predicate KeplerLaw(k: Kernels)
  {
    forall m: real {:trigger k.keplerE(Finite(m), One)} :: 0.0 < m < 2.0 * k.pi ==>
      && k.keplerE(Finite(m), One).Finite?
      && 0.0 < k.keplerE(Finite(m), One).v < 2.0 * k.pi
      && k.sinPi(Sub(Mul(k.keplerE(Finite(m), One), RcpPi(k)), One)) == Sub(Finite(m), k.keplerE(Finite(m), One))
  }

  /** Reflection of the regularised incomplete beta function:
      I(z; a, b) + I(1 - z; b, a) = 1 for z in [0, 1] and positive a, b. */
  ghost predicate IncBetaReflection(k: Kernels)
  {
    forall z: real, w: real, a: real, b: real
      {:trigger k.incBeta(Finite(z), Finite(a), Finite(b)), k.incBeta(Finite(w), Finite(b), Finite(a))} ::
      0.0 <= z <= 1.0 && z + w == 1.0 && a > 0.0 && b > 0.0 ==>
        && k.incBeta(Finite(z), Finite(a), Finite(b)).Finite?
        && k.incBeta(Finite(w), Finite(b), Finite(a)).Finite?
        && k.incBeta(Finite(z), Finite(a), Finite(b)).v + k.incBeta(Finite(w), Finite(b), Finite(a)).v == 1.0
  }

  /** I(0; a, b) = 0 and I(1; a, b) = 1 for positive a, b. */
  ghost predicate IncBetaEnds(k: Kernels)
  {
    forall a: real, b: real {:trigger k.incBeta(Zero, Finite(a), Finite(b))} ::
      a > 0.0 && b > 0.0 ==>
        k.incBeta(Zero, Finite(a), Finite(b)) == Zero && k.incBeta(One, Finite(a), Finite(b)) == One
  }

  /** For p in (0, 1) and positive a, b the inverse incomplete beta function
      is a real in (0, 1) that the incomplete beta function maps back to p. */
  ghost predicate IncBetaInverseLaw(k: Kernels)
  {
    forall p: real, a: real, b: real {:trigger k.invIncBeta(Finite(p), Finite(a), Finite(b))} ::
      0.0 < p < 1.0 && a > 0.0 && b > 0.0 ==>
        && k.invIncBeta(Finite(p), Finite(a), Finite(b)).Finite?
        && 0.0 < k.invIncBeta(Finite(p), Finite(a), Finite(b)).v < 1.0
        && k.incBeta(k.invIncBeta(Finite(p), Finite(a), Finite(b)), Finite(a), Finite(b)) == Finite(p)
  }

  /** The inverse incomplete beta function maps 0 to 0 and 1 to 1 for
      positive a, b. */
  ghost predicate IncBetaInverseEnds(k: Kernels)
  {
    forall a: real, b: real {:trigger k.invIncBeta(Zero, Finite(a), Finite(b))} ::
      a > 0.0 && b > 0.0 ==>
        k.invIncBeta(Zero, Finite(a), Finite(b)) == Zero && k.invIncBeta(One, Finite(a), Finite(b)) == One
  }

  /** The incomplete beta function of NaN is NaN. */
  ghost predicate IncBetaNaN(k: Kernels)
  {
    forall a: XReal, b: XReal {:trigger k.incBeta(NaN, a, b)} :: k.incBeta(NaN, a, b) == NaN
  }

  /** The regularised lower and upper incomplete gamma functions are NaN
      together, and otherwise finite and sum to 1. */
  ghost predicate IncGammaComplement(k: Kernels)
  {
    forall a: XReal, x: XReal {:trigger k.lowerIncGamma(a, x)} ::
      && (k.lowerIncGamma(a, x).NaN? <==> k.upperIncGamma(a, x).NaN?)
      && (!k.lowerIncGamma(a, x).NaN? ==>
            && k.lowerIncGamma(a, x).Finite?
            && k.upperIncGamma(a, x).Finite?
            && k.lowerIncGamma(a, x).v + k.upperIncGamma(a, x).v == 1.0)
  }

  /** At +inf the regularised lower incomplete gamma function is 1 and the
      upper one 0. */
  ghost predicate IncGammaAtInfinity(k: Kernels)
  {
    forall a: real {:trigger k.lowerIncGamma(Finite(a), PosInf)} :: a > 0.0 ==>
      k.lowerIncGamma(Finite(a), PosInf) == One && k.upperIncGamma(Finite(a), PosInf) == Zero
  }

  /** The lower regularised incomplete gamma function is positive at every
      positive argument. */
  ghost predicate LowerIncGammaPositive(k: Kernels)
  {
    forall a: real, x: real {:trigger k.lowerIncGamma(Finite(a), Finite(x))} ::
      a > 0.0 && x > 0.0 ==>
        k.lowerIncGamma(Finite(a), Finite(x)).Finite? && k.lowerIncGamma(Finite(a), Finite(x)).v > 0.0
  }

  /** For p in (0, 1) the inverses of the regularised incomplete gamma
      functions return a positive real at which the function takes value p. */
  ghost predicate IncGammaInverseLaws(k: Kernels)
  {
    && (forall a: real, p: real {:trigger k.invLowerIncGamma(Finite(a), Finite(p))} ::
          a > 0.0 && 0.0 < p < 1.0 ==>
            && k.invLowerIncGamma(Finite(a), Finite(p)).Finite?
            && k.invLowerIncGamma(Finite(a), Finite(p)).v > 0.0
            && k.lowerIncGamma(Finite(a), k.invLowerIncGamma(Finite(a), Finite(p))) == Finite(p))
    && (forall a: real, p: real {:trigger k.invUpperIncGamma(Finite(a), Finite(p))} ::
          a > 0.0 && 0.0 < p < 1.0 ==>
            && k.invUpperIncGamma(Finite(a), Finite(p)).Finite?
            && k.invUpperIncGamma(Finite(a), Finite(p)).v > 0.0
            && k.upperIncGamma(Finite(a), k.invUpperIncGamma(Finite(a), Finite(p))) == Finite(p))
  }

  /** hypot(a, b) is the non-negative real whose square is a^2 + b^2. */
  ghost predicate HypotLaw(k: Kernels)
  {
    forall a: real, b: real {:trigger k.hypot(Finite(a), Finite(b))} ::
      && k.hypot(Finite(a), Finite(b)).Finite?
      && k.hypot(Finite(a), Finite(b)).v >= 0.0
      && k.hypot(Finite(a), Finite(b)).v * k.hypot(Finite(a), Finite(b)).v == a * a + b * b
  }
}
