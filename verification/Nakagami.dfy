/** The Nakagami distribution with shape m >= 1/2 and spread omega on
    [0, +inf): X^2 is gamma distributed with shape m and rate m/omega, so the
    Lower tail at x is P(m, m x^2 / omega). */
module Nakagami {
  import opened ExtReal
  import opened Numerics
  import opened Wrappers
  import opened RealArith

  datatype Nakagami = Nakagami(m: real, omega: real)

  predicate Valid(d: Nakagami)
  {
    d.m >= 0.5 && d.omega > 0.0
  }

  /** The constructor: the shape must be at least 1/2, the spread positive. */
  function Create(m: real, omega: real): (r: Result<Nakagami>)
    ensures r.Ok? <==> m >= 0.5 && omega > 0.0
    ensures r.Ok? ==> Valid(r.value) && r.value == Nakagami(m, omega)
  {
    if !(m >= 0.5) then Invalid("m")
    else if !(omega > 0.0) then Invalid("omega")
    else Ok(Nakagami(m, omega))
  }

  /** m / omega, the rate of X^2, cached by the constructor. */
  function MOmega(d: Nakagami): (r: real)
    requires Valid(d)
    ensures r > 0.0
  {
    d.m / d.omega
  }

  /** omega / m, cached by the constructor: the reciprocal of MOmega. */
  function OmegaM(d: Nakagami): (r: real)
    requires Valid(d)
    ensures r > 0.0 && r * MOmega(d) == 1.0
  {
    assert (d.omega / d.m) * (d.m / d.omega) == (d.omega * d.m) / (d.m * d.omega);
    d.omega / d.m
  }

  /** The log normaliser as the constructor computes it:
      -logGamma(m) + m log(2 m / omega). */
  function PdfLogNormAsWritten(d: Nakagami, k: Kernels): XReal
    requires Valid(d)
  {
    Add(Neg(k.logGamma(Finite(d.m))), Mul(Finite(d.m), k.log(Finite(2.0 * MOmega(d)))))
  }

  /** The log normaliser of 2 (m/omega)^m / Gamma(m):
      log 2 - logGamma(m) + m log(m / omega). */
  function PdfLogNorm(d: Nakagami, k: Kernels): XReal
    requires Valid(d)
  {
    Add(Add(k.log(Finite(2.0)), Neg(k.logGamma(Finite(d.m)))), Mul(Finite(d.m), k.log(Finite(MOmega(d)))))
  }

  /** exp(log x (2m - 1) - (m/omega) x x + lognorm). */
  function PdfKernel(d: Nakagami, x: XReal, lognorm: XReal, k: Kernels): XReal
    requires Valid(d)
  {
    k.exp(Add(Sub(Mul(k.log(x), Finite(2.0 * d.m - 1.0)), Mul(Mul(Finite(MOmega(d)), x), x)), lognorm))
  }

  /** The density as the source writes it: 0 below 0, and the kernel with
      the constructor's normaliser everywhere else. */
  function PDFAsWritten(d: Nakagami, x: XReal, k: Kernels): (r: XReal)
    requires Valid(d)
    ensures IsNegative(x) ==> r == Zero
  {
    if IsNegative(x) then Zero else PdfKernel(d, x, PdfLogNormAsWritten(d, k), k)
  }

  /** The corrected density: the normaliser of 2 (m/omega)^m / Gamma(m),
      the limit 0 at +inf, and at 0 the limit of x^(2m-1): 1 times the
      normaliser for m = 1/2, 0 above. */
  function PDF(d: Nakagami, x: XReal, k: Kernels): (r: XReal)
    requires Valid(d)
    ensures IsNegative(x) || x.PosInf? ==> r == Zero
    ensures x == Zero && d.m > 0.5 ==> r == Zero
  {
    if IsNegative(x) || x.PosInf? then Zero
    else if x == Zero then (if d.m == 0.5 then k.exp(PdfLogNorm(d, k)) else Zero)
    else PdfKernel(d, x, PdfLogNorm(d, k), k)
  }

  /** The gamma-function argument m x^2 / omega, as x x (m/omega). */
  function GammaArg(d: Nakagami, x: XReal): XReal
    requires Valid(d)
  {
    Mul(Mul(x, x), Finite(MOmega(d)))
  }

  /** The tails as the source writes them: P(m, x^2 m/omega) and
      Q(m, x^2 m/omega) at every x, negative ones included. */
  function CDFAsWritten(d: Nakagami, x: XReal, interval: Interval, k: Kernels): XReal
    requires Valid(d)
  {
    if interval.Lower? then k.lowerIncGamma(Finite(d.m), GammaArg(d, x))
    else k.upperIncGamma(Finite(d.m), GammaArg(d, x))
  }

  /** The corrected tails: exact at and below 0, as written above. */
  function CDF(d: Nakagami, x: XReal, interval: Interval, k: Kernels): (r: XReal)
    requires Valid(d)
    ensures Le(x, Zero) ==> r == (if interval.Lower? then Zero else One)
    ensures Gt(x, Zero) ==> r == CDFAsWritten(d, x, interval, k)
  {
    if Le(x, Zero) then (if interval.Lower? then Zero else One)
    else CDFAsWritten(d, x, interval, k)
  }

  /** The quantile: NaN outside [0, 1]; sqrt(P^-1(m, p) omega/m) for the
      Lower tail and sqrt(Q^-1(m, p) omega/m) for the Upper one. */
  function Quantile(d: Nakagami, p: XReal, interval: Interval, k: Kernels): (r: XReal)
    requires Valid(d)
    ensures !InRangeUnit(p) ==> r.NaN?
  {
    if !InRangeUnit(p) then NaN
    else if interval.Lower? then k.sqrt(Mul(k.invLowerIncGamma(Finite(d.m), p), Finite(OmegaM(d))))
    else k.sqrt(Mul(k.invUpperIncGamma(Finite(d.m), p), Finite(OmegaM(d))))
  }

  /** The support [0, +inf). */
  function Support(d: Nakagami): (XReal, XReal)
  {
    (Zero, PosInf)
  }

  /** Gamma(m + 1/2) / Gamma(m), as exp(logGamma(m + 1/2) - logGamma(m)). */
  function GammaRatio(d: Nakagami, k: Kernels): XReal
    requires Valid(d)
  {
    k.exp(Sub(k.logGamma(Finite(d.m + 0.5)), k.logGamma(Finite(d.m))))
  }

  /** Gamma(m + 1/2) / Gamma(m) sqrt(omega / m) */
  function Mean(d: Nakagami, k: Kernels): (r: XReal)
    requires Valid(d)
    ensures ExpLaws(k) && SqrtLaw(k) && LogGammaFinite(k) ==> r.Finite? && r.v > 0.0
  {
    var g := GammaRatio(d, k);
    var s := k.sqrt(Finite(OmegaM(d)));
    var r := Mul(g, s);
    assert ExpLaws(k) && SqrtLaw(k) && LogGammaFinite(k) ==> r.Finite? && r.v > 0.0 by {
      if ExpLaws(k) && SqrtLaw(k) && LogGammaFinite(k) {
        assert k.logGamma(Finite(d.m + 0.5)).Finite? && k.logGamma(Finite(d.m)).Finite?;
        assert g.Finite? && g.v > 0.0;
        RootPositive(s.v, OmegaM(d));
        ProductPositive(g.v, s.v);
      }
    }
    r
  }

  /** The quantile at 1/2: both tails are 1/2 there. */
  function Median(d: Nakagami, k: Kernels): (r: XReal)
    requires Valid(d)
    ensures MedianLaws(k) ==> CDF(d, r, Lower, k) == Half && CDF(d, r, Upper, k) == Half
  {
    var r := Quantile(d, Half, Lower, k);
    assert MedianLaws(k) ==> CDF(d, r, Lower, k) == Half && CDF(d, r, Upper, k) == Half by {
      if MedianLaws(k) {
        QuantileRoundTripLower(d, Half, k);
        CDFComplement(d, r, k);
        var up := CDF(d, r, Upper, k);
        assert Add(Half, up) == One;
      }
    }
    r
  }

  /** The kernel laws under which the quantile inverts the CDF. */
  ghost predicate MedianLaws(k: Kernels)
  {
    && IncGammaInverseLaws(k) && SqrtLaw(k) && IncGammaComplement(k)
    && LowerIncGammaPositive(k) && IncGammaAtInfinity(k)
  }

  /** sqrt((2m - 1) omega / (2m)): 0 exactly for m = 1/2, and its square
      lies below omega. */
  function Mode(d: Nakagami, k: Kernels): (r: XReal)
    requires Valid(d)
    ensures SqrtLaw(k) ==> r.Finite? && r.v >= 0.0 && (r.v == 0.0 <==> d.m == 0.5)
    ensures SqrtLaw(k) ==> r.v * r.v < d.omega
  {
    var q := (2.0 * d.m - 1.0) * d.omega / (2.0 * d.m);
    ModeSquare(d.m, d.omega, q);
    var r := k.sqrt(Finite(q));
    assert SqrtLaw(k) ==> r.Finite? && r.v >= 0.0 && (r.v == 0.0 <==> d.m == 0.5) && r.v * r.v < d.omega by {
      if SqrtLaw(k) {
        assert r.Finite? && r.v >= 0.0 && r.v * r.v == q;
        if d.m > 0.5 { RootPositive(r.v, q); } else { RootZero(r.v); }
      }
    }
    r
  }

  /** omega (1 - (Gamma(m + 1/2)/Gamma(m))^2 / m): with the squared mean it
      adds up to omega = E[X^2]. */
  function Variance(d: Nakagami, k: Kernels): (r: XReal)
    requires Valid(d)
    ensures ExpLaws(k) && SqrtLaw(k) && LogGammaFinite(k) ==>
      r.Finite? && Mean(d, k).Finite? && r.v + Mean(d, k).v * Mean(d, k).v == d.omega
  {
    var g := GammaRatio(d, k);
    var r := Mul(Finite(d.omega), Sub(One, Div(Square(g), Finite(d.m))));
    assert ExpLaws(k) && SqrtLaw(k) && LogGammaFinite(k) ==>
      r.Finite? && Mean(d, k).Finite? && r.v + Mean(d, k).v * Mean(d, k).v == d.omega by {
      if ExpLaws(k) && SqrtLaw(k) && LogGammaFinite(k) {
        var gv, sv := MeanParts(d, k);
        MomentAlgebra(gv, sv, d.m, d.omega);
        assert Square(g) == Finite(gv * gv);
        assert r == Finite(d.omega * (1.0 - gv * gv / d.m));
      }
    }
    r
  }

  /** g (1/2 - 2w) / sqrt(w)^3 with g = Gamma(m + 1/2)/Gamma(m), w = m - g^2. */
  function Skewness(d: Nakagami, k: Kernels): XReal
    requires Valid(d)
  {
    var g := GammaRatio(d, k);
    var w := Sub(Finite(d.m), Mul(g, g));
    var s := k.sqrt(w);
    Div(Mul(g, Sub(Half, Mul(Finite(2.0), w))), Mul(Mul(s, s), s))
  }

  /** (m (4m - 1) - 2 (2m + 1) g^2) / w^2 - 3 with g and w as for the
      skewness. */
  function Kurtosis(d: Nakagami, k: Kernels): XReal
    requires Valid(d)
  {
    var g := GammaRatio(d, k);
    var w := Sub(Finite(d.m), Mul(g, g));
    Sub(Div(Sub(Finite(d.m * (4.0 * d.m - 1.0)), Mul(Mul(Finite(2.0 * (2.0 * d.m + 1.0)), g), g)), Mul(w, w)), Finite(3.0))
  }

  // ---------------------------------------------------------------------
  // Arithmetic helpers

  /** (2m - 1) omega / (2m) is non-negative, 0 exactly for m = 1/2, and
      below omega. */
  lemma ModeSquare(m: real, omega: real, q: real)
    requires m >= 0.5 && omega > 0.0 && q == (2.0 * m - 1.0) * omega / (2.0 * m)
    ensures q >= 0.0 && (q == 0.0 <==> m == 0.5) && q < omega
  {
    var f := (2.0 * m - 1.0) / (2.0 * m);
    assert q == f * omega;
    assert f == 1.0 - 1.0 / (2.0 * m);
    QuotientPositive(1.0, 2.0 * m);
    assert f < 1.0;
    ProductPositive(1.0 - f, omega);
    if m > 0.5 {
      QuotientPositive(2.0 * m - 1.0, 2.0 * m);
      ProductPositive(f, omega);
    }
  }

  /** The gamma density with shape a and rate b at y, in log form:
      exp((a - 1) log y - b y + a log b - logGamma(a)). */
  function GammaDensity(y: XReal, a: real, b: real, k: Kernels): XReal
  {
    k.exp(Add(Sub(Mul(k.log(y), Finite(a - 1.0)), Mul(Finite(b), y)), Sub(Mul(Finite(a), k.log(Finite(b))), k.logGamma(Finite(a)))))
  }

  // ---------------------------------------------------------------------
  // Tails and quantiles

  /** The tails as written see only x^2: at -t they equal the tails at t,
      so the Lower tail is positive below 0, where no mass lies. */
  lemma CDFAsWrittenBelowZero(d: Nakagami, t: real, k: Kernels)
    requires Valid(d) && t > 0.0 && LowerIncGammaPositive(k)
    ensures CDFAsWritten(d, Finite(-t), Lower, k) == CDFAsWritten(d, Finite(t), Lower, k)
    ensures CDFAsWritten(d, Finite(-t), Upper, k) == CDFAsWritten(d, Finite(t), Upper, k)
    ensures CDFAsWritten(d, Finite(-t), Lower, k).Finite? && CDFAsWritten(d, Finite(-t), Lower, k).v > 0.0
    ensures CDF(d, Finite(-t), Lower, k) == Zero
  {
    assert (-t) * (-t) == t * t;
    var y := t * t;
    SquarePositive(t, y);
    ProductPositive(y, MOmega(d));
    assert GammaArg(d, Finite(-t)) == Finite(y * MOmega(d));
    assert GammaArg(d, Finite(t)) == Finite(y * MOmega(d));
  }

  /** The two corrected tails sum to exactly 1 at every non-NaN argument. */
  lemma CDFComplement(d: Nakagami, x: XReal, k: Kernels)
    requires Valid(d) && !x.NaN?
    requires IncGammaComplement(k) && LowerIncGammaPositive(k) && IncGammaAtInfinity(k)
    ensures Add(CDF(d, x, Lower, k), CDF(d, x, Upper, k)) == One
  {
    if Gt(x, Zero) {
      var a := Finite(d.m);
      if x.Finite? {
        var y := x.v * x.v;
        SquarePositive(x.v, y);
        ProductPositive(y, MOmega(d));
        assert GammaArg(d, x) == Finite(y * MOmega(d));
        var lo := k.lowerIncGamma(a, GammaArg(d, x));
        assert lo.Finite?;
        var up := k.upperIncGamma(a, GammaArg(d, x));
        assert up.Finite? && lo.v + up.v == 1.0;
      } else {
        assert GammaArg(d, x) == PosInf;
      }
    }
  }

  /** For g a positive real, sqrt(g omega/m) is a positive real whose gamma
      argument is g again. */
  lemma RootOfScaledInverse(d: Nakagami, g: XReal, k: Kernels)
    requires Valid(d) && g.Finite? && g.v > 0.0 && SqrtLaw(k)
    ensures k.sqrt(Mul(g, Finite(OmegaM(d)))).Finite? && k.sqrt(Mul(g, Finite(OmegaM(d)))).v > 0.0
    ensures GammaArg(d, k.sqrt(Mul(g, Finite(OmegaM(d))))) == g
  {
    var y := g.v * OmegaM(d);
    ProductPositive(g.v, OmegaM(d));
    assert Mul(g, Finite(OmegaM(d))) == Finite(y);
    var s := k.sqrt(Finite(y));
    assert s.Finite? && s.v >= 0.0 && s.v * s.v == y;
    RootPositive(s.v, y);
    assert y * MOmega(d) == g.v * (OmegaM(d) * MOmega(d));
    assert Mul(Mul(s, s), Finite(MOmega(d))) == Finite(y * MOmega(d));
  }

  /** The Lower quantile inverts the Lower tail on (0, 1). */
  lemma QuantileRoundTripLower(d: Nakagami, p: XReal, k: Kernels)
    requires Valid(d) && p.Finite? && 0.0 < p.v < 1.0 && IncGammaInverseLaws(k) && SqrtLaw(k)
    ensures Quantile(d, p, Lower, k).Finite? && Quantile(d, p, Lower, k).v > 0.0
    ensures CDF(d, Quantile(d, p, Lower, k), Lower, k) == p
  {
    var g := k.invLowerIncGamma(Finite(d.m), p);
    assert g.Finite? && g.v > 0.0;
    RootOfScaledInverse(d, g, k);
    assert k.lowerIncGamma(Finite(d.m), g) == p;
  }

  /** The Upper quantile inverts the Upper tail on (0, 1). */
  lemma QuantileRoundTripUpper(d: Nakagami, p: XReal, k: Kernels)
    requires Valid(d) && p.Finite? && 0.0 < p.v < 1.0 && IncGammaInverseLaws(k) && SqrtLaw(k)
    ensures Quantile(d, p, Upper, k).Finite? && Quantile(d, p, Upper, k).v > 0.0
    ensures CDF(d, Quantile(d, p, Upper, k), Upper, k) == p
  {
    var g := k.invUpperIncGamma(Finite(d.m), p);
    assert g.Finite? && g.v > 0.0;
    RootOfScaledInverse(d, g, k);
    assert k.upperIncGamma(Finite(d.m), g) == p;
  }

  // ---------------------------------------------------------------------
  // Moments

  /** The mean is g s with g = Gamma(m + 1/2)/Gamma(m) and s^2 = omega/m. */
  lemma MeanParts(d: Nakagami, k: Kernels) returns (g: real, s: real)
    requires Valid(d) && ExpLaws(k) && SqrtLaw(k) && LogGammaFinite(k)
    ensures GammaRatio(d, k) == Finite(g) && s * s == OmegaM(d)
    ensures Mean(d, k) == Finite(g * s)
  {
    assert k.logGamma(Finite(d.m + 0.5)).Finite? && k.logGamma(Finite(d.m)).Finite?;
    g := GammaRatio(d, k).v;
    var sq := k.sqrt(Finite(OmegaM(d)));
    assert sq.Finite? && sq.v * sq.v == OmegaM(d);
    s := sq.v;
  }

  /** omega (1 - g^2/m) + (g s)^2 = omega when s^2 = omega/m. */
  lemma MomentAlgebra(g: real, s: real, m: real, omega: real)
    requires m > 0.0 && s * s == omega / m
    ensures omega * (1.0 - g * g / m) + (g * s) * (g * s) == omega
  {
    assert (g * s) * (g * s) == (g * g) * (s * s);
    assert (g * g) * (omega / m) == omega * (g * g / m);
  }

  // ---------------------------------------------------------------------
  // Density

  /** The pieces of the corrected normaliser as reals: L2 = log 2 > 0,
      lg = logGamma(m), lr = log(m/omega). */
  lemma LogNormParts(d: Nakagami, k: Kernels) returns (L2: real, lg: real, lr: real)
    requires Valid(d) && LogLaws(k) && LogGammaFinite(k)
    ensures k.log(Finite(2.0)) == Finite(L2) && L2 > 0.0
    ensures k.logGamma(Finite(d.m)) == Finite(lg)
    ensures k.log(Finite(MOmega(d))) == Finite(lr)
    ensures PdfLogNorm(d, k) == Finite((L2 + -lg) + d.m * lr)
  {
    L2 := k.log(Finite(2.0)).v;
    lg := k.logGamma(Finite(d.m)).v;
    lr := k.log(Finite(MOmega(d))).v;
  }

  /** The constructor's normaliser exceeds the corrected one by (m - 1) log 2:
      it takes the log of (2m/omega)^m where 2 (m/omega)^m is meant. */
  lemma PdfLogNormExcess(d: Nakagami, k: Kernels)
    requires Valid(d) && LogLaws(k) && LogGammaFinite(k) && ExpAddLaw(k) && LogExpLaw(k)
    ensures PdfLogNorm(d, k).Finite? && PdfLogNormAsWritten(d, k).Finite?
    ensures PdfLogNormAsWritten(d, k).v == PdfLogNorm(d, k).v + (d.m - 1.0) * k.log(Finite(2.0)).v
  {
    var L2, lg, lr := LogNormParts(d, k);
    LogOfProduct(k, 2.0, MOmega(d));
    ExcessAlgebra(d, L2, lg, lr, k);
  }

  /** The constructor's normaliser in terms of the parts of the corrected
      one, given log(2 m/omega) = log 2 + log(m/omega). */
  lemma ExcessAlgebra(d: Nakagami, L2: real, lg: real, lr: real, k: Kernels)
    requires Valid(d)
    requires k.log(Finite(2.0)) == Finite(L2) && k.logGamma(Finite(d.m)) == Finite(lg)
    requires k.log(Finite(MOmega(d))) == Finite(lr)
    requires k.log(Finite(2.0 * MOmega(d))) == Add(k.log(Finite(2.0)), k.log(Finite(MOmega(d))))
    ensures PdfLogNormAsWritten(d, k) == Finite(((L2 + -lg) + d.m * lr) + (d.m - 1.0) * L2)
  {
    assert k.log(Finite(2.0 * MOmega(d))) == Finite(L2 + lr);
    assert Mul(Finite(d.m), Finite(L2 + lr)) == Finite(d.m * (L2 + lr));
    assert Neg(k.logGamma(Finite(d.m))) == Finite(-lg);
    assert -lg + d.m * (L2 + lr) == ((L2 + -lg) + d.m * lr) + (d.m - 1.0) * L2;
  }

  /** At a positive real x with log x = l, the kernel with a finite
      normaliser n is exp(l (2m - 1) - (m/omega) x x + n). */
  lemma KernelAt(d: Nakagami, x: real, l: real, n: real, k: Kernels) returns (e: real)
    requires Valid(d) && k.log(Finite(x)) == Finite(l)
    ensures e == l * (2.0 * d.m - 1.0) - MOmega(d) * x * x + n
    ensures PdfKernel(d, Finite(x), Finite(n), k) == k.exp(Finite(e))
  {
    e := ExponentOfReals(k.log(Finite(x)), l, 2.0 * d.m - 1.0, MOmega(d), x, n);
  }

  /** The kernel's exponent l c - r x x + n evaluated on reals. */
  lemma ExponentOfReals(lx: XReal, l: real, c: real, r: real, x: real, n: real) returns (e: real)
    requires lx == Finite(l)
    ensures e == l * c - r * x * x + n
    ensures Add(Sub(Mul(lx, Finite(c)), Mul(Mul(Finite(r), Finite(x)), Finite(x))), Finite(n)) == Finite(e)
  {
    var q := r * x * x;
    e := l * c - q + n;
    assert Mul(Mul(Finite(r), Finite(x)), Finite(x)) == Finite(q);
    assert Mul(lx, Finite(c)) == Finite(l * c);
    assert Sub(Finite(l * c), Finite(q)) == Finite(l * c - q);
  }

  /** The gamma density at y = x^2, given log(x^2) = 2 log x. */
  lemma GammaDensityAtSquare(d: Nakagami, x: real, l: real, lg: real, lr: real, k: Kernels) returns (b: real)
    requires Valid(d) && x > 0.0
    requires k.log(Finite(x * x)) == Finite(l + l) && k.logGamma(Finite(d.m)) == Finite(lg)
    requires k.log(Finite(MOmega(d))) == Finite(lr)
    ensures b == (l + l) * (d.m - 1.0) - MOmega(d) * (x * x) + (d.m * lr - lg)
    ensures GammaDensity(Finite(x * x), d.m, MOmega(d), k) == k.exp(Finite(b))
  {
    var y := x * x;
    var r := MOmega(d);
    var c := d.m - 1.0;
    b := (l + l) * c - r * y + (d.m * lr - lg);
    assert Mul(k.log(Finite(y)), Finite(c)) == Finite((l + l) * c);
    assert Mul(Finite(r), Finite(y)) == Finite(r * y);
    assert Sub(Finite((l + l) * c), Finite(r * y)) == Finite((l + l) * c - r * y);
    assert Mul(Finite(d.m), k.log(Finite(r))) == Finite(d.m * lr);
    assert Sub(Finite(d.m * lr), k.logGamma(Finite(d.m))) == Finite(d.m * lr - lg);
    assert Add(Finite((l + l) * c - r * y), Finite(d.m * lr - lg)) == Finite(b);
  }

  /** The corrected density is the density of the square root of a gamma
      variable with shape m and rate m/omega: at x > 0 it is 2x times the
      gamma density at x^2. */
  lemma PDFIsTransformedGamma(d: Nakagami, x: real, k: Kernels)
    requires Valid(d) && x > 0.0
    requires LogLaws(k) && LogGammaFinite(k) && ExpAddLaw(k) && LogExpLaw(k)
    ensures PDF(d, Finite(x), k) == Mul(Finite(2.0 * x), GammaDensity(Finite(x * x), d.m, MOmega(d), k))
  {
    var L2, lg, lr := LogNormParts(d, k);
    var n := (L2 + -lg) + d.m * lr;
    var l := k.log(Finite(x)).v;
    assert k.exp(Finite(l)) == Finite(x);
    var e := KernelAt(d, x, l, n, k);
    LogOfProduct(k, x, x);
    var b := GammaDensityAtSquare(d, x, l, lg, lr, k);
    assert e == (L2 + l) + b;
    assert k.exp(k.log(Finite(2.0))) == Finite(2.0);
    ExpOfSum(k, L2, l, L2 + l);
    assert k.exp(Finite(L2 + l)) == Finite(2.0 * x);
    ExpOfSum(k, L2 + l, b, e);
  }

  /** At x > 0 the density as written is the corrected one times
      exp((m - 1) log 2) = 2^(m-1). */
  lemma PDFAsWrittenScaled(d: Nakagami, x: real, k: Kernels)
    requires Valid(d) && x > 0.0
    requires LogLaws(k) && LogGammaFinite(k) && ExpAddLaw(k) && LogExpLaw(k)
    ensures PDFAsWritten(d, Finite(x), k) == Mul(k.exp(Finite((d.m - 1.0) * k.log(Finite(2.0)).v)), PDF(d, Finite(x), k))
  {
    PdfLogNormExcess(d, k);
    var n := PdfLogNorm(d, k).v;
    var c := (d.m - 1.0) * k.log(Finite(2.0)).v;
    assert PdfLogNormAsWritten(d, k) == Finite(n + c);
    NormaliserShift(d, x, n, c, k);
  }

  /** When the two normalisers are n and n + c, the density as written is
      exp(c) times the corrected one at every x > 0. */
  lemma NormaliserShift(d: Nakagami, x: real, n: real, c: real, k: Kernels)
    requires Valid(d) && x > 0.0 && LogLaws(k) && ExpAddLaw(k)
    requires PdfLogNorm(d, k) == Finite(n) && PdfLogNormAsWritten(d, k) == Finite(n + c)
    ensures PDFAsWritten(d, Finite(x), k) == Mul(k.exp(Finite(c)), PDF(d, Finite(x), k))
  {
    KernelShift(d, x, k.log(Finite(x)).v, n, c, k);
    assert Finite(x) != Zero;
  }

  /** Adding c to the normaliser multiplies the kernel by exp(c). */
  lemma KernelShift(d: Nakagami, x: real, l: real, n: real, c: real, k: Kernels)
    requires Valid(d) && k.log(Finite(x)) == Finite(l) && ExpAddLaw(k)
    ensures PdfKernel(d, Finite(x), Finite(n + c), k) == Mul(k.exp(Finite(c)), PdfKernel(d, Finite(x), Finite(n), k))
  {
    var e := KernelAt(d, x, l, n, k);
    var e' := KernelAt(d, x, l, n + c, k);
    assert e' == c + e;
    ExpOfSum(k, c, e, e');
  }

  /** For m = 2 the density as written is twice the corrected one at every
      x > 0, so it integrates to 2. */
  lemma PDFAsWrittenDoubles(d: Nakagami, x: real, k: Kernels)
    requires Valid(d) && d.m == 2.0 && x > 0.0
    requires ExpLaws(k) && LogLaws(k) && LogGammaFinite(k) && ExpAddLaw(k) && LogExpLaw(k)
    ensures PDF(d, Finite(x), k).Finite? && PDF(d, Finite(x), k).v > 0.0
    ensures PDFAsWritten(d, Finite(x), k) == Finite(2.0 * PDF(d, Finite(x), k).v)
  {
    PDFAsWrittenScaled(d, x, k);
    var L2 := k.log(Finite(2.0)).v;
    assert (d.m - 1.0) * L2 == L2;
    assert k.exp(Finite(L2)) == Finite(2.0) by {
      assert k.exp(k.log(Finite(2.0))) == Finite(2.0);
    }
    PDFPositive(d, x, k);
  }

  /** The corrected density is a positive real at every positive real. */
  lemma PDFPositive(d: Nakagami, x: real, k: Kernels)
    requires Valid(d) && x > 0.0 && ExpLaws(k) && LogLaws(k) && LogGammaFinite(k)
    ensures PDF(d, Finite(x), k).Finite? && PDF(d, Finite(x), k).v > 0.0
  {
    var L2, lg, lr := LogNormParts(d, k);
    var l := k.log(Finite(x)).v;
    var e := KernelAt(d, x, l, (L2 + -lg) + d.m * lr, k);
  }

  /** For m = 1/2 the kernel at 0 is exp(NaN), whatever the normaliser. */
  lemma KernelNaNAtZero(d: Nakagami, n: XReal, k: Kernels)
    requires Valid(d) && d.m == 0.5 && LogEnds(k)
    ensures PdfKernel(d, Zero, n, k) == k.exp(NaN)
  {
    assert 2.0 * d.m - 1.0 == 0.0;
    NaNExponent(k.log(Zero), Finite(2.0 * d.m - 1.0), Mul(Mul(Finite(MOmega(d)), Zero), Zero), n);
  }

  /** -inf times 0 is NaN, and NaN survives the rest of the exponent. */
  lemma NaNExponent(a: XReal, b: XReal, q: XReal, n: XReal)
    requires a == NegInf && b == Zero
    ensures Add(Sub(Mul(a, b), q), n) == NaN
  {
  }

  /** At +inf the density as written is NaN (+inf - inf in the exponent);
      the corrected one is 0. */
  lemma PDFAsWrittenNaNAtInfinity(d: Nakagami, k: Kernels)
    requires Valid(d) && ExpLaws(k) && LogEnds(k)
    ensures PDFAsWritten(d, PosInf, k).NaN?
    ensures PDF(d, PosInf, k) == Zero
  {
    assert Mul(Mul(Finite(MOmega(d)), PosInf), PosInf) == PosInf;
    assert Mul(PosInf, Finite(2.0 * d.m - 1.0)) in {PosInf, NaN};
  }

  /** For m = 1/2 the density as written is NaN at 0 (-inf times 0 in the
      exponent); the corrected one is the positive normaliser. */
  lemma PDFAsWrittenNaNAtZero(d: Nakagami, k: Kernels)
    requires Valid(d) && d.m == 0.5 && ExpLaws(k) && LogEnds(k) && LogLaws(k) && LogGammaFinite(k)
    ensures PDFAsWritten(d, Zero, k).NaN?
    ensures PDF(d, Zero, k).Finite? && PDF(d, Zero, k).v > 0.0
  {
    KernelNaNAtZero(d, PdfLogNormAsWritten(d, k), k);
    var L2, lg, lr := LogNormParts(d, k);
    assert PDF(d, Zero, k) == k.exp(Finite((L2 + -lg) + d.m * lr));
  }
}
