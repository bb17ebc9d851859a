/** The Burr (type XII) distribution with shapes c and k on [0, +inf):
    the Upper tail is (1 + x^c)^(-k). */
module Burr {
  import opened ExtReal
  import opened Numerics
  import opened Wrappers
  import opened RealArith

  datatype Burr = Burr(c: real, k: real)

  predicate Valid(d: Burr)
  {
    d.c > 0.0 && d.k > 0.0
  }

  /** The constructor: both shapes must be positive. */
  function Create(c: real, k: real): (r: Result<Burr>)
    ensures r.Ok? <==> c > 0.0 && k > 0.0
    ensures r.Ok? ==> Valid(r.value) && r.value == Burr(c, k)
  {
    if !(c > 0.0) then Invalid("c")
    else if !(k > 0.0) then Invalid("k")
    else Ok(Burr(c, k))
  }

  /** c k, cached by the constructor. */
  function CK(d: Burr): real
  {
    d.c * d.k
  }

  /** The density formula c k x^c / (x (x^c + 1)^(k+1)), applied to every
      argument that is not negative, as the source does. */
  function PDFAsWritten(d: Burr, x: XReal, k: Kernels): (r: XReal)
    requires Valid(d)
    ensures IsNegative(x) ==> r == Zero
  {
    if IsNegative(x) then Zero
    else
      var xc := k.pow(x, Finite(d.c));
      Div(Mul(Finite(CK(d)), xc), Mul(x, k.pow(Add(xc, One), Finite(d.k + 1.0))))
  }

  /** The limit of the density at 0: +inf for c < 1, k for c = 1, 0 for c > 1. */
  function DensityAtZero(d: Burr): XReal
    requires Valid(d)
  {
    if d.c < 1.0 then PosInf else if d.c == 1.0 then Finite(d.k) else Zero
  }

  /** The density with both ends of the support taken as limits: the
      limit value at 0 and 0 at +inf; elsewhere it is the source's formula. */
  function PDF(d: Burr, x: XReal, k: Kernels): (r: XReal)
    requires Valid(d)
    ensures IsNegative(x) ==> r == Zero
    ensures x == Zero ==> r == DensityAtZero(d)
    ensures x == PosInf ==> r == Zero
    ensures x.Finite? && x.v > 0.0 ==> r == PDFAsWritten(d, x, k)
  {
    if x == Zero then DensityAtZero(d)
    else if x == PosInf then Zero
    else PDFAsWritten(d, x, k)
  }

  /** Lower: max(0, 1 - (1 + x^c)^(-k)); Upper: min(1, (1 + x^c)^(-k)); each
      exact at and below 0 and at +inf (or where x^c overflows). */
  function CDF(d: Burr, x: XReal, interval: Interval, k: Kernels): (r: XReal)
    requires Valid(d)
    ensures Le(x, Zero) ==> r == (if interval.Lower? then Zero else One)
    ensures x == PosInf ==> r == (if interval.Lower? then One else Zero)
  {
    var xc := k.pow(x, Finite(d.c));
    if interval.Lower? then
      if Le(x, Zero) then Zero
      else if x.PosInf? || xc.PosInf? then One
      else Max(Zero, Sub(One, k.pow(Add(One, xc), Finite(-d.k))))
    else
      if Le(x, Zero) then One
      else if x.PosInf? || xc.PosInf? then Zero
      else Min(One, k.pow(Add(One, xc), Finite(-d.k)))
  }

  /** ((1/q)^(1/k) - 1)^(1/c): the argument whose Upper tail is q. */
  function Invert(d: Burr, q: XReal, k: Kernels): XReal
    requires Valid(d)
  {
    k.pow(Sub(k.pow(Div(One, q), Finite(1.0 / d.k)), One), Finite(1.0 / d.c))
  }

  /** The quantile: NaN outside [0, 1], the ends of the support at the ends
      of [0, 1], otherwise the Upper tail inverted at 1 - p (Lower) or p
      (Upper). */
  function Quantile(d: Burr, p: XReal, interval: Interval, k: Kernels): (r: XReal)
    requires Valid(d)
    ensures !InRangeUnit(p) ==> r.NaN?
    ensures InRangeUnit(p) && p == Zero ==> r == (if interval.Lower? then Zero else PosInf)
    ensures InRangeUnit(p) && p == One ==> r == (if interval.Lower? then PosInf else Zero)
  {
    if !InRangeUnit(p) then NaN
    else if interval.Lower? then
      if Le(p, Zero) then Zero
      else if Ge(p, One) then PosInf
      else Invert(d, Sub(One, p), k)
    else
      if Le(p, Zero) then PosInf
      else if Ge(p, One) then Zero
      else Invert(d, p, k)
  }

  /** The support [0, +inf). */
  function Support(d: Burr): (XReal, XReal)
  {
    (Zero, PosInf)
  }

  /** k B(k - 1/c, 1 + 1/c): a positive real whenever c k > 1, where the
      first argument of B is positive. */
  function Mean(d: Burr, k: Kernels): (r: XReal)
    requires Valid(d)
    ensures BetaPositive(k) && CK(d) > 1.0 ==> r.Finite? && r.v > 0.0
  {
    var b := k.beta(Finite(d.k - 1.0 / d.c), Finite(1.0 + 1.0 / d.c));
    assert BetaPositive(k) && CK(d) > 1.0 ==> b.Finite? && d.k * b.v > 0.0 by {
      if BetaPositive(k) && CK(d) > 1.0 {
        ShapeAboveReciprocal(d.c, d.k, 1.0);
        ProductPositive(d.k, b.v);
      }
    }
    Mul(Finite(d.k), b)
  }

  /** (2^(1/k) - 1)^(1/c): the Lower quantile at 1/2, so the Lower tail
      there is 1/2. */
  function Median(d: Burr, k: Kernels): (r: XReal)
    requires Valid(d)
    ensures Pow2Law(k) ==> r == Quantile(d, Half, Lower, k)
    ensures Pow2Law(k) && PowLaws(k) && PowRootLaw(k) && PowReciprocalLaw(k) ==> CDF(d, r, Lower, k) == Half
  {
    assert Sub(One, Half) == Half;
    assert Div(One, Half) == Finite(2.0);
    assert PowLaws(k) && PowRootLaw(k) && PowReciprocalLaw(k) ==> CDF(d, Quantile(d, Half, Lower, k), Lower, k) == Half by {
      if PowLaws(k) && PowRootLaw(k) && PowReciprocalLaw(k) { QuantileRoundTripLower(d, Half, k); }
    }
    k.pow(Sub(k.pow2(Finite(1.0 / d.k)), One), Finite(1.0 / d.c))
  }

  /** ((c - 1)/(k c + 1))^(1/c) */
  function Mode(d: Burr, k: Kernels): (r: XReal)
    requires Valid(d)
    ensures PowLaws(k) && d.c == 1.0 ==> r == Zero
    ensures PowLaws(k) && d.c > 1.0 ==> r.Finite? && r.v > 0.0
  {
    var b := (d.c - 1.0) / (d.k * d.c + 1.0);
    ModeBase(d.c, d.k, b);
    k.pow(Finite(b), Finite(1.0 / d.c))
  }

  /** The base (c - 1)/(k c + 1) is 0 for c = 1 and positive for c > 1. */
  lemma ModeBase(c: real, k: real, b: real)
    requires c > 0.0 && k > 0.0 && b == (c - 1.0) / (k * c + 1.0)
    ensures c == 1.0 ==> b == 0.0
    ensures c > 1.0 ==> b > 0.0
  {
    ProductPositive(k, c);
    if c > 1.0 {
      QuotientPositive(c - 1.0, k * c + 1.0);
    }
  }

  /** mu2 - mu1^2 with mu_n = k B((c k - n)/c, (c + n)/c): a real whenever
      c k > 2, where both beta functions have positive arguments. */
  function Variance(d: Burr, k: Kernels): (r: XReal)
    requires Valid(d)
    ensures BetaPositive(k) && CK(d) > 2.0 ==> r.Finite?
  {
    var mu1 := Mean(d, k);
    var b2 := k.beta(Finite((d.c * d.k - 2.0) / d.c), Finite((d.c + 2.0) / d.c));
    var mu2 := Mul(Finite(d.k), b2);
    assert BetaPositive(k) && CK(d) > 2.0 ==> mu2.Finite? by {
      if BetaPositive(k) && CK(d) > 2.0 {
        QuotientPositive(d.c * d.k - 2.0, d.c);
        QuotientPositive(d.c + 2.0, d.c);
      }
    }
    Sub(mu2, Mul(mu1, mu1))
  }

  /** For c k > n, the shape k exceeds n/c. */
  lemma ShapeAboveReciprocal(c: real, k: real, n: real)
    requires c > 0.0 && c * k > n
    ensures k - n / c > 0.0
  {
    assert (c * k - n) / c > 0.0 by { QuotientPositive(c * k - n, c); }
    assert (c * k - n) / c == k - n / c;
  }

  // ---------------------------------------------------------------------
  // Density

  /** The source's density is NaN at 0, where it divides 0 by 0. */
  lemma PDFAsWrittenNaNAtZero(d: Burr, k: Kernels)
    requires Valid(d) && PowLaws(k)
    ensures PDFAsWritten(d, Zero, k).NaN?
  {
    assert k.pow(Zero, Finite(d.c)) == Zero;
    assert Mul(Finite(CK(d)), Zero) == Zero;
    assert Add(Zero, One) == One;
    var q := k.pow(One, Finite(d.k + 1.0));
    assert q.Finite?;
    assert Mul(Zero, q) == Finite(0.0 * q.v);
  }

  /** The source's density is NaN at +inf, where it divides +inf by +inf. */
  lemma PDFAsWrittenNaNAtInfinity(d: Burr, k: Kernels)
    requires Valid(d) && PowLaws(k)
    ensures PDFAsWritten(d, PosInf, k).NaN?
  {
    assert k.pow(PosInf, Finite(d.c)) == PosInf;
    ProductPositive(d.c, d.k);
    assert Mul(Finite(CK(d)), PosInf) == PosInf;
    assert Add(PosInf, One) == PosInf;
    assert k.pow(PosInf, Finite(d.k + 1.0)) == PosInf;
  }

  /** The density is a non-negative value (a real or, at 0 for c < 1, +inf)
      at every argument that is not NaN. */
  lemma PDFNonNegative(d: Burr, x: XReal, k: Kernels)
    requires Valid(d) && !x.NaN? && PowLaws(k)
    ensures !PDF(d, x, k).NaN? && !IsNegative(PDF(d, x, k))
    ensures x.Finite? && x.v > 0.0 ==> PDF(d, x, k).Finite? && PDF(d, x, k).v > 0.0
  {
    if x.Finite? && x.v > 0.0 {
      var xc := k.pow(x, Finite(d.c));
      assert xc.Finite? && xc.v > 0.0;
      ProductPositive(d.c, d.k);
      var n := CK(d) * xc.v;
      ProductPositive(CK(d), xc.v);
      var q := k.pow(Finite(xc.v + 1.0), Finite(d.k + 1.0));
      assert Add(xc, One) == Finite(xc.v + 1.0);
      assert q.Finite? && q.v > 0.0;
      ProductPositive(x.v, q.v);
      assert Mul(x, q) == Finite(x.v * q.v);
      QuotientPositive(n, x.v * q.v);
    }
  }

  /** Where both are defined the corrected density agrees with the source. */
  lemma PDFAgreesInside(d: Burr, x: XReal, k: Kernels)
    requires Valid(d) && x != Zero && x != PosInf
    ensures PDF(d, x, k) == PDFAsWritten(d, x, k)
  {
  }

  // ---------------------------------------------------------------------
  // Cumulative distribution

  /** Between 0 and +inf, where x^c is a positive real, the common term
      (1 + x^c)^(-k) lies in (0, 1]. */
  lemma TailTermRange(d: Burr, x: XReal, k: Kernels)
    requires Valid(d) && x.Finite? && x.v > 0.0 && PowLaws(k)
    ensures k.pow(x, Finite(d.c)).Finite? && k.pow(x, Finite(d.c)).v > 0.0
    ensures var t := k.pow(Add(One, k.pow(x, Finite(d.c))), Finite(-d.k));
            t.Finite? && 0.0 < t.v <= 1.0
  {
    var xc := k.pow(x, Finite(d.c));
    assert Add(One, xc) == Finite(1.0 + xc.v);
    var t := k.pow(Finite(1.0 + xc.v), Finite(-d.k));
    assert t.Finite? && 0.0 < t.v <= 1.0;
  }

  /** The two tails sum to exactly 1 at every non-NaN argument. */
  lemma CDFComplement(d: Burr, x: XReal, k: Kernels)
    requires Valid(d) && !x.NaN? && PowLaws(k)
    ensures Add(CDF(d, x, Lower, k), CDF(d, x, Upper, k)) == One
  {
    if x.Finite? && x.v > 0.0 {
      TailTermRange(d, x, k);
      var t := k.pow(Add(One, k.pow(x, Finite(d.c))), Finite(-d.k));
      assert Sub(One, t) == Finite(1.0 - t.v);
      assert Max(Zero, Finite(1.0 - t.v)) == Finite(1.0 - t.v);
      assert Min(One, t) == t;
    }
  }

  // ---------------------------------------------------------------------
  // Quantile

  /** The Upper quantile at p is the Lower quantile at 1 - p, for every p
      in [0, 1]. */
  lemma QuantileTailSymmetry(d: Burr, p: XReal, k: Kernels)
    requires Valid(d) && InRangeUnit(p)
    ensures Quantile(d, p, Upper, k) == Quantile(d, Sub(One, p), Lower, k)
  {
    var q := Sub(One, p);
    assert q == Finite(1.0 - p.v);
    assert Sub(One, q) == Finite(1.0 - (1.0 - p.v));
    assert 1.0 - (1.0 - p.v) == p.v;
  }

  /** For q in (0, 1), Invert(q) is a positive real whose Upper tail term is
      q: (1 + Invert(q)^c)^(-k) = q. */
  lemma InvertRoundTrip(d: Burr, q: real, k: Kernels)
    requires Valid(d) && 0.0 < q < 1.0 && PowLaws(k) && PowRootLaw(k) && PowReciprocalLaw(k)
    ensures Invert(d, Finite(q), k).Finite? && Invert(d, Finite(q), k).v > 0.0
    ensures k.pow(Add(One, k.pow(Invert(d, Finite(q), k), Finite(d.c))), Finite(-d.k)) == Finite(q)
  {
    var iq := 1.0 / q;
    assert iq > 1.0 by { assert iq * q == 1.0; }
    assert Div(One, Finite(q)) == Finite(iq);
    var y := k.pow(Finite(iq), Finite(1.0 / d.k));
    assert y.Finite? && y.v > 1.0;
    var z := y.v - 1.0;
    assert Sub(y, One) == Finite(z);
    var x := k.pow(Finite(z), Finite(1.0 / d.c));
    assert x.Finite? && x.v > 0.0;
    assert Invert(d, Finite(q), k) == x;
    assert k.pow(x, Finite(d.c)) == Finite(z);
    assert Add(One, Finite(z)) == y;
    assert k.pow(y, Finite(d.k)) == Finite(iq);
    NegatedPower(y.v, d.k, q, iq, k);
  }

  /** If y^a = 1/q then y^(-a) = q. */
  lemma NegatedPower(y: real, a: real, q: real, iq: real, k: Kernels)
    requires PowLaws(k) && PowReciprocalLaw(k) && y > 0.0 && q > 0.0 && iq * q == 1.0
    requires k.pow(Finite(y), Finite(a)) == Finite(iq)
    ensures k.pow(Finite(y), Finite(-a)) == Finite(q)
  {
    var t := k.pow(Finite(y), Finite(-a));
    assert Mul(k.pow(Finite(y), Finite(a)), t) == One;
    assert t.Finite?;
    SameReciprocal(iq, q, t.v);
  }

  /** Two reals with the same reciprocal are equal. */
  lemma SameReciprocal(iq: real, q: real, t: real)
    requires iq * q == 1.0 && iq * t == 1.0
    ensures t == q
  {
    assert t == t * (iq * q);
    assert t * (iq * q) == (iq * t) * q;
  }

  /** The Upper quantile inverts the Upper tail on (0, 1). */
  lemma QuantileRoundTripUpper(d: Burr, p: XReal, k: Kernels)
    requires Valid(d) && InOpenUnit(p) && PowLaws(k) && PowRootLaw(k) && PowReciprocalLaw(k)
    ensures CDF(d, Quantile(d, p, Upper, k), Upper, k) == p
  {
    InvertRoundTrip(d, p.v, k);
    var x := Invert(d, p, k);
    assert Quantile(d, p, Upper, k) == x;
    assert k.pow(x, Finite(d.c)).Finite?;
    assert Min(One, p) == p;
  }

  /** The Lower quantile inverts the Lower tail on (0, 1). */
  lemma QuantileRoundTripLower(d: Burr, p: XReal, k: Kernels)
    requires Valid(d) && InOpenUnit(p) && PowLaws(k) && PowRootLaw(k) && PowReciprocalLaw(k)
    ensures CDF(d, Quantile(d, p, Lower, k), Lower, k) == p
  {
    var q := 1.0 - p.v;
    assert Sub(One, p) == Finite(q);
    InvertRoundTrip(d, q, k);
    var x := Invert(d, Finite(q), k);
    assert Quantile(d, p, Lower, k) == x;
    assert k.pow(x, Finite(d.c)).Finite?;
    assert Sub(One, Finite(q)) == p;
    assert Max(Zero, p) == p;
  }
}
