/** The second implementation of Fisher's z distribution. Its parameters,
    normaliser, quantile, median, mode and memoised moments are the same
    code as the first one and are reused from module FisherZ; it differs in
    a density that maps NaN to NaN and every other non-finite value to 0,
    and in tails guarded on u + m = +inf instead of x = +inf. */
module FisherZStatistic {
  import opened ExtReal
  import opened Numerics
  import FZ = FisherZ

  /** NaN at NaN; otherwise 2 to the power of the same base-2 log as the
      first implementation, replaced by 0 when it is not finite. */
  function PDF(d: FZ.FisherZ, x: XReal, k: Kernels): (r: XReal)
    requires FZ.Valid(d)
    ensures r.NaN? <==> x.NaN?
    ensures !x.NaN? ==> r.Finite?
    ensures !x.NaN? && FZ.PDF(d, x, k).Finite? ==> r == FZ.PDF(d, x, k)
  {
    if x.NaN? then NaN
    else
      var pdf := k.pow2(FZ.PdfExponent(d, x, k));
      if pdf.Finite? then pdf else Zero
  }

  /** u + m with u = n e^(2x). */
  function Upm(d: FZ.FisherZ, x: XReal, k: Kernels): XReal
  {
    Add(FZ.Scaled(d, x, k), Finite(d.m))
  }

  /** The tails: exact at x = -inf and where u + m = +inf, otherwise
      I(u/(u + m); n/2, m/2) (Lower) and I(m/(u + m); m/2, n/2) (Upper). */
  function CDF(d: FZ.FisherZ, x: XReal, interval: Interval, k: Kernels): (r: XReal)
    requires FZ.Valid(d)
    ensures x == NegInf ==> r == (if interval.Lower? then Zero else One)
    ensures x != NegInf && Upm(d, x, k) == PosInf ==> r == (if interval.Lower? then One else Zero)
  {
    var u := FZ.Scaled(d, x, k);
    var upm := Upm(d, x, k);
    if interval.Lower? then
      if x == NegInf then Zero
      else if upm == PosInf then One
      else k.incBeta(Div(u, upm), Finite(d.n * 0.5), Finite(d.m * 0.5))
    else
      if x == NegInf then One
      else if upm == PosInf then Zero
      else k.incBeta(Div(Finite(d.m), upm), Finite(d.m * 0.5), Finite(d.n * 0.5))
  }

  /** Over exact reals u + m is +inf exactly at x = +inf, so the two guards
      coincide and both implementations have the same tails everywhere. */
  lemma CDFAgrees(d: FZ.FisherZ, x: XReal, interval: Interval, k: Kernels)
    requires FZ.Valid(d) && ExpLaws(k)
    ensures CDF(d, x, interval, k) == FZ.CDF(d, x, interval, k)
  {
    if x.Finite? {
      var u := FZ.ScaledFinite(d, x.v, k);
      assert Upm(d, x, k) == Finite(u + d.m);
    } else if x == PosInf {
      assert Mul(Finite(2.0), PosInf) == PosInf;
      assert FZ.Scaled(d, x, k) == PosInf;
    } else if x.NaN? {
      assert FZ.Scaled(d, x, k) == NaN;
    }
  }

  /** The two tails are NaN exactly at NaN and otherwise finite and sum
      to 1. */
  lemma CDFComplement(d: FZ.FisherZ, x: XReal, k: Kernels)
    requires FZ.Valid(d) && ExpLaws(k) && IncBetaReflection(k) && IncBetaNaN(k)
    ensures x.NaN? ==> CDF(d, x, Lower, k).NaN? && CDF(d, x, Upper, k).NaN?
    ensures !x.NaN? ==>
      && CDF(d, x, Lower, k).Finite? && CDF(d, x, Upper, k).Finite?
      && CDF(d, x, Lower, k).v + CDF(d, x, Upper, k).v == 1.0
  {
    CDFAgrees(d, x, Lower, k);
    CDFAgrees(d, x, Upper, k);
    FZ.CDFComplement(d, x, k);
  }

  /** For p in (0, 1) each tail at the shared quantile of that tail is p. */
  lemma QuantileRoundTrip(d: FZ.FisherZ, p: real, interval: Interval, k: Kernels)
    requires FZ.Valid(d) && 0.0 < p < 1.0
    requires ExpLaws(k) && LogLaws(k) && IncBetaInverseLaw(k)
    ensures CDF(d, FZ.Quantile(d, Finite(p), interval, k), interval, k) == Finite(p)
  {
    CDFAgrees(d, FZ.Quantile(d, Finite(p), interval, k), interval, k);
    if interval.Lower? {
      FZ.QuantileRoundTripLower(d, p, k);
    } else {
      FZ.QuantileRoundTripUpper(d, p, k);
    }
  }

  /** At +inf the first implementation's density is NaN; this one's is 0. */
  lemma PDFAtInfinity(d: FZ.FisherZ, k: Kernels)
    requires FZ.Valid(d) && ExpLaws(k) && BinaryEnds(k)
    ensures FZ.PDF(d, PosInf, k) == NaN
    ensures PDF(d, PosInf, k) == Zero
  {
    FZ.PDFNaNAtInfinity(d, k);
  }

  /** Away from NaN the density is a non-negative real: 2 to a real power
      is positive, 2^-inf is 0, and anything else becomes 0. */
  lemma PDFNonNegative(d: FZ.FisherZ, x: XReal, k: Kernels)
    requires FZ.Valid(d) && Pow2Law(k) && PowLaws(k) && BinaryEnds(k) && !x.NaN?
    ensures PDF(d, x, k).Finite? && PDF(d, x, k).v >= 0.0
  {
    var e := FZ.PdfExponent(d, x, k);
    if e.Finite? {
      assert k.pow2(e) == k.pow(Finite(2.0), e);
    }
  }
}
