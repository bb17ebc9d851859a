# DoubleDoubleDistribution, modelled in Dafny

DoubleDoubleDistribution is a C# library of continuous probability
distributions evaluated in double-double (`ddouble`) precision. This
project models its decision logic and algebra over exact reals:

- the Horner evaluators `ApproxUtil.Poly` and `ApproxUtil.Pade`;
- ten distributions: Cauchy, Weibull, Cosine, Gumbel, Burr, BetaPrime,
  Power, Rayleigh, InverseChiSquare and Nakagami;
- the two implementations of Fisher's z distribution, together with the
  write-once memoisation of their integrated moments.

For each distribution the model covers these parts:

- the constructor's parameter checks, as a `Result`;
- the piecewise structure of `PDF`, `CDF` (Lower and Upper tail) and
  `Quantile`, including every NaN, infinity and support-edge branch;
- the closed-form moments (Mean, Median, Mode, Variance, and for most
  distributions Skewness, Kurtosis and Entropy; the "## Left out" section
  lists the ones not modelled);
- the shift, scale, sum and difference operators that return new
  distributions.

Values are the extended reals of module `ExtReal`. An `XReal` is
`Finite(v)`, `PosInf`, `NegInf` or `NaN`. Arithmetic on `XReal` follows
IEEE 754 without rounding or signed zero, and every comparison involving
NaN is false.

The library's numeric kernels are fields of a `Numerics.Kernels` record
that every operation takes as a parameter. These kernels are exp, expm1,
log, log1p, log2, pow, pow2, sqrt, atan, tan(pi x), sin(pi x),
cos(pi x), Kepler's equation solver, Gamma, log Gamma, digamma, Beta,
log Beta, the incomplete beta and gamma functions and their inverses,
and hypot. The record also holds the constants pi, Euler's gamma,
zeta(3) and lb e. Nothing is
assumed about them in general. Each lemma that needs an algebraic fact
(for example expm1(y) = exp(y) - 1, or atan is odd) requires it as a
ghost predicate over the record. The `Numerics` module names those
predicates.

The lemmas prove the following:

- the two tails are exact complements;
- the quantile inverts the CDF;
- reflection and symmetry identities;
- the operator algebra;
- the closed-form moments;
- the boundary values.

Module `MomentCache` models the `??=` caches as a value that is threaded
through the reads.

## Model

| member | source | states |
|---|---|---|
| ApproxUtil.Poly | DoubleDoubleDistribution/Utils/ApproxUtil.cs:27-35 | Horner's loop, started from the last coefficient, returns the power sum of t[i] x^i over the table; a one-entry table gives t[0] for every x |
| ApproxUtil.Pade | DoubleDoubleDistribution/Utils/ApproxUtil.cs:8-24 | both accumulators advance over the same indices; the result is the power sum of the c column divided by the power sum of the d column; the debug asserts x >= 0 and denominator >= 0.5 are preconditions |
| ApproxUtil.SingleEntryPade | DoubleDoubleDistribution/Utils/ApproxUtil.cs:9-24 | on a one-entry table {(c0, d0)} the rational function is c0/d0 for every x >= 0 |
| ApproxUtil.HornerIsPowerSum | DoubleDoubleDistribution/Utils/ApproxUtil.cs:28-32 | Horner's nesting from index 0 equals the power sum |
| ApproxUtil.HornerSplitsPowerSum | DoubleDoubleDistribution/Utils/ApproxUtil.cs:15-18 | loop invariant: the terms below i plus x^i times the Horner nesting from i are the whole power sum |
| Cauchy.Create | DoubleDoubleDistribution/StableDistribution/CauchyDistribution.cs:20-30 | the constructor succeeds exactly when gamma > 0 and keeps both parameters |
| Cauchy.GammaSq | DoubleDoubleDistribution/StableDistribution/CauchyDistribution.cs:29 | the cached gamma^2 is positive |
| Cauchy.PDF | DoubleDoubleDistribution/StableDistribution/CauchyDistribution.cs:32-36 | the density is NaN exactly at NaN, 0 at both infinities, a positive real elsewhere |
| Cauchy.DensityAt | DoubleDoubleDistribution/StableDistribution/CauchyDistribution.cs:32-36 | at a real x the density is n/s with n = gamma/pi > 0 and s = (x - mu)^2 + gamma^2, and s takes its least value gamma^2 exactly at x = mu |
| Cauchy.ModeMaximisesDensity | DoubleDoubleDistribution/StableDistribution/CauchyDistribution.cs:32-72 | the density at the mode mu is at least the density anywhere else, and strictly larger at every other real x |
| Cauchy.PDFSymmetric | DoubleDoubleDistribution/StableDistribution/CauchyDistribution.cs:32-68 | the density is symmetric about mu, and the distribution reports itself symmetric |
| Cauchy.CDF | DoubleDoubleDistribution/StableDistribution/CauchyDistribution.cs:38-49 | given that atan maps reals into [-pi/2, pi/2], each tail is NaN exactly at NaN and otherwise in [0, 1] |
| Cauchy.StandardCDF | DoubleDoubleDistribution/StableDistribution/CauchyDistribution.cs:40-46 | atan(u)/pi + 1/2 is NaN exactly at NaN and otherwise a real in [0, 1], given that atan maps every non-NaN value into [-pi/2, pi/2] |
| Cauchy.TailArgument | DoubleDoubleDistribution/StableDistribution/CauchyDistribution.cs:40-46 | the tail argument is NaN exactly at NaN, and for the Upper tail it is the negated standardised argument (mu - x)/gamma |
| Cauchy.CDFComplement | DoubleDoubleDistribution/StableDistribution/CauchyDistribution.cs:40-45 | Lower + Upper = 1 for every non-NaN x, given that atan is odd |
| Cauchy.CDFReflection | DoubleDoubleDistribution/StableDistribution/CauchyDistribution.cs:40-45 | Lower at mu + t equals Upper at mu - t |
| Cauchy.CDFAtMedian | DoubleDoubleDistribution/StableDistribution/CauchyDistribution.cs:40-70 | both tails are 1/2 at the median mu |
| Cauchy.StandardPDFAtZero | DoubleDoubleDistribution/StableDistribution/CauchyDistribution.cs:18-33 | the parameterless distribution has PDF(0) = 1/pi |
| Cauchy.StandardCDFAtZero | DoubleDoubleDistribution/StableDistribution/CauchyDistribution.cs:18-45 | the parameterless distribution has CDF(0) = 1/2 in both tails |
| Cauchy.Quantile | DoubleDoubleDistribution/StableDistribution/CauchyDistribution.cs:51-66 | NaN outside [0, 1]; finite on (0, 1) given the atan/tan(pi x) inverse law |
| Cauchy.QuantileReflection | DoubleDoubleDistribution/StableDistribution/CauchyDistribution.cs:57-62 | Upper(p) = 2 mu - Lower(p) |
| Cauchy.QuantileEnds | DoubleDoubleDistribution/StableDistribution/CauchyDistribution.cs:51-66 | Lower(0) = -inf, Lower(1) = +inf, Upper(0) = +inf, Upper(1) = -inf, given the poles of tan(pi x) at -1/2 and 1/2 |
| Cauchy.QuantileRoundTrip | DoubleDoubleDistribution/StableDistribution/CauchyDistribution.cs:40-62 | for p in (0, 1) the CDF of the quantile is p in both tails, given atan(tan(pi t)) = pi t on (-1/2, 1/2) |
| Cauchy.QuantileStandardizes | DoubleDoubleDistribution/StableDistribution/CauchyDistribution.cs:40-62 | the standardised argument of the tail at its quantile is tan(pi (p - 1/2)) |
| Cauchy.Sum | DoubleDoubleDistribution/StableDistribution/CauchyDistribution.cs:82-84 | the sum of two distributions adds the locations and the scales |
| Cauchy.Difference | DoubleDoubleDistribution/StableDistribution/CauchyDistribution.cs:86-88 | the difference subtracts the locations but still adds the scales |
| Cauchy.Plus | DoubleDoubleDistribution/StableDistribution/CauchyDistribution.cs:90-92 | + s moves only mu |
| Cauchy.Minus | DoubleDoubleDistribution/StableDistribution/CauchyDistribution.cs:94-96 | - s moves only mu |
| Cauchy.Times | DoubleDoubleDistribution/StableDistribution/CauchyDistribution.cs:98-100 | * c succeeds exactly when c > 0 and scales mu and gamma |
| Cauchy.SumFollowsStableRule | DoubleDoubleDistribution/StableDistribution/CauchyDistribution.cs:76-84 | stable parameters alpha = 1, beta = 0 for every member; under the sum C adds and the median adds |
| Cauchy.SumCommutes | DoubleDoubleDistribution/StableDistribution/CauchyDistribution.cs:82-84 | the sum is commutative |
| Cauchy.SumAssociates | DoubleDoubleDistribution/StableDistribution/CauchyDistribution.cs:82-84 | the sum is associative |
| Cauchy.DifferenceIsSumOfMirror | DoubleDoubleDistribution/StableDistribution/CauchyDistribution.cs:82-88 | subtracting a distribution is adding its mirror image Cauchy(-mu, gamma) |
| Cauchy.PlusMinusRoundTrip | DoubleDoubleDistribution/StableDistribution/CauchyDistribution.cs:90-96 | shifting then shifting back restores the distribution; shifts compose |
| Cauchy.PlusCommutesWithSum | DoubleDoubleDistribution/StableDistribution/CauchyDistribution.cs:82-92 | shifting one operand shifts the sum |
| Cauchy.TimesDistributesOverSum | DoubleDoubleDistribution/StableDistribution/CauchyDistribution.cs:82-100 | scaling distributes over the sum; scalings compose |
| Cauchy.EntropyShiftInvariant | DoubleDoubleDistribution/StableDistribution/CauchyDistribution.cs:74-92 | the entropy log(4 pi gamma) does not depend on the location |
| Cauchy.CDFShiftInvariant | DoubleDoubleDistribution/StableDistribution/CauchyDistribution.cs:90-92 | shifting the distribution and the argument together leaves both tails unchanged |
| Cauchy.CDFScaleInvariant | DoubleDoubleDistribution/StableDistribution/CauchyDistribution.cs:98-100 | scaling the distribution and the argument by c > 0 leaves both tails unchanged |
| Cauchy.TailArgumentShift | DoubleDoubleDistribution/StableDistribution/CauchyDistribution.cs:90-92 | shifting both x and the distribution by s leaves the tail argument unchanged |
| Cauchy.TailArgumentScale | DoubleDoubleDistribution/StableDistribution/CauchyDistribution.cs:98-100 | scaling both x and the distribution by c > 0 leaves the tail argument unchanged |
| Weibull.Create | DoubleDoubleStatistic/LinearityDistribution/WeibullDistribution.cs:17-30 | succeeds exactly when alpha > 0 and theta > 0 |
| Weibull.PDF | DoubleDoubleStatistic/LinearityDistribution/WeibullDistribution.cs:32-49 | the density with the limit 0 at +inf added; otherwise as the source computes it: 0 below mu, NaN at NaN, and at x = mu +inf for alpha < 1, 1/theta for alpha = 1, 0 for alpha > 1 |
| Weibull.PDFAsWritten | DoubleDoubleStatistic/LinearityDistribution/WeibullDistribution.cs:32-49 | the density as written: 0 below mu, NaN at NaN, and at x = mu the value that depends on alpha |
| Weibull.PDFAsWrittenNaNAtInfinity | DoubleDoubleStatistic/LinearityDistribution/WeibullDistribution.cs:44-46 | as written the density at +inf is NaN (the exponent -2^v lb e + v is -inf + inf), and the corrected density is 0 there, given that log2 and pow2 keep +inf and pow2 keeps NaN |
| Weibull.PDFPositive | DoubleDoubleStatistic/LinearityDistribution/WeibullDistribution.cs:43-48 | beyond the location mu the density is a positive real, given that log2 is finite on the positive reals and pow2(a) = 2^a |
| Weibull.CDF | DoubleDoubleStatistic/LinearityDistribution/WeibullDistribution.cs:51-72 | at and below mu the Lower tail is 0 and the Upper tail is 1 |
| Weibull.CDFComplement | DoubleDoubleStatistic/LinearityDistribution/WeibullDistribution.cs:59-68 | -expm1(-u^alpha) + exp(-u^alpha) = 1 for every non-NaN x, given expm1(y) = exp(y) - 1 |
| Weibull.TailsAtStandardPoint | DoubleDoubleStatistic/LinearityDistribution/WeibullDistribution.cs:51-72 | at x = mu + w theta with w > 0 the Lower tail is -expm1(-w^alpha) and the Upper tail exp(-w^alpha) |
| Weibull.ExponentialSpecialCase | DoubleDoubleStatistic/LinearityDistribution/WeibullDistribution.cs:51-61 | with alpha = 1, mu = 0, theta = 1 the Lower tail is 1 - e^(-x) on x >= 0 |
| Weibull.QuantileAsWritten | DoubleDoubleStatistic/LinearityDistribution/WeibullDistribution.cs:74-103 | NaN outside [0, 1], Lower(1) = +inf, Upper(0) = +inf, and an Upper result is never negative |
| Weibull.UpperQuantileAsWrittenMissesLocation | DoubleDoubleStatistic/LinearityDistribution/WeibullDistribution.cs:94-99 | for mu < 0 the Upper quantile at p = 1 is 0 instead of mu, and the Upper tail there is not 1 |
| Weibull.Quantile | DoubleDoubleStatistic/LinearityDistribution/WeibullDistribution.cs:74-103 | the same branches, with the Upper clamp at mu: an Upper result is never below mu |
| Weibull.QuantileAgreesWhenLocationNonNegative | DoubleDoubleStatistic/LinearityDistribution/WeibullDistribution.cs:94-101 | for mu >= 0 the clamp never fires, so the corrected quantile equals the one as written |
| Weibull.UpperQuantileAtOne | DoubleDoubleStatistic/LinearityDistribution/WeibullDistribution.cs:94-101 | the corrected Upper quantile at 1 is mu, where the Upper tail is exactly 1 |
| Weibull.UpperQuantileAtLeastLocation | DoubleDoubleStatistic/LinearityDistribution/WeibullDistribution.cs:88-101 | for p in (0, 1] the Upper quantile before clamping, mu + theta (-log p)^(1/alpha), is a real at least mu |
| Weibull.UpperQuantileInterior | DoubleDoubleStatistic/LinearityDistribution/WeibullDistribution.cs:88-101 | for p in (0, 1) the Upper quantile before clamping lies strictly above mu |
| Weibull.StandardQuantileAtOne | DoubleDoubleStatistic/LinearityDistribution/WeibullDistribution.cs:94 | the standardised Upper quantile (-log 1)^(1/alpha) is 0, given log 1 = 0 and 0^a = 0 for a > 0 |
| Weibull.UnclampedAtOne | DoubleDoubleStatistic/LinearityDistribution/WeibullDistribution.cs:94-95 | at p = 1 the Upper quantile before clamping is mu itself |
| Weibull.QuantileRoundTripLower | DoubleDoubleStatistic/LinearityDistribution/WeibullDistribution.cs:59-87 | for p in (0, 1) the Lower tail at the Lower quantile is p |
| Weibull.QuantileRoundTripUpper | DoubleDoubleStatistic/LinearityDistribution/WeibullDistribution.cs:68-101 | for p in (0, 1) the Upper tail at the Upper quantile is p |
| Weibull.Mode | DoubleDoubleStatistic/LinearityDistribution/WeibullDistribution.cs:113-115 | mu for alpha <= 1; otherwise a real at or above mu |
| Weibull.Mean | DoubleDoubleStatistic/LinearityDistribution/WeibullDistribution.cs:107-108 | mu + theta Gamma(1 + 1/alpha) is a real above the location whenever Gamma is positive, and mu + theta in the exponential case alpha = 1 |
| Weibull.MeanIsLocationPlus | DoubleDoubleStatistic/LinearityDistribution/WeibullDistribution.cs:107-108 | whenever theta Gamma(1 + 1/alpha) is a real t, the mean is mu + t |
| Weibull.Median | DoubleDoubleStatistic/LinearityDistribution/WeibullDistribution.cs:110-111 | both tails are exactly 1/2 at mu + theta (log 2)^(1/alpha), given log(1/2) = -log 2 |
| Weibull.MedianRoot | DoubleDoubleStatistic/LinearityDistribution/WeibullDistribution.cs:110-111 | w = (log 2)^(1/alpha) satisfies w^alpha = log 2, so both tails at mu + theta w are 1/2 |
| Weibull.Variance | DoubleDoubleStatistic/LinearityDistribution/WeibullDistribution.cs:117-118 | theta^2 (Gamma(1 + 2/alpha) - Gamma(1 + 1/alpha)^2) is theta^2 in the exponential case alpha = 1 |
| Weibull.Entropy | DoubleDoubleStatistic/LinearityDistribution/WeibullDistribution.cs:140 | 1 + gamma (1 - 1/alpha) + log(theta/alpha) is a real, and 1 for the standard exponential alpha = theta = 1, given that log is finite on the positive reals and log 1 = 0 |
| Weibull.InvAlpha | DoubleDoubleStatistic/LinearityDistribution/WeibullDistribution.cs:84-94 | the root exponent 1/alpha of both quantiles is positive and inverts alpha |
| Weibull.Plus | DoubleDoubleStatistic/LinearityDistribution/WeibullDistribution.cs:142-144 | + s moves only mu |
| Weibull.Minus | DoubleDoubleStatistic/LinearityDistribution/WeibullDistribution.cs:146-148 | - s moves only mu |
| Weibull.Times | DoubleDoubleStatistic/LinearityDistribution/WeibullDistribution.cs:150-152 | * c succeeds exactly when c > 0, scales mu and theta and keeps alpha |
| Weibull.PlusMinusRoundTrip | DoubleDoubleStatistic/LinearityDistribution/WeibullDistribution.cs:142-148 | shifting then unshifting restores the distribution |
| Weibull.CDFShiftInvariant | DoubleDoubleStatistic/LinearityDistribution/WeibullDistribution.cs:142-144 | shifting the distribution and the argument together leaves both tails unchanged |
| Weibull.CDFScaleInvariant | DoubleDoubleStatistic/LinearityDistribution/WeibullDistribution.cs:150-152 | scaling the distribution and the argument by c > 0 leaves both tails unchanged |
| Weibull.MomentsUnderShift | DoubleDoubleStatistic/LinearityDistribution/WeibullDistribution.cs:107-144 | the mean moves with the location and the variance does not |
| Cosine.Create | DoubleDoubleStatistic/LinearityDistribution/ConineDistribution.cs:21-29 | succeeds exactly when sigma > 0 and keeps both parameters |
| Cosine.PDF | DoubleDoubleStatistic/LinearityDistribution/ConineDistribution.cs:31-41 | 0 at and outside the support ends mu - sigma and mu + sigma |
| Cosine.PDFNonNegative | DoubleDoubleStatistic/LinearityDistribution/ConineDistribution.cs:31-41 | at every real x the density is a non-negative real, given cos(pi u) >= -1 |
| Cosine.PDFSymmetric | DoubleDoubleStatistic/LinearityDistribution/ConineDistribution.cs:31-41 | the density is even about mu, given that cos(pi u) is even |
| Cosine.CDF | DoubleDoubleStatistic/LinearityDistribution/ConineDistribution.cs:43-70 | Lower is 0 at and below mu - sigma and 1 at and above mu + sigma; Upper is the mirror image |
| Cosine.CDFComplement | DoubleDoubleStatistic/LinearityDistribution/ConineDistribution.cs:54-66 | the two tails sum to exactly 1 for every non-NaN x, given sin(pi u) (1/pi) = sin(pi u)/pi and that sin(pi u) is odd |
| Cosine.CDFReflection | DoubleDoubleStatistic/LinearityDistribution/ConineDistribution.cs:54-66 | Lower at mu + t equals Upper at mu - t |
| Cosine.StandardTailsMirror | DoubleDoubleStatistic/LinearityDistribution/ConineDistribution.cs:54-66 | the Lower formula (1 + u + sin(pi u)/pi)/2 at u equals the Upper formula (1 - w - sin(pi w)/pi)/2 at w = -u, given that sin(pi x) is odd |
| Cosine.UpperTailAtMirror | DoubleDoubleStatistic/LinearityDistribution/ConineDistribution.cs:62-66 | where x standardises to -u with u in (-1, 1), the Upper tail equals the standardised Lower formula at u |
| Cosine.CDFShiftInvariant | DoubleDoubleStatistic/LinearityDistribution/ConineDistribution.cs:113-115 | shifting the distribution and the argument together leaves both tails unchanged |
| Cosine.CDFScaleInvariant | DoubleDoubleStatistic/LinearityDistribution/ConineDistribution.cs:121-123 | scaling the distribution and the argument by c > 0 leaves both tails unchanged |
| Cosine.Quantile | DoubleDoubleStatistic/LinearityDistribution/ConineDistribution.cs:72-92 | NaN outside [0, 1]; for p < 1e-28 Lower gives mu - sigma and Upper mu + sigma; for 1 - p < 1e-28 the two are swapped; for p within 1e-28 of 1/2 both give mu |
| Cosine.ThresholdQuantile | DoubleDoubleStatistic/LinearityDistribution/ConineDistribution.cs:77-85 | outside the Kepler region: p within 1e-28 of 0 gives the near end of the support (mu - sigma for Lower, mu + sigma for Upper), p within 1e-28 of 1 the far end, and p within 1e-28 of 1/2 the location mu |
| Cosine.QuantileReflection | DoubleDoubleStatistic/LinearityDistribution/ConineDistribution.cs:72-92 | for every p in [0, 1], Lower(p) + Upper(p) = 2 mu |
| Cosine.QuantileWithinSupport | DoubleDoubleStatistic/LinearityDistribution/ConineDistribution.cs:72-94 | every quantile of p in [0, 1] lies in the support [mu - sigma, mu + sigma] |
| Cosine.KeplerWithinSupport | DoubleDoubleStatistic/LinearityDistribution/ConineDistribution.cs:87-94 | where the quantile solves Kepler's equation it lies strictly inside the support |
| Cosine.KeplerOffsetRange | DoubleDoubleStatistic/LinearityDistribution/ConineDistribution.cs:87 | for p in (0, 1) the offset E/pi - 1 lies in (-1, 1) and solves sin(pi u) = 2 pi p - pi (u + 1), given the Kepler solver's defining equation |
| Cosine.KeplerOffsetBounds | DoubleDoubleStatistic/LinearityDistribution/ConineDistribution.cs:87 | for p in the Kepler branch the standardised quantile E/pi - 1 is a real in (-1, 1), given the Kepler solver's defining equation |
| Cosine.OffsetWithinSupport | DoubleDoubleStatistic/LinearityDistribution/ConineDistribution.cs:87-94 | mu + sigma u and mu - sigma u lie strictly inside the support (mu - sigma, mu + sigma) for u in (-1, 1) |
| Cosine.KeplerQuantile | DoubleDoubleStatistic/LinearityDistribution/ConineDistribution.cs:86-91 | in the Kepler branch the quantile is mu + sigma u for the Lower tail and mu - sigma u for the Upper tail |
| Cosine.UpperQuantileStandardizes | DoubleDoubleStatistic/LinearityDistribution/ConineDistribution.cs:86-91 | in the Kepler branch the Upper quantile standardises to -u, the mirror of the Lower one |
| Cosine.StandardTailAtKepler | DoubleDoubleStatistic/LinearityDistribution/ConineDistribution.cs:54-89 | at the Kepler offset u of p the standardised Lower formula is exactly p, given sin(pi u) = 2 pi p - pi (u + 1) |
| Cosine.QuantileRoundTripLower | DoubleDoubleStatistic/LinearityDistribution/ConineDistribution.cs:54-89 | where the quantile solves Kepler's equation, the Lower tail at the Lower quantile is p |
| Cosine.QuantileRoundTripUpper | DoubleDoubleStatistic/LinearityDistribution/ConineDistribution.cs:66-89 | where the quantile solves Kepler's equation, the Upper tail at the Upper quantile is p |
| Cosine.Variance | DoubleDoubleStatistic/LinearityDistribution/ConineDistribution.cs:104-105 | the variance sigma^2 (1 - 6/pi^2)/3 is positive and below sigma^2/3, the variance of the uniform law on the same support |
| Cosine.Kurtosis | DoubleDoubleStatistic/LinearityDistribution/ConineDistribution.cs:108-109 | given 3.14 < pi < 3.15, the excess kurtosis 6 (90 - pi^4)/(5 (pi^2 - 6)^2) is negative and above -2, the bound every excess kurtosis keeps |
| Cosine.MedianSplitsMass | DoubleDoubleStatistic/LinearityDistribution/ConineDistribution.cs:54-100 | both tails are exactly 1/2 at the median mu, given that sin(pi x) is odd |
| Cosine.MomentsUnderScale | DoubleDoubleStatistic/LinearityDistribution/ConineDistribution.cs:98-123 | scaling by c multiplies the variance by c^2 and the mean by c |
| Cosine.MomentsUnderShift | DoubleDoubleStatistic/LinearityDistribution/ConineDistribution.cs:98-115 | shifting moves the mean, median and mode, and keeps the variance and the entropy |
| Cosine.Plus | DoubleDoubleStatistic/LinearityDistribution/ConineDistribution.cs:113-115 | + s moves only mu |
| Cosine.Minus | DoubleDoubleStatistic/LinearityDistribution/ConineDistribution.cs:117-119 | - s moves only mu |
| Cosine.Times | DoubleDoubleStatistic/LinearityDistribution/ConineDistribution.cs:121-123 | * c succeeds exactly when c > 0 and scales mu and sigma |
| Cosine.Divide | DoubleDoubleStatistic/LinearityDistribution/ConineDistribution.cs:125-127 | / c succeeds exactly when c > 0 and divides mu and sigma; c = 0 fails on the location mu/0 first, c < 0 on the scale |
| Cosine.TimesDivideRoundTrip | DoubleDoubleStatistic/LinearityDistribution/ConineDistribution.cs:121-127 | multiplying and then dividing by the same c > 0 restores the distribution |
| Cosine.PlusMinusRoundTrip | DoubleDoubleStatistic/LinearityDistribution/ConineDistribution.cs:113-119 | shifting then shifting back restores the distribution |
| Gumbel.Create | DoubleDoubleStatistic/ContinuousDistributions/LinearityDistribution/GumbelDistribution.cs:24-31 | succeeds exactly when sigma > 0 and keeps both parameters |
| Gumbel.PDF | DoubleDoubleStatistic/ContinuousDistributions/LinearityDistribution/GumbelDistribution.cs:33-46 | NaN at NaN and 0 at both infinities |
| Gumbel.PDFPositive | DoubleDoubleStatistic/ContinuousDistributions/LinearityDistribution/GumbelDistribution.cs:43 | at every real x the density is a positive real, given that exp is positive |
| Gumbel.CDF | DoubleDoubleStatistic/ContinuousDistributions/LinearityDistribution/GumbelDistribution.cs:48-53 | NaN at NaN in both tails |
| Gumbel.CDFComplement | DoubleDoubleStatistic/ContinuousDistributions/LinearityDistribution/GumbelDistribution.cs:56-61 | exp(-e^u) + (-expm1(-e^u)) = 1 for every non-NaN x, the infinities included, given expm1(y) = exp(y) - 1 |
| Gumbel.CDFLimits | DoubleDoubleStatistic/ContinuousDistributions/LinearityDistribution/GumbelDistribution.cs:49-56 | the Lower tail is 0 at -inf and 1 at +inf |
| Gumbel.CDFShiftInvariant | DoubleDoubleStatistic/ContinuousDistributions/LinearityDistribution/GumbelDistribution.cs:114-116 | shifting the distribution and the argument together leaves both tails unchanged |
| Gumbel.CDFScaleInvariant | DoubleDoubleStatistic/ContinuousDistributions/LinearityDistribution/GumbelDistribution.cs:122-124 | scaling the distribution and the argument by c > 0 leaves both tails unchanged |
| Gumbel.Quantile | DoubleDoubleStatistic/ContinuousDistributions/LinearityDistribution/GumbelDistribution.cs:67-86 | NaN outside [0, 1]; the Lower tail maps a NaN result to +inf, so it is never NaN on [0, 1] |
| Gumbel.QuantileRoundTripLower | DoubleDoubleStatistic/ContinuousDistributions/LinearityDistribution/GumbelDistribution.cs:56-78 | for p in (0, 1) the Lower tail at the Lower quantile is p, given that exp and log are inverse |
| Gumbel.QuantileRoundTripUpper | DoubleDoubleStatistic/ContinuousDistributions/LinearityDistribution/GumbelDistribution.cs:61-84 | for p in (0, 1) the Upper tail at the Upper quantile is p, given also log1p(y) = log(1 + y) |
| Gumbel.QuantileEnds | DoubleDoubleStatistic/ContinuousDistributions/LinearityDistribution/GumbelDistribution.cs:67-86 | Lower(0) = -inf, Lower(1) = +inf, Upper(0) = +inf, Upper(1) = -inf |
| Gumbel.Variance | DoubleDoubleStatistic/ContinuousDistributions/LinearityDistribution/GumbelDistribution.cs:104-105 | the variance (pi sigma)^2/6 is positive |
| Gumbel.Skewness | DoubleDoubleStatistic/ContinuousDistributions/LinearityDistribution/GumbelDistribution.cs:107-108 | 12 sqrt(6) zeta(3)/pi^3 is a positive real, given that sqrt is exact on 6 |
| Gumbel.Entropy | DoubleDoubleStatistic/ContinuousDistributions/LinearityDistribution/GumbelDistribution.cs:112 | log sigma + gamma + 1 is a real for every scale, given that log is finite on the positive reals |
| Gumbel.Mean | DoubleDoubleStatistic/ContinuousDistributions/LinearityDistribution/GumbelDistribution.cs:97-98 | the mean mu + gamma sigma exceeds the mode mu |
| Gumbel.Median | DoubleDoubleStatistic/ContinuousDistributions/LinearityDistribution/GumbelDistribution.cs:100 | the Lower tail at mu - sigma log(log 2) is exactly 1/2 |
| Gumbel.ModeQuantile | DoubleDoubleStatistic/ContinuousDistributions/LinearityDistribution/GumbelDistribution.cs:102 | the Lower tail at the mode mu is e^(-1) |
| Gumbel.MomentsUnderShift | DoubleDoubleStatistic/ContinuousDistributions/LinearityDistribution/GumbelDistribution.cs:97-116 | shifting moves the mean and the mode and keeps the variance and the entropy |
| Gumbel.MomentsUnderScale | DoubleDoubleStatistic/ContinuousDistributions/LinearityDistribution/GumbelDistribution.cs:97-124 | scaling by c multiplies the mean and the mode by c and the variance by c^2 |
| Gumbel.Plus | DoubleDoubleStatistic/ContinuousDistributions/LinearityDistribution/GumbelDistribution.cs:114-116 | + s moves only mu |
| Gumbel.Minus | DoubleDoubleStatistic/ContinuousDistributions/LinearityDistribution/GumbelDistribution.cs:118-120 | - s moves only mu |
| Gumbel.Times | DoubleDoubleStatistic/ContinuousDistributions/LinearityDistribution/GumbelDistribution.cs:122-124 | * c succeeds exactly when c > 0 and scales mu and sigma |
| Gumbel.Divide | DoubleDoubleStatistic/ContinuousDistributions/LinearityDistribution/GumbelDistribution.cs:126-128 | / c succeeds exactly when c > 0 and divides mu and sigma; c = 0 fails on the location mu/0 first, c < 0 on the scale |
| Gumbel.TimesDivideRoundTrip | DoubleDoubleStatistic/ContinuousDistributions/LinearityDistribution/GumbelDistribution.cs:122-128 | multiplying and then dividing by the same c > 0 restores the distribution |
| Gumbel.PlusMinusRoundTrip | DoubleDoubleStatistic/ContinuousDistributions/LinearityDistribution/GumbelDistribution.cs:114-120 | shifting then shifting back restores the distribution |
| Burr.Create | DoubleDoubleDistribution/ContinuousDistribution/BurrDistribution.cs:12-20 | succeeds exactly when c > 0 and k > 0 |
| Burr.PDFAsWritten | DoubleDoubleDistribution/ContinuousDistribution/BurrDistribution.cs:22-32 | the density formula as written: 0 for negative x |
| Burr.PDFAsWrittenNaNAtZero | DoubleDoubleDistribution/ContinuousDistribution/BurrDistribution.cs:27-29 | the formula as written is NaN at x = 0, where it divides 0 by 0 |
| Burr.PDFAsWrittenNaNAtInfinity | DoubleDoubleDistribution/ContinuousDistribution/BurrDistribution.cs:27-29 | the formula as written is NaN at x = +inf, where it divides +inf by +inf |
| Burr.PDF | DoubleDoubleDistribution/ContinuousDistribution/BurrDistribution.cs:22-32 | 0 for negative x and at +inf; at 0 the limit of the formula; between them the formula as written |
| Burr.PDFAgreesInside | DoubleDoubleDistribution/ContinuousDistribution/BurrDistribution.cs:22-32 | away from 0 and +inf the corrected density equals the one as written |
| Burr.PDFNonNegative | DoubleDoubleDistribution/ContinuousDistribution/BurrDistribution.cs:22-32 | the corrected density is never NaN or negative away from NaN, and is a positive real on (0, +inf) |
| Burr.CDF | DoubleDoubleDistribution/ContinuousDistribution/BurrDistribution.cs:34-61 | at and below 0 Lower is 0 and Upper is 1; at +inf Lower is 1 and Upper is 0 |
| Burr.TailTermRange | DoubleDoubleDistribution/ContinuousDistribution/BurrDistribution.cs:45-57 | on (0, +inf) the term (1 + x^c)^(-k) lies in (0, 1], so neither clamp changes it |
| Burr.CDFComplement | DoubleDoubleDistribution/ContinuousDistribution/BurrDistribution.cs:45-57 | with the clamps, the two tails sum to exactly 1 at every non-NaN x |
| Burr.Quantile | DoubleDoubleDistribution/ContinuousDistribution/BurrDistribution.cs:63-92 | NaN outside [0, 1]; Lower gives 0 at p = 0 and +inf at p = 1; Upper the reverse |
| Burr.QuantileTailSymmetry | DoubleDoubleDistribution/ContinuousDistribution/BurrDistribution.cs:76-88 | for every p in [0, 1] the Upper quantile at p is the Lower quantile at 1 - p |
| Burr.InvertRoundTrip | DoubleDoubleDistribution/ContinuousDistribution/BurrDistribution.cs:57-88 | for q in (0, 1), ((1/q)^(1/k) - 1)^(1/c) is a positive real whose Upper tail term is q |
| Burr.QuantileRoundTripUpper | DoubleDoubleDistribution/ContinuousDistribution/BurrDistribution.cs:57-91 | for p in (0, 1) the Upper tail at the Upper quantile is p |
| Burr.QuantileRoundTripLower | DoubleDoubleDistribution/ContinuousDistribution/BurrDistribution.cs:45-79 | for p in (0, 1) the Lower tail at the Lower quantile is p |
| Burr.Median | DoubleDoubleDistribution/ContinuousDistribution/BurrDistribution.cs:97 | (2^(1/k) - 1)^(1/c) is the Lower quantile at 1/2, so the Lower tail there is 1/2 |
| Burr.Mode | DoubleDoubleDistribution/ContinuousDistribution/BurrDistribution.cs:98 | ((c - 1)/(k c + 1))^(1/c) is 0 for c = 1 and a positive real for c > 1 |
| Burr.Mean | DoubleDoubleDistribution/ContinuousDistribution/BurrDistribution.cs:96 | k B(k - 1/c, 1 + 1/c) is a positive real whenever c k > 1, given that B is positive at positive arguments |
| Burr.Variance | DoubleDoubleDistribution/ContinuousDistribution/BurrDistribution.cs:99-106 | mu2 - mu1^2 is a real whenever c k > 2 |
| Burr.ShapeAboveReciprocal | DoubleDoubleDistribution/ContinuousDistribution/BurrDistribution.cs:96-102 | c k > n makes the first beta argument k - n/c positive |
| BetaPrime.Create | DoubleDoubleDistribution/ContinuousDistribution/BetaPrimeDistribution.cs:12-20 | succeeds exactly when alpha > 0 and beta > 0 |
| BetaPrime.PDF | DoubleDoubleDistribution/ContinuousDistribution/BetaPrimeDistribution.cs:22-30 | the density with the limit 0 at +inf added; 0 at and below 0 |
| BetaPrime.PDFAsWritten | DoubleDoubleDistribution/ContinuousDistribution/BetaPrimeDistribution.cs:22-30 | the density as written: 0 at and below 0 |
| BetaPrime.PDFAsWrittenNaNAtInfinity | DoubleDoubleDistribution/ContinuousDistribution/BetaPrimeDistribution.cs:27 | as written the density at +inf is NaN exactly when alpha >= 1 ((alpha - 1) inf - (alpha + beta) inf is inf - inf, or inf times 0 at alpha = 1) and 0 below; the corrected density is 0 there |
| BetaPrime.PDFPositive | DoubleDoubleDistribution/ContinuousDistribution/BetaPrimeDistribution.cs:22-30 | on (0, +inf) the density is a positive real, given that B, exp and log behave on the positive reals |
| BetaPrime.CDFAsWritten | DoubleDoubleDistribution/ContinuousDistribution/BetaPrimeDistribution.cs:32-51 | the tails as written: at and below 0 Lower is 0 and Upper is 1 |
| BetaPrime.CDFAsWrittenAtInfinity | DoubleDoubleDistribution/ContinuousDistribution/BetaPrimeDistribution.cs:38-47 | as written, the Lower tail at +inf is NaN (+inf/+inf) while the Upper tail is 0, so they do not sum to 1 |
| BetaPrime.CDF | DoubleDoubleDistribution/ContinuousDistribution/BetaPrimeDistribution.cs:32-51 | the corrected tails: also exact at +inf for the Lower tail, and equal to the ones as written everywhere else |
| BetaPrime.CDFAgreesBelowInfinity | DoubleDoubleDistribution/ContinuousDistribution/BetaPrimeDistribution.cs:32-51 | below +inf the corrected tails are those as written |
| BetaPrime.CDFComplement | DoubleDoubleDistribution/ContinuousDistribution/BetaPrimeDistribution.cs:38-47 | the corrected tails sum to exactly 1 at every non-NaN x, given I(z; a, b) + I(1 - z; b, a) = 1 |
| BetaPrime.Quantile | DoubleDoubleDistribution/ContinuousDistribution/BetaPrimeDistribution.cs:53-84 | NaN outside [0, 1]; Lower gives 0 at p = 0 and +inf at p = 1; Upper the reverse |
| BetaPrime.QuantileTailSymmetry | DoubleDoubleDistribution/ContinuousDistribution/BetaPrimeDistribution.cs:66-80 | for every p in [0, 1] the Upper quantile at p is the Lower quantile at 1 - p |
| BetaPrime.OddsRoundTrip | DoubleDoubleDistribution/ContinuousDistribution/BetaPrimeDistribution.cs:38-67 | the odds u/(1 - u) of u in (0, 1) are a positive real x with x/(x + 1) = u |
| BetaPrime.QuantileRoundTripLower | DoubleDoubleDistribution/ContinuousDistribution/BetaPrimeDistribution.cs:38-69 | for p in (0, 1) the Lower tail at the Lower quantile is p |
| BetaPrime.QuantileRoundTripUpper | DoubleDoubleDistribution/ContinuousDistribution/BetaPrimeDistribution.cs:47-83 | for p in (0, 1) the Upper tail at the Upper quantile is p |
| BetaPrime.Mean | DoubleDoubleDistribution/ContinuousDistribution/BetaPrimeDistribution.cs:88 | a positive real exactly when beta > 1, NaN otherwise |
| BetaPrime.Variance | DoubleDoubleDistribution/ContinuousDistribution/BetaPrimeDistribution.cs:96-98 | a positive real exactly when beta > 2, NaN otherwise |
| BetaPrime.Skewness | DoubleDoubleDistribution/ContinuousDistribution/BetaPrimeDistribution.cs:100-102 | NaN for beta <= 3; for beta > 3 a non-negative real, given that sqrt is real on non-negative arguments |
| BetaPrime.Kurtosis | DoubleDoubleDistribution/ContinuousDistribution/BetaPrimeDistribution.cs:104-106 | a real exactly when beta > 4, NaN otherwise |
| BetaPrime.Median | DoubleDoubleDistribution/ContinuousDistribution/BetaPrimeDistribution.cs:90 | the Lower tail at the median is exactly 1/2 |
| BetaPrime.ModeAsWrittenCounterexample | DoubleDoubleDistribution/ContinuousDistribution/BetaPrimeDistribution.cs:92-94 | with alpha = 2, beta = 1 the mode as written is 3/2, which is not a stationary point of the density; the corrected mode 1/2 is |
| BetaPrime.ModeAsWritten | DoubleDoubleDistribution/ContinuousDistribution/BetaPrimeDistribution.cs:92-94 | the source mode alpha - 1/(beta + 1) overshoots the stationary point (alpha - 1)/(beta + 1) by alpha beta/(beta + 1) from alpha >= 1 on, and is 0 below |
| BetaPrime.ModeOvershoot | DoubleDoubleDistribution/ContinuousDistribution/BetaPrimeDistribution.cs:92-94 | alpha - 1/(beta + 1) = (alpha - 1)/(beta + 1) + alpha beta/(beta + 1), and the second term is positive |
| BetaPrime.ModeAtSmallShape | DoubleDoubleDistribution/ContinuousDistribution/BetaPrimeDistribution.cs:92-94 | below alpha = 1 both modes are 0; at alpha = 1 the corrected one is 0 and the one as written is 1 - 1/(beta + 1) |
| BetaPrime.Mode | DoubleDoubleDistribution/ContinuousDistribution/BetaPrimeDistribution.cs:92-94 | the corrected mode (alpha - 1)/(beta + 1) is non-negative and, for alpha >= 1, a stationary point of the log-density |
| BetaPrime.ModeIsStationary | DoubleDoubleDistribution/ContinuousDistribution/BetaPrimeDistribution.cs:92-94 | (alpha - 1)/(beta + 1) solves (alpha - 1)(1 + x) = (alpha + beta) x |
| Power.Create | DoubleDoubleDistribution/ContinuousDistribution/PowerDistribution.cs:12-21 | succeeds exactly when k > 0 and alpha > 0 |
| Power.KInv | DoubleDoubleDistribution/ContinuousDistribution/PowerDistribution.cs:19 | the cached upper end 1/k of the support is positive |
| Power.PDF | DoubleDoubleDistribution/ContinuousDistribution/PowerDistribution.cs:23-38 | 0 for negative x and for x > 1/k |
| Power.PDFIsDirectDensity | DoubleDoubleDistribution/ContinuousDistribution/PowerDistribution.cs:23-38 | on (0, 1/k] the 2^(lb alpha + alpha lb k + (alpha - 1) lb x) branch equals alpha k^alpha x^(alpha - 1), so the two evaluations agree, given 2^(a + b) = 2^a 2^b and 2^(a lb y) = y^a |
| Power.PDFPositive | DoubleDoubleDistribution/ContinuousDistribution/PowerDistribution.cs:23-38 | on (0, 1/k] the density is a positive real |
| Power.CDF | DoubleDoubleDistribution/ContinuousDistribution/PowerDistribution.cs:40-67 | Lower is 0 at and below 0 and 1 above 1/k; Upper is the mirror image |
| Power.CDFComplement | DoubleDoubleDistribution/ContinuousDistribution/PowerDistribution.cs:50-63 | (k x)^alpha and 1 - (k x)^alpha sum to exactly 1, and the guards keep the sum 1 at every non-NaN x |
| Power.CDFRange | DoubleDoubleDistribution/ContinuousDistribution/PowerDistribution.cs:50 | within (0, 1/k] the Lower tail lies in (0, 1] |
| Power.Quantile | DoubleDoubleDistribution/ContinuousDistribution/PowerDistribution.cs:69-81 | NaN outside [0, 1]; the Upper quantile at p is the Lower quantile at 1 - p |
| Power.QuantileRoundTripLower | DoubleDoubleDistribution/ContinuousDistribution/PowerDistribution.cs:50-80 | the Lower quantile maps [0, 1] into the support [0, 1/k], and the Lower tail there is p, given that pow undoes a root |
| Power.QuantileRoundTripUpper | DoubleDoubleDistribution/ContinuousDistribution/PowerDistribution.cs:63-76 | the Upper tail at the Upper quantile is p for every p in [0, 1] |
| Power.Mean | DoubleDoubleDistribution/ContinuousDistribution/PowerDistribution.cs:85 | alpha/(k (alpha + 1)) lies strictly inside the support (0, 1/k) |
| Power.Median | DoubleDoubleDistribution/ContinuousDistribution/PowerDistribution.cs:87 | 1/(2^(1/alpha) k) is a real strictly inside the support (0, 1/k), and the Lower tail there is exactly 1/2, given pow laws that include (1/y)^a y^a = 1 |
| Power.MedianTail | DoubleDoubleDistribution/ContinuousDistribution/PowerDistribution.cs:50-87 | with t = 2^(1/alpha) > 1, the Lower tail (k x)^alpha at x = 1/(t k) is exactly 1/2 |
| Power.Variance | DoubleDoubleDistribution/ContinuousDistribution/PowerDistribution.cs:91-92 | the variance is positive |
| Power.Skewness | DoubleDoubleDistribution/ContinuousDistribution/PowerDistribution.cs:94-95 | the skewness is positive for alpha < 1, zero for alpha = 1 and negative for alpha > 1 |
| Power.Kurtosis | DoubleDoubleDistribution/ContinuousDistribution/PowerDistribution.cs:97-98 | the excess kurtosis is above -2, the bound every excess kurtosis keeps, and equals -6/5, the uniform law's, at alpha = 1 |
| Rayleigh.Create | DoubleDoubleDistribution/ContinuousDistribution/RayleighDistribution.cs:11-18 | succeeds exactly when sigma > 0 |
| Rayleigh.SigmaSq | DoubleDoubleDistribution/ContinuousDistribution/RayleighDistribution.cs:17 | the cached sigma^2 is positive |
| Rayleigh.PDFAsWritten | DoubleDoubleDistribution/ContinuousDistribution/RayleighDistribution.cs:20-32 | the density as written: 0 for negative x and, after the formula, 0 at NaN |
| Rayleigh.PDFAsWrittenNaNAtInfinity | DoubleDoubleDistribution/ContinuousDistribution/RayleighDistribution.cs:25 | as written the density at +inf is NaN (+inf times 0); the corrected density is 0 there |
| Rayleigh.PDF | DoubleDoubleDistribution/ContinuousDistribution/RayleighDistribution.cs:20-32 | the corrected density: 0 below 0, at NaN and at +inf |
| Rayleigh.PDFAgreesBelowInfinity | DoubleDoubleDistribution/ContinuousDistribution/RayleighDistribution.cs:20-32 | away from +inf the corrected density is the one as written |
| Rayleigh.PDFNonNegative | DoubleDoubleDistribution/ContinuousDistribution/RayleighDistribution.cs:20-32 | the corrected density is a non-negative real everywhere, and positive exactly on the reals x > 0 |
| Rayleigh.DensityInside | DoubleDoubleDistribution/ContinuousDistribution/RayleighDistribution.cs:25 | at a real x >= 0 the density is a non-negative real, positive exactly when x > 0 |
| Rayleigh.CDF | DoubleDoubleDistribution/ContinuousDistribution/RayleighDistribution.cs:34-53 | at and below 0 Lower is 0 and Upper is 1 |
| Rayleigh.CDFComplement | DoubleDoubleDistribution/ContinuousDistribution/RayleighDistribution.cs:40-49 | 1 - E and E sum to exactly 1, and the guards keep the sum 1 at every non-NaN x |
| Rayleigh.Quantile | DoubleDoubleDistribution/ContinuousDistribution/RayleighDistribution.cs:55-70 | NaN outside [0, 1] |
| Rayleigh.QuantileRoundTripUpper | DoubleDoubleDistribution/ContinuousDistribution/RayleighDistribution.cs:49-66 | for p in (0, 1] the Upper tail at the Upper quantile is p |
| Rayleigh.QuantileRoundTripLower | DoubleDoubleDistribution/ContinuousDistribution/RayleighDistribution.cs:40-61 | for p in [0, 1) the Lower tail at the Lower quantile is p, given log1p(y) = log(1 + y) |
| Rayleigh.LowerQuantileRoot | DoubleDoubleDistribution/ContinuousDistribution/RayleighDistribution.cs:61 | the Lower quantile at p in [0, 1) is a real x >= 0, 0 only at p = 0, where exp(-x^2/(2 sigma^2)) = 1 - p |
| Rayleigh.ScaledRootOfLog | DoubleDoubleDistribution/ContinuousDistribution/RayleighDistribution.cs:55-70 | for y in (0, 1] the point x = sigma sqrt(-2 log y) is a non-negative real, 0 only at y = 1, where exp(-x^2/(2 sigma^2)) = y when x > 0 |
| Rayleigh.Median | DoubleDoubleDistribution/ContinuousDistribution/RayleighDistribution.cs:55-75 | the median sigma sqrt(2 ln 2) is the quantile at 1/2 of either tail, given log(1/2) = -log 2 with log 2 finite and log1p(y) = log(1 + y) |
| Rayleigh.Mean | DoubleDoubleDistribution/ContinuousDistribution/RayleighDistribution.cs:74-76 | the mean sigma sqrt(pi/2) is a real above the mode sigma |
| Rayleigh.Variance | DoubleDoubleDistribution/ContinuousDistribution/RayleighDistribution.cs:77 | the variance (4 - pi)/2 sigma^2 is positive |
| Rayleigh.Skewness | DoubleDoubleDistribution/ContinuousDistribution/RayleighDistribution.cs:78 | the skewness 2 sqrt(pi)(pi - 3)/sqrt(4 - pi)^3 is a positive real |
| Rayleigh.Kurtosis | DoubleDoubleDistribution/ContinuousDistribution/RayleighDistribution.cs:79 | given 3.14 < pi < 3.15, the excess kurtosis (-16 + pi (24 - 6 pi))/(4 - pi)^2 is a positive real |
| InverseChiSquare.Create | DoubleDoubleStatistic/ContinuousDistribution/InverseChiSquareDistribution.cs:11-18 | the constructor succeeds exactly when nu > 0 and keeps nu |
| InverseChiSquare.HalfNu | DoubleDoubleStatistic/ContinuousDistribution/InverseChiSquareDistribution.cs:16-17 | the shape nu/2 handed to the incomplete gamma functions is positive |
| InverseChiSquare.PDF | DoubleDoubleStatistic/ContinuousDistribution/InverseChiSquareDistribution.cs:20-32 | NaN at NaN; 0 at and below 0 and at +inf |
| InverseChiSquare.PDFPositive | DoubleDoubleStatistic/ContinuousDistribution/InverseChiSquareDistribution.cs:29 | on (0, +inf) the density 2^(-c lb x - lb e/(2x) - lognorm) is a positive real |
| InverseChiSquare.CDF | DoubleDoubleStatistic/ContinuousDistribution/InverseChiSquareDistribution.cs:34-67 | NaN exactly propagates; at and below 0 Lower is 0 and Upper is 1; no other argument gives NaN, thanks to the fallback |
| InverseChiSquare.CDFComplement | DoubleDoubleStatistic/ContinuousDistribution/InverseChiSquareDistribution.cs:46-59 | Q(nu/2, 1/(2x)) and P(nu/2, 1/(2x)) sum to exactly 1 at every non-NaN x, given P + Q = 1 |
| InverseChiSquare.NaNFallback | DoubleDoubleStatistic/ContinuousDistribution/InverseChiSquareDistribution.cs:48-63 | where the incomplete gamma functions return NaN the Lower tail is 0 and the Upper tail 1 exactly when the mean exists and x lies below 1/(nu - 2); otherwise Lower is 1 and Upper 0 |
| InverseChiSquare.BelowMean | DoubleDoubleStatistic/ContinuousDistribution/InverseChiSquareDistribution.cs:48-50 | the guard x < Mean holds exactly when nu > 2 and x (nu - 2) < 1; a NaN mean makes it false |
| InverseChiSquare.Quantile | DoubleDoubleStatistic/ContinuousDistribution/InverseChiSquareDistribution.cs:69-84 | NaN outside [0, 1] |
| InverseChiSquare.QuantileRoundTripLower | DoubleDoubleStatistic/ContinuousDistribution/InverseChiSquareDistribution.cs:46-75 | for p in (0, 1) the Lower quantile is a positive real at which the Lower tail is p |
| InverseChiSquare.QuantileRoundTripUpper | DoubleDoubleStatistic/ContinuousDistribution/InverseChiSquareDistribution.cs:59-80 | for p in (0, 1) the Upper quantile is a positive real at which the Upper tail is p |
| InverseChiSquare.GammaArgAtQuantile | DoubleDoubleStatistic/ContinuousDistribution/InverseChiSquareDistribution.cs:39-80 | 1/2 divided by a positive real g is a positive real whose gamma argument 1/(2x) is g again |
| InverseChiSquare.Median | DoubleDoubleStatistic/ContinuousDistribution/InverseChiSquareDistribution.cs:92 | both tails are exactly 1/2 at the median |
| InverseChiSquare.Mean | DoubleDoubleStatistic/ContinuousDistribution/InverseChiSquareDistribution.cs:88-90 | the mean is a real exactly when nu > 2, positive, and NaN otherwise |
| InverseChiSquare.Mode | DoubleDoubleStatistic/ContinuousDistribution/InverseChiSquareDistribution.cs:94 | the mode 1/(nu + 2) is positive |
| InverseChiSquare.ModeBelowMean | DoubleDoubleStatistic/ContinuousDistribution/InverseChiSquareDistribution.cs:88-94 | wherever the mean exists the mode lies below it |
| InverseChiSquare.Variance | DoubleDoubleStatistic/ContinuousDistribution/InverseChiSquareDistribution.cs:96-98 | the variance is a real exactly when nu > 4, positive, and NaN otherwise |
| InverseChiSquare.Skewness | DoubleDoubleStatistic/ContinuousDistribution/InverseChiSquareDistribution.cs:100-102 | the skewness is NaN for nu <= 6 and a positive real above |
| InverseChiSquare.Kurtosis | DoubleDoubleStatistic/ContinuousDistribution/InverseChiSquareDistribution.cs:104-106 | the kurtosis is a real exactly when nu > 8, positive, and NaN otherwise |
| Nakagami.Create | DoubleDoubleDistribution/ContinuousDistribution/NakagamiDistribution.cs:12-22 | the constructor succeeds exactly when m >= 1/2 and omega > 0 |
| Nakagami.MOmega | DoubleDoubleDistribution/ContinuousDistribution/NakagamiDistribution.cs:19 | the cached m/omega is positive |
| Nakagami.OmegaM | DoubleDoubleDistribution/ContinuousDistribution/NakagamiDistribution.cs:20 | the cached omega/m is positive and the reciprocal of m/omega |
| Nakagami.PDFAsWritten | DoubleDoubleDistribution/ContinuousDistribution/NakagamiDistribution.cs:24-32 | the density as written: 0 for negative x |
| Nakagami.PdfLogNormExcess | DoubleDoubleDistribution/ContinuousDistribution/NakagamiDistribution.cs:21 | the constructor's normaliser -logGamma(m) + m log(2m/omega) exceeds the normaliser of 2 (m/omega)^m/Gamma(m) by (m - 1) log 2 |
| Nakagami.PDFAsWrittenScaled | DoubleDoubleDistribution/ContinuousDistribution/NakagamiDistribution.cs:21-29 | at every x > 0 the density as written is 2^(m-1) times the corrected density |
| Nakagami.PDFAsWrittenDoubles | DoubleDoubleDistribution/ContinuousDistribution/NakagamiDistribution.cs:21-29 | for m = 2 the density as written is exactly twice the corrected one at every x > 0, so it integrates to 2 |
| Nakagami.PDFAsWrittenNaNAtInfinity | DoubleDoubleDistribution/ContinuousDistribution/NakagamiDistribution.cs:29 | as written the density at +inf is NaN (+inf - +inf in the exponent); the corrected density is 0 there |
| Nakagami.PDFAsWrittenNaNAtZero | DoubleDoubleDistribution/ContinuousDistribution/NakagamiDistribution.cs:29 | for m = 1/2 the density as written at 0 is NaN (-inf times 0); the corrected density is the positive limit there |
| Nakagami.KernelNaNAtZero | DoubleDoubleDistribution/ContinuousDistribution/NakagamiDistribution.cs:29 | with m = 1/2 the exponent log(0) (2m - 1) is NaN, so the kernel at 0 is exp(NaN) whatever the normaliser |
| Nakagami.PDF | DoubleDoubleDistribution/ContinuousDistribution/NakagamiDistribution.cs:24-32 | the corrected density: 0 below 0 and at +inf, 0 at 0 for m > 1/2 |
| Nakagami.PDFIsTransformedGamma | DoubleDoubleDistribution/ContinuousDistribution/NakagamiDistribution.cs:24-32 | at x > 0 the corrected density is 2x times the gamma(m, m/omega) density at x^2: it is the law of the square root of a gamma variable |
| Nakagami.KernelAt | DoubleDoubleDistribution/ContinuousDistribution/NakagamiDistribution.cs:29 | at a positive real x with log x = l the kernel is exp(l (2m - 1) - (m/omega) x^2 + n) for a finite normaliser n |
| Nakagami.KernelShift | DoubleDoubleDistribution/ContinuousDistribution/NakagamiDistribution.cs:21-29 | adding c to the normaliser multiplies the kernel by exp(c) |
| Nakagami.NormaliserShift | DoubleDoubleDistribution/ContinuousDistribution/NakagamiDistribution.cs:21-29 | when the two normalisers differ by c, the density as written is exp(c) times the corrected one at every x > 0 |
| Nakagami.GammaDensityAtSquare | DoubleDoubleDistribution/ContinuousDistribution/NakagamiDistribution.cs:24-32 | the gamma density with shape m and rate m/omega at y = x^2 is exp((m - 1) log y - (m/omega) y + m log(m/omega) - logGamma(m)) |
| Nakagami.PDFPositive | DoubleDoubleDistribution/ContinuousDistribution/NakagamiDistribution.cs:29 | the corrected density is a positive real at every x > 0 |
| Nakagami.CDFAsWrittenBelowZero | DoubleDoubleDistribution/ContinuousDistribution/NakagamiDistribution.cs:34-45 | as written the tails see only x^2, so at -t they equal the tails at t and the Lower tail is positive below 0; the corrected Lower tail is 0 there |
| Nakagami.CDF | DoubleDoubleDistribution/ContinuousDistribution/NakagamiDistribution.cs:34-45 | the corrected tails: exact at and below 0, the written ones above 0 |
| Nakagami.CDFComplement | DoubleDoubleDistribution/ContinuousDistribution/NakagamiDistribution.cs:36-41 | the corrected tails sum to exactly 1 at every non-NaN x, given P + Q = 1 |
| Nakagami.Quantile | DoubleDoubleDistribution/ContinuousDistribution/NakagamiDistribution.cs:47-62 | NaN outside [0, 1] |
| Nakagami.RootOfScaledInverse | DoubleDoubleDistribution/ContinuousDistribution/NakagamiDistribution.cs:36-58 | sqrt(g omega/m) is a positive real for g > 0, and its gamma argument x^2 m/omega is g again |
| Nakagami.QuantileRoundTripLower | DoubleDoubleDistribution/ContinuousDistribution/NakagamiDistribution.cs:36-53 | for p in (0, 1) the Lower quantile is a positive real at which the Lower tail is p |
| Nakagami.QuantileRoundTripUpper | DoubleDoubleDistribution/ContinuousDistribution/NakagamiDistribution.cs:41-58 | for p in (0, 1) the Upper quantile is a positive real at which the Upper tail is p |
| Nakagami.Median | DoubleDoubleDistribution/ContinuousDistribution/NakagamiDistribution.cs:69 | both tails are exactly 1/2 at the median |
| Nakagami.Mean | DoubleDoubleDistribution/ContinuousDistribution/NakagamiDistribution.cs:66-67 | Gamma(m + 1/2)/Gamma(m) sqrt(omega/m) is a positive real |
| Nakagami.MeanParts | DoubleDoubleDistribution/ContinuousDistribution/NakagamiDistribution.cs:66-67 | the mean is g s with g = Gamma(m + 1/2)/Gamma(m) a real and s^2 = omega/m |
| Nakagami.Mode | DoubleDoubleDistribution/ContinuousDistribution/NakagamiDistribution.cs:71-72 | the mode is a non-negative real, 0 exactly for m = 1/2, and its square is below omega |
| Nakagami.ModeSquare | DoubleDoubleDistribution/ContinuousDistribution/NakagamiDistribution.cs:72 | (2m - 1) omega/(2m) is non-negative, 0 exactly for m = 1/2, and below omega |
| Nakagami.Variance | DoubleDoubleDistribution/ContinuousDistribution/NakagamiDistribution.cs:66-75 | the variance plus the squared mean is omega, the second moment E[X^2] |
| Nakagami.MomentAlgebra | DoubleDoubleDistribution/ContinuousDistribution/NakagamiDistribution.cs:67-75 | omega (1 - g^2/m) + (g s)^2 = omega whenever s^2 = omega/m |
| FisherZ.Create | DoubleDoubleDistribution/ContinuousDistribution/FisherZDistribution.cs:12-20 | the constructor succeeds exactly when n > 0 and m > 0 |
| FisherZ.CDF | DoubleDoubleDistribution/ContinuousDistribution/FisherZDistribution.cs:28-55 | the Lower tail is 0 at -inf and 1 at +inf; the Upper tail is 1 at -inf and 0 at +inf |
| FisherZ.CDFComplement | DoubleDoubleDistribution/ContinuousDistribution/FisherZDistribution.cs:39-51 | the tails are NaN exactly at NaN and elsewhere finite reals that sum to 1, given I(z; a, b) + I(1 - z; b, a) = 1 |
| FisherZ.LowerTailAtOdds | DoubleDoubleDistribution/ContinuousDistribution/FisherZDistribution.cs:39 | at a real x with n e^(2x) = U, the Lower tail is I(U/(U + m); n/2, m/2) |
| FisherZ.UpperTailAtOdds | DoubleDoubleDistribution/ContinuousDistribution/FisherZDistribution.cs:51 | at a real x with n e^(2x) = U, the Upper tail is I(m/(U + m); m/2, n/2) |
| FisherZ.LowerTailAt | DoubleDoubleDistribution/ContinuousDistribution/FisherZDistribution.cs:39-64 | where n e^(2x) = m u/(1 - u), the Lower tail is I(u; n/2, m/2) |
| FisherZ.UpperTailAt | DoubleDoubleDistribution/ContinuousDistribution/FisherZDistribution.cs:51-70 | where n e^(2x) = m (1 - u)/u, the Upper tail is I(u; m/2, n/2) |
| FisherZ.ScaledFinite | DoubleDoubleDistribution/ContinuousDistribution/FisherZDistribution.cs:29 | at a real x, u = n e^(2x) is a positive real |
| FisherZ.ShareSplit | DoubleDoubleDistribution/ContinuousDistribution/FisherZDistribution.cs:39-51 | u/(u + m) and m/(u + m) lie in [0, 1] and add up to 1 |
| FisherZ.Quantile | DoubleDoubleDistribution/ContinuousDistribution/FisherZDistribution.cs:57-74 | NaN outside [0, 1] |
| FisherZ.QuantileEnds | DoubleDoubleDistribution/ContinuousDistribution/FisherZDistribution.cs:62-73 | at p = 0 and p = 1 the quantile is the matching infinity: -inf, +inf for Lower and +inf, -inf for Upper |
| FisherZ.LowerOddsBack | DoubleDoubleDistribution/ContinuousDistribution/FisherZDistribution.cs:39-64 | with y = m u/(n (1 - u)) and U = n y, U/(U + m) = u: the Lower quantile's odds undo the Lower tail's argument |
| FisherZ.UpperOddsBack | DoubleDoubleDistribution/ContinuousDistribution/FisherZDistribution.cs:51-70 | with y = m (1 - u)/(n u) and U = n y, m/(U + m) = u: the Upper quantile's odds undo the Upper tail's argument |
| FisherZ.ScaledAtHalfLog | DoubleDoubleDistribution/ContinuousDistribution/FisherZDistribution.cs:64-70 | at x = (log y)/2 the scaled value n e^(2x) is n y |
| FisherZ.LowerQuantileIs | DoubleDoubleDistribution/ContinuousDistribution/FisherZDistribution.cs:63-64 | the Lower quantile at p in (0, 1) is half the log of m u/(n (1 - u)) for the inverse u |
| FisherZ.UpperQuantileIs | DoubleDoubleDistribution/ContinuousDistribution/FisherZDistribution.cs:69-70 | the Upper quantile at p in (0, 1) is half the log of m (1 - u)/(n u) for the inverse u |
| FisherZ.LowerQuantilePoint | DoubleDoubleDistribution/ContinuousDistribution/FisherZDistribution.cs:39-64 | the Lower quantile at p in (0, 1) is a real at which the Lower tail is I(u; n/2, m/2) for the inverse u |
| FisherZ.UpperQuantilePoint | DoubleDoubleDistribution/ContinuousDistribution/FisherZDistribution.cs:51-70 | the Upper quantile at p in (0, 1) is a real at which the Upper tail is I(u; m/2, n/2) for the inverse u |
| FisherZ.QuantileRoundTripLower | DoubleDoubleDistribution/ContinuousDistribution/FisherZDistribution.cs:39-64 | for p in (0, 1) the Lower tail at the Lower quantile is p |
| FisherZ.QuantileRoundTripUpper | DoubleDoubleDistribution/ContinuousDistribution/FisherZDistribution.cs:51-70 | for p in (0, 1) the Upper tail at the Upper quantile is p |
| FisherZ.SymmetricHalfAtZero | DoubleDoubleDistribution/ContinuousDistribution/FisherZDistribution.cs:39-76 | for n = m the Lower tail at 0 is exactly 1/2 |
| FisherZ.Median | DoubleDoubleDistribution/ContinuousDistribution/FisherZDistribution.cs:84-87 | whenever the near-symmetry shortcut is not taken, or n = m exactly, the Lower tail at the median is exactly 1/2 |
| FisherZ.SymmetricIsNearSymmetric | DoubleDoubleDistribution/ContinuousDistribution/FisherZDistribution.cs:76-97 | n = m always passes the test abs(n - m) < hypot(n, m) 1e-30 |
| FisherZ.SymmetricCentre | DoubleDoubleDistribution/ContinuousDistribution/FisherZDistribution.cs:76-99 | for n = m the mean, the skewness, the median and the mode are all 0 |
| FisherZ.MomentValue | DoubleDoubleDistribution/ContinuousDistribution/FisherZDistribution.cs:79-107 | a first read gives 0 for the mean and the skewness when n and m are equal to working accuracy, and otherwise the integration engine's value at eps 1e-28 with 2048 evaluation points |
| FisherZ.New | DoubleDoubleDistribution/ContinuousDistribution/FisherZDistribution.cs:78-105 | a fresh object has every moment cell empty |
| FisherZ.ReadMoment | DoubleDoubleDistribution/ContinuousDistribution/FisherZDistribution.cs:78-107 | a read returns the stored value if the cell is filled and otherwise fills it; other cells and the parameters are untouched; from a consistent object it returns exactly the moment's value |
| FisherZ.MeanIsMemoised | DoubleDoubleDistribution/ContinuousDistribution/FisherZDistribution.cs:78-82 | the first read of the mean gives its value, and a second read returns it again whatever the engine would now say |
| FisherZ.PDFNaNAtInfinity | DoubleDoubleDistribution/ContinuousDistribution/FisherZDistribution.cs:22-26 | the density as written is NaN at +inf (+inf - +inf in the base-2 log) |
| FisherZ.PDF | DoubleDoubleDistribution/ContinuousDistribution/FisherZDistribution.cs:22-26 | at every real x the density is a positive real |
| FisherZ.PDFPositive | DoubleDoubleDistribution/ContinuousDistribution/FisherZDistribution.cs:22-26 | at a real x the base-2 log of the density is a real, so its power of 2 is a positive real |
| FisherZ.ModeIsStationary | DoubleDoubleDistribution/ContinuousDistribution/FisherZDistribution.cs:89 | the log-density is stationary exactly where n e^(2x) = n, which is the mode 0 |
| FisherZStatistic.PDF | DoubleDoubleStatistic/ContinuousDistributions/ContinuousDistribution/FisherZDistribution.cs:29-38 | NaN exactly at NaN, a finite real everywhere else, and equal to the other implementation's density wherever that is finite |
| FisherZStatistic.PDFAtInfinity | DoubleDoubleStatistic/ContinuousDistributions/ContinuousDistribution/FisherZDistribution.cs:34-35 | at +inf the other implementation's density is NaN and this one's is 0 |
| FisherZStatistic.PDFNonNegative | DoubleDoubleStatistic/ContinuousDistributions/ContinuousDistribution/FisherZDistribution.cs:29-38 | away from NaN the density is a non-negative real |
| FisherZStatistic.CDF | DoubleDoubleStatistic/ContinuousDistributions/ContinuousDistribution/FisherZDistribution.cs:40-67 | the tails are exact at -inf and wherever u + m overflows to +inf |
| FisherZStatistic.CDFAgrees | DoubleDoubleStatistic/ContinuousDistributions/ContinuousDistribution/FisherZDistribution.cs:41-59 | over exact reals u + m is +inf only at x = +inf, so both implementations' tails agree at every argument |
| FisherZStatistic.CDFComplement | DoubleDoubleStatistic/ContinuousDistributions/ContinuousDistribution/FisherZDistribution.cs:51-63 | the tails are NaN exactly at NaN and otherwise finite reals that sum to 1 |
| FisherZStatistic.QuantileRoundTrip | DoubleDoubleStatistic/ContinuousDistributions/ContinuousDistribution/FisherZDistribution.cs:51-86 | for p in (0, 1) each tail at that tail's quantile is p |
| MomentCache.Store | DoubleDoubleStatistic/ContinuousDistributions/ContinuousDistribution/FisherZDistribution.cs:102-131 | filling one cell sets it and leaves every other cell as it was |
| MomentCache.Read | DoubleDoubleStatistic/ContinuousDistributions/ContinuousDistribution/FisherZDistribution.cs:103-130 | the ??= read: a filled cell is returned unchanged with the cache; an empty one is computed and stored; no other cell changes |
| MomentCache.ReadIsTransparent | DoubleDoubleStatistic/ContinuousDistributions/ContinuousDistribution/FisherZDistribution.cs:103-130 | from a consistent cache a read returns exactly the computed value and keeps the cache consistent: memoisation is invisible |
| MomentCache.ReadTwice | DoubleDoubleStatistic/ContinuousDistributions/ContinuousDistribution/FisherZDistribution.cs:103-116 | a second read of the same moment returns the first value and leaves the cache as it was |
| MomentCache.ReadAll | DoubleDoubleStatistic/ContinuousDistributions/ContinuousDistribution/FisherZDistribution.cs:102-131 | a sequence of reads returns one value per read |
| MomentCache.FilledCellsPersist | DoubleDoubleStatistic/ContinuousDistributions/ContinuousDistribution/FisherZDistribution.cs:102-131 | a filled cell is never overwritten by later reads |
| MomentCache.ReadsAgreeWithFinalCache | DoubleDoubleStatistic/ContinuousDistributions/ContinuousDistribution/FisherZDistribution.cs:102-131 | every value a sequence of reads returns is the value the final cache holds for that moment |
| MomentCache.RepeatedReadsAgree | DoubleDoubleStatistic/ContinuousDistributions/ContinuousDistribution/FisherZDistribution.cs:102-131 | two reads of the same moment in one sequence return the same value |
| MomentCache.ReadAllIsTransparent | DoubleDoubleStatistic/ContinuousDistributions/ContinuousDistribution/FisherZDistribution.cs:102-131 | from a consistent cache, in particular a fresh one, every read of a sequence returns the computed value of its moment |

## Left out

- Entropy: modelled as written for Cauchy, Weibull, Gumbel, Cosine, Power, Rayleigh and InverseChiSquare. FisherZ's comes from the memoised moments. These closed forms in log, Gamma, digamma or Euler's constant carry no promise beyond their value. So the only contracts are shift invariance where the distribution can be shifted, the finiteness of Gumbel.Entropy and Weibull.Entropy, and Weibull's value 1 at alpha = theta = 1. Nakagami's Entropy throws NotImplementedException. Burr and BetaPrime define no Entropy of their own. The members are Cauchy.Entropy, Cosine.Entropy, InverseChiSquare.Entropy, Power.Entropy and Rayleigh.Entropy, which carry no contract, and Gumbel.Entropy and Weibull.Entropy, which have rows.
- Sample of every distribution, including FisherZ in DoubleDoubleStatistic: it draws from a random number generator.
- ToString, Formula and the other display members.
- The values of the ddouble kernels (exp, log, pow, Gamma, the incomplete gamma and beta functions and their inverses, and so on). They are fields of a record passed as a parameter. Each lemma requires only the algebraic laws it uses.
- The numerical integration engine behind the memoised FisherZ moments. It is a parameter, and only the arguments it receives (eps 1e-28, 2048 points) are modelled.
- Floating-point rounding, overflow and underflow. Every arithmetic step is exact over the reals. Consequently the Statistic FisherZ guard on u + m = +inf differs from the Distribution guard on x = +inf only under overflow, which the model cannot show.
- Weibull Skewness and Kurtosis, and Burr Skewness and Kurtosis: combinations of four Gamma or Beta values with no sign or bound the library promises, so they are not modelled.
- Burr.Variance: states only that mu2 - mu1^2 is a real when c k > 2, not that it is positive; positivity needs an inequality between Beta values that the kernel laws do not provide.
- Gumbel.Kurtosis and Cosine.Skewness are constants (12/5 and 0), so they carry no contract.
- Nakagami.Skewness and Nakagami.Kurtosis: modelled as written without a contract. They are ratios of Gamma values with no sign or bound the library promises.
- Power.Mode: the source returns 1/k for every alpha. That is the mode only for alpha >= 1; for alpha < 1 the density is unbounded at 0. The model keeps 1/k and states no property about it.
- The support tuples of every distribution are modelled without a contract, because they are constants: BetaPrime.Support, Burr.Support, Cosine.Support (with its ends Cosine.Lo and Cosine.Hi), Gumbel.Support, InverseChiSquare.Support, Nakagami.Support, Power.Support, Rayleigh.Support and Weibull.Support.
- Cauchy.Median and Cauchy.Mode: each returns the field mu and carries no contract of its own. Cauchy.CDFAtMedian states that both tails are 1/2 at Median, and Cauchy.ModeMaximisesDensity that the density is largest at Mode.
- Cauchy.Alpha, Cauchy.Beta and Cauchy.C: the stable-family parameters 1, 0 and gamma, returned without a contract. Cauchy.SumFollowsStableRule states the sum rule they parametrise.
- Cauchy.Symmetric: the constant true. Cauchy.PDFSymmetric and Cauchy.CDFReflection state the symmetry it declares.
- Cosine.Mean, Cosine.Median and Cosine.Mode: each returns mu without a contract. Cosine.MedianSplitsMass states both tails are 1/2 at Median, and Cosine.PDFSymmetric that the density is symmetric about mu.
- Gumbel.Mode: returns mu without a contract. Gumbel.ModeQuantile states the Lower tail there is e^-1, and Gumbel.Mean that the mean lies above it.
- Rayleigh.Mode: returns sigma without a contract. Rayleigh.Mean states that the mean lies above it.
- FisherZ.Mode: the constant 0. FisherZ.ModeIsStationary states that the log-density is stationary exactly there.
- FisherZ.Symmetric and FisherZ.NearSymmetric: the predicates n = m and |n - m| < hypot(n, m) 1e-30. FisherZ.SymmetricIsNearSymmetric relates them, and FisherZ.Median, FisherZ.SymmetricCentre and FisherZ.MomentValue use them.
- FisherZ.PdfLogNorm and FisherZ.PdfExponent: the cached normaliser and the exponent of the density, without a contract of their own. FisherZ.PDF and FisherZ.PDFPositive state the density's sign.
- Nakagami.CDFAsWritten, Nakagami.PdfLogNormAsWritten and Nakagami.PdfLogNorm: the source's tails and normaliser, and the corrected normaliser, without a contract of their own. Nakagami.CDFAsWrittenBelowZero, Nakagami.PdfLogNormExcess, Nakagami.PDFAsWrittenDoubles and Nakagami.PDFIsTransformedGamma state what they compute.
- Constructor validity predicates, with no row because each Create row states the domain they check: BetaPrime.Valid, Burr.Valid, Cauchy.Valid, Cosine.Valid, FisherZ.Valid, Gumbel.Valid, InverseChiSquare.Valid, Nakagami.Valid, Power.Valid, Rayleigh.Valid and Weibull.Valid.
- Named subexpressions and cached constructor values, written as the source computes them and without a contract of their own; the operations in the table that use them state their meaning: ApproxUtil.Numerators, ApproxUtil.Denominators, ApproxUtil.HornerFrom, ApproxUtil.Power, ApproxUtil.PowerSum, ApproxUtil.PartialSum, ApproxUtil.SplitAt, BetaPrime.Odds, BetaPrime.PdfNorm, Burr.CK, Burr.DensityAtZero, Burr.Invert, Cosine.KeplerOffset, FisherZ.Scaled, FisherZStatistic.Upm, InverseChiSquare.C, InverseChiSquare.GammaArg, InverseChiSquare.PdfExponent, InverseChiSquare.PdfLogNorm, LocationScale.Standardize, LocationScale.Reflect, MomentCache.Cell, Nakagami.GammaArg, Nakagami.GammaRatio, Nakagami.GammaDensity, Nakagami.PdfKernel, Power.AlphaInv, Power.PdfLogNorm, Rayleigh.Exponent, Weibull.DensityAtLocation, Weibull.GammaSpread, Weibull.StandardQuantile and Weibull.Unclamped.
- Predicates that only name a condition used in contracts: BetaPrime.Stationary, FisherZ.Stationary, FisherZ.DensityLaws, FisherZ.MedianLaws, Nakagami.MedianLaws, Cosine.KeplerRegion and MomentCache.Consistent.
- Proof steps with no row, because each states real or extended-real arithmetic, or one step of a lemma in the table, and no source line on its own: ApproxUtil.LastCoefficient, ApproxUtil.Recombine, ApproxUtil.ShiftSplit, ApproxUtil.UnfoldStep, Burr.ModeBase, Burr.NegatedPower, Burr.SameReciprocal, Cauchy.FiniteDensity, Cauchy.NonFiniteDensity, Cauchy.NormPositive, Cauchy.StandardGammaSq, Cosine.KeplerSolution, Cosine.KeplerTailArith, Cosine.KurtosisBounds, Cosine.MeanAnomaly, Cosine.MirrorStandardize, Cosine.ReciprocalScale, Cosine.ScaledOffsetRange, Cosine.VarianceBounds, FisherZ.OddsPositive, Gumbel.ReflectAffine, InverseChiSquare.HalfOverInverse, InverseChiSquare.SkewnessPositive, LocationScale.ReflectIsNegated, LocationScale.ScaleInvariant, LocationScale.ShiftInvariant, LocationScale.StandardizeCompare, LocationScale.StandardizeSign, Nakagami.ExcessAlgebra, Nakagami.ExponentOfReals, Nakagami.LogNormParts, Nakagami.NaNExponent, Power.KurtosisAboveBound, Power.MeanBelowEnd, Power.ReciprocalBelow, Power.ScaleBack, Power.SkewnessSign, Rayleigh.ExponentAtRoot, Rayleigh.ExponentFinite, Rayleigh.ExponentOfScaledRoot, Rayleigh.KurtosisNumeratorPositive, Rayleigh.QuotientSign, Rayleigh.ScaledByPositive, Rayleigh.ScaledRootAbove, Rayleigh.ScaledRootAtOne, Rayleigh.ScaledRootBelowOne, Rayleigh.SkewnessPositive, Rayleigh.ZeroQuotient, Weibull.ExpAtNegatedZero, Weibull.ExpOfLogHalf, Weibull.ExpTailsSum, Weibull.NegatedExpm1, Weibull.ScaledGamma, Weibull.StandardPointAboveLocation, Weibull.StandardRoot, Weibull.UnitGammaSpread and Weibull.UnitStandardize.
- The modules Numerics (the kernel record and the laws lemmas may require), ExtReal (IEEE arithmetic on extended reals) and RealArith (real-arithmetic lemmas) model no source line on their own.

## Findings

| source | as written | input that shows it | evidently intended | confidence | as-written member | corrected member |
|---|---|---|---|---|---|---|
| DoubleDoubleStatistic/LinearityDistribution/WeibullDistribution.cs:94-99 | the Upper quantile clamps a negative mu + u theta to 0 | mu = -1, p = 1: the result is 0 and the Upper tail there is below 1 | clamp to the location mu, so the Upper quantile at p = 1 is mu | not executed | Weibull.UpperQuantileAsWrittenMissesLocation | Weibull.UpperQuantileAtOne |
| DoubleDoubleDistribution/ContinuousDistribution/BetaPrimeDistribution.cs:92-94 | Mode is alpha - 1/(beta + 1) | alpha = 2, beta = 1: it gives 3/2, where the density is not stationary | (alpha - 1)/(beta + 1), which is 1/2 there | not executed | BetaPrime.ModeAsWrittenCounterexample | BetaPrime.ModeIsStationary |
| DoubleDoubleDistribution/ContinuousDistribution/BetaPrimeDistribution.cs:38 | the Lower tail has no x = +inf guard, so it evaluates I(inf/inf) | x = +inf: the Lower tail is NaN and the two tails do not sum to 1 | Lower tail 1 at +inf | not executed | BetaPrime.CDFAsWrittenAtInfinity | BetaPrime.CDFComplement |
| DoubleDoubleDistribution/ContinuousDistribution/BurrDistribution.cs:27-29 | the density divides by x pow(x^c + 1, k + 1) without guarding 0 or +inf | x = 0 gives 0/0 and x = +inf gives inf/inf, both NaN | the limit of the density at both ends | not executed; medium, because the limit at 0 is +inf for c < 1 | Burr.PDFAsWrittenNaNAtZero | Burr.PDFNonNegative |
| DoubleDoubleDistribution/ContinuousDistribution/RayleighDistribution.cs:25 | the density at +inf is inf/sigma^2 times exp(-inf) | x = +inf: inf times 0 is NaN | 0 at +inf | not executed | Rayleigh.PDFAsWrittenNaNAtInfinity | Rayleigh.PDFNonNegative |
| DoubleDoubleStatistic/LinearityDistribution/WeibullDistribution.cs:44-46 | the density is pow2(-2^v lb e + v)/u with v = alpha lb u and no x = +inf guard | x = +inf: v = +inf, so the exponent is -inf + inf and the density is NaN | 0 at +inf | not executed | Weibull.PDFAsWrittenNaNAtInfinity | Weibull.PDF |
| DoubleDoubleDistribution/ContinuousDistribution/BetaPrimeDistribution.cs:27 | the density is exp(log(x)(alpha - 1) - log1p(x)(alpha + beta)) with no x = +inf guard | x = +inf with alpha = 2: the exponent is inf - inf, and with alpha = 1 it is inf times 0; both give NaN | 0 at +inf | not executed | BetaPrime.PDFAsWrittenNaNAtInfinity | BetaPrime.PDF |
| DoubleDoubleDistribution/ContinuousDistribution/NakagamiDistribution.cs:34-45 | the tails have no x <= 0 guard and see only x^2 | x = -1: the Lower tail equals the one at 1, which is positive | Lower tail 0 and Upper tail 1 at and below 0 | not executed | Nakagami.CDFAsWrittenBelowZero | Nakagami.CDFComplement |
| DoubleDoubleDistribution/ContinuousDistribution/NakagamiDistribution.cs:21 | the normaliser is -logGamma(m) + m log(2m/omega) | m = 2: the density is twice the true one, so it integrates to 2 | log 2 - logGamma(m) + m log(m/omega), the log of 2 (m/omega)^m/Gamma(m) | not executed | Nakagami.PDFAsWrittenDoubles | Nakagami.PDFIsTransformedGamma |
| DoubleDoubleDistribution/ContinuousDistribution/NakagamiDistribution.cs:29 | the density is exp(log(x)(2m - 1) - (m/omega) x^2 + lognorm) with no end guards | x = +inf gives +inf - +inf; x = 0 with m = 1/2 gives -inf times 0; both are NaN | 0 at +inf and the finite limit at 0 | not executed | Nakagami.PDFAsWrittenNaNAtInfinity | Nakagami.PDFPositive |
| DoubleDoubleDistribution/ContinuousDistribution/FisherZDistribution.cs:23 | the density is pow2 of an exponent that is +inf - +inf at x = +inf | x = +inf: NaN | 0 at +inf, as the DoubleDoubleStatistic implementation returns | not executed | FisherZ.PDFNaNAtInfinity | FisherZStatistic.PDFAtInfinity |
