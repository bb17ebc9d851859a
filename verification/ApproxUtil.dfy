/** Evaluation of precomputed approximation tables by Horner's scheme: a
    polynomial table holds the coefficients t[0..n-1] of t[0] + t[1] x + ...
    + t[n-1] x^(n-1); a Padé table holds pairs (c_i, d_i), the coefficients
    of a numerator and a denominator polynomial evaluated in lock-step.
    Arithmetic is over exact reals. Tables are sequences, so neither
    evaluator can alter the table it reads. */
module ApproxUtil {

  /** x^n */
  function Power(x: real, n: nat): real
  {
    if n == 0 then 1.0 else x * Power(x, n - 1)
  }

  /** The first n terms of the reference meaning of a table:
      t[0] + t[1] x + ... + t[n-1] x^(n-1). */
  function PartialSum(t: seq<real>, x: real, n: nat): real
    requires n <= |t|
  {
    if n == 0 then 0.0 else PartialSum(t, x, n - 1) + t[n - 1] * Power(x, n - 1)
  }

  /** The reference meaning of a table: the sum of t[i] x^i over all i. */
  function PowerSum(t: seq<real>, x: real): real
  {
    PartialSum(t, x, |t|)
  }

  /** Horner's nesting from index i on:
      t[i] + x (t[i+1] + x (... + x t[n-1])). */
  function HornerFrom(t: seq<real>, x: real, i: nat): real
    requires i < |t|
    decreases |t| - i
  {
    if i == |t| - 1 then t[i] else t[i] + x * HornerFrom(t, x, i + 1)
  }

  /** The numerator column of a Padé table. */
  function Numerators(table: seq<(real, real)>): seq<real>
  {
    seq(|table|, i requires 0 <= i < |table| => table[i].0)
  }

  /** The denominator column of a Padé table. */
  function Denominators(table: seq<(real, real)>): seq<real>
  {
    seq(|table|, i requires 0 <= i < |table| => table[i].1)
  }

  /** The algebra of one Horner step: with hi = c + x h, p' = x p and
      s' = s + c p, s + p hi = s' + p' h. */
  lemma Recombine(s: real, p: real, c: real, x: real, h: real, hi: real, s': real, p': real)
    requires hi == c + x * h && p' == x * p && s' == s + c * p
    ensures s + p * hi == s' + p' * h
  {
    assert p * (c + x * h) == c * p + (x * p) * h;
  }

  /** The terms below i plus x^i times the nesting from i. */
  function SplitAt(t: seq<real>, x: real, i: nat): real
    requires i < |t|
  {
    PartialSum(t, x, i) + Power(x, i) * HornerFrom(t, x, i)
  }

  /** The terms below i plus x^i times the nesting from i make up the whole
      power sum. */
  lemma {:induction false} HornerSplitsPowerSum(t: seq<real>, x: real, i: nat)
    requires i < |t|
    ensures SplitAt(t, x, i) == PowerSum(t, x)
    decreases |t| - i
  {
    if i < |t| - 1 {
      HornerSplitsPowerSum(t, x, i + 1);
      ShiftSplit(t, x, i);
    } else {
      LastCoefficient(t, x);
    }
  }

  /** The nesting from the last index is the last coefficient, which
      completes the power sum. */
  lemma LastCoefficient(t: seq<real>, x: real)
    requires |t| > 0
    ensures SplitAt(t, x, |t| - 1) == PowerSum(t, x)
  {
    var n := |t|;
    var p := Power(x, n - 1);
    assert HornerFrom(t, x, n - 1) == t[n - 1];
    assert PartialSum(t, x, n) == PartialSum(t, x, n - 1) + t[n - 1] * p;
    assert p * t[n - 1] == t[n - 1] * p;
  }

  /** Moving the split point from i to i + 1 keeps the total. */
  lemma ShiftSplit(t: seq<real>, x: real, i: nat)
    requires i < |t| - 1
    ensures SplitAt(t, x, i) == SplitAt(t, x, i + 1)
  {
    UnfoldStep(t, x, i);
    var s, p, h, hi := PartialSum(t, x, i), Power(x, i), HornerFrom(t, x, i + 1), HornerFrom(t, x, i);
    var s', p' := PartialSum(t, x, i + 1), Power(x, i + 1);
    Recombine(s, p, t[i], x, h, hi, s', p');
  }

  /** The three definitions, one step each, at index i. */
  lemma UnfoldStep(t: seq<real>, x: real, i: nat)
    requires i < |t| - 1
    ensures HornerFrom(t, x, i) == t[i] + x * HornerFrom(t, x, i + 1)
    ensures Power(x, i + 1) == x * Power(x, i)
    ensures PartialSum(t, x, i + 1) == PartialSum(t, x, i) + t[i] * Power(x, i)
  {
  }

  /** Horner's nesting computes the power sum. */
  lemma HornerIsPowerSum(t: seq<real>, x: real)
    requires |t| > 0
    ensures HornerFrom(t, x, 0) == PowerSum(t, x)
  {
    HornerSplitsPowerSum(t, x, 0);
    assert Power(x, 0) == 1.0 && PartialSum(t, x, 0) == 0.0;
  }

  /** Polynomial evaluation: the accumulator starts at the highest-degree
      coefficient and absorbs one coefficient per step, downwards. */
  method Poly(x: real, table: seq<real>) returns (s: real)
    requires |table| > 0
    ensures s == PowerSum(table, x)
    ensures |table| == 1 ==> s == table[0]
  {
    s := table[|table| - 1];
    var i := |table| - 2;
    while i >= 0
      invariant -1 <= i <= |table| - 2
      invariant s == HornerFrom(table, x, i + 1)
    {
      s := s * x + table[i];
      i := i - 1;
    }
    HornerIsPowerSum(table, x);
  }

  /** Padé evaluation: numerator and denominator accumulators advance over
      the same indices; the result is their quotient. The two debug-build
      assertions of the source become preconditions: x is non-negative and
      the denominator polynomial at x is at least 1/2. */
  method Pade(x: real, table: seq<(real, real)>) returns (r: real)
    requires |table| > 0
    requires x >= 0.0
    requires PowerSum(Denominators(table), x) >= 0.5
    ensures r == PowerSum(Numerators(table), x) / PowerSum(Denominators(table), x)
  {
    var cs, ds := Numerators(table), Denominators(table);
    var sc, sd := table[|table| - 1].0, table[|table| - 1].1;
    var i := |table| - 2;
    while i >= 0
      invariant -1 <= i <= |table| - 2
      invariant sc == HornerFrom(cs, x, i + 1)
      invariant sd == HornerFrom(ds, x, i + 1)
    {
      sc := sc * x + table[i].0;
      sd := sd * x + table[i].1;
      i := i - 1;
    }
    HornerIsPowerSum(cs, x);
    HornerIsPowerSum(ds, x);
    r := sc / sd;
  }

  /** A one-entry Padé table {(c0, d0)} with d0 >= 1/2 evaluates to c0 / d0
      at every non-negative x. */
  lemma SingleEntryPade(c0: real, d0: real, x: real)
    requires x >= 0.0 && d0 >= 0.5
    ensures PowerSum(Denominators([(c0, d0)]), x) == d0
    ensures PowerSum(Numerators([(c0, d0)]), x) / PowerSum(Denominators([(c0, d0)]), x) == c0 / d0
  {
    assert Numerators([(c0, d0)]) == [c0];
    assert Denominators([(c0, d0)]) == [d0];
    assert Power(x, 0) == 1.0;
    assert PartialSum([c0], x, 1) == PartialSum([c0], x, 0) + c0 * Power(x, 0);
    assert PartialSum([d0], x, 1) == PartialSum([d0], x, 0) + d0 * Power(x, 0);
  }
}
