/** Extended reals: the values an extended-precision floating-point scalar
    can take once rounding is ignored. A value is a finite real, one of the
    two infinities, or NaN. Arithmetic follows IEEE 754 on these classes
    (NaN propagates, `inf - inf`, `0 * inf` and `inf / inf` are NaN, a
    non-zero finite divided by zero is an infinity with the dividend's sign),
    and every ordered comparison involving NaN is false. Signed zero is not
    represented: zero is taken to be +0. */
module ExtReal {

  datatype XReal = Finite(v: real) | PosInf | NegInf | NaN

  const Zero: XReal := Finite(0.0)
  const One: XReal := Finite(1.0)
  const Half: XReal := Finite(0.5)

  /** The tail a cumulative probability or a quantile refers to. */
  datatype Interval = Lower | Upper

  predicate IsNaN(a: XReal) { a.NaN? }

  predicate IsFinite(a: XReal) { a.Finite? }

  predicate IsInfinity(a: XReal) { a.PosInf? || a.NegInf? }

  predicate IsPositiveInfinity(a: XReal) { a.PosInf? }

  predicate IsNegativeInfinity(a: XReal) { a.NegInf? }

  /** Strictly below zero (including -inf); NaN is not negative. */
  predicate IsNegative(a: XReal) { a.NegInf? || (a.Finite? && a.v < 0.0) }

  /** Position in the order -inf < finite < +inf. */
  function Rank(a: XReal): int
  {
    match a
    case NegInf => 0
    case Finite(_) => 1
    case PosInf => 2
    case NaN => 3
  }

  function Neg(a: XReal): XReal
  {
    match a
    case Finite(x) => Finite(-x)
    case PosInf => NegInf
    case NegInf => PosInf
    case NaN => NaN
  }

  function Add(a: XReal, b: XReal): XReal
  {
    if a.NaN? || b.NaN? then NaN
    else if a.Finite? && b.Finite? then Finite(a.v + b.v)
    else if (a.PosInf? && b.NegInf?) || (a.NegInf? && b.PosInf?) then NaN
    else if a.PosInf? || b.PosInf? then PosInf
    else NegInf
  }

  function Sub(a: XReal, b: XReal): XReal
  {
    Add(a, Neg(b))
  }

  function Mul(a: XReal, b: XReal): XReal
  {
    if a.NaN? || b.NaN? then NaN
    else if a.Finite? && b.Finite? then Finite(a.v * b.v)
    else if a == Zero || b == Zero then NaN
    else if IsNegative(a) == IsNegative(b) then PosInf
    else NegInf
  }

  function Div(a: XReal, b: XReal): XReal
  {
    if a.NaN? || b.NaN? then NaN
    else if b.Finite? && b.v != 0.0 then
      (if a.Finite? then Finite(a.v / b.v)
       else if IsNegative(a) == IsNegative(b) then PosInf
       else NegInf)
    else if b.Finite? then
      (if a == Zero then NaN else if IsNegative(a) then NegInf else PosInf)
    else if a.Finite? then Zero
    else NaN
  }

  function Square(a: XReal): XReal
  {
    Mul(a, a)
  }

  lemma MulOne(x: real)
    ensures Mul(Finite(x), One) == Finite(x)
  {
  }

  lemma DivOne(x: real)
    ensures Div(Finite(x), One) == Finite(x)
  {
  }

  /** Squaring forgets the sign. */
  lemma SquareNeg(a: XReal)
    ensures Square(Neg(a)) == Square(a)
  {
    if a.Finite? {
      var x := a.v;
      assert (-x) * (-x) == x * x;
    }
  }

  function Abs(a: XReal): XReal
  {
    if IsNegative(a) then Neg(a) else a
  }

  predicate Lt(a: XReal, b: XReal)
  {
    !a.NaN? && !b.NaN? &&
    if a.Finite? && b.Finite? then a.v < b.v else Rank(a) < Rank(b)
  }

  predicate Le(a: XReal, b: XReal)
  {
    !a.NaN? && !b.NaN? &&
    if a.Finite? && b.Finite? then a.v <= b.v else Rank(a) <= Rank(b)
  }

  predicate Gt(a: XReal, b: XReal) { Lt(b, a) }

  predicate Ge(a: XReal, b: XReal) { Le(b, a) }

  /** IEEE equality: NaN equals nothing, not even itself. */
  predicate Eq(a: XReal, b: XReal) { !a.NaN? && a == b }

  /** NaN-propagating maximum and minimum. */
  function Max(a: XReal, b: XReal): XReal
  {
    if a.NaN? || b.NaN? then NaN else if Ge(a, b) then a else b
  }

  function Min(a: XReal, b: XReal): XReal
  {
    if a.NaN? || b.NaN? then NaN else if Le(a, b) then a else b
  }

  /** 0 <= p <= 1; false for NaN. */
  predicate InRangeUnit(p: XReal)
  {
    Ge(p, Zero) && Le(p, One)
  }

  /** A probability strictly inside (0, 1). */
  predicate InOpenUnit(p: XReal)
  {
    p.Finite? && 0.0 < p.v < 1.0
  }
}
