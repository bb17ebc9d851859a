/** The standardised variable shared by every location-scale family: each
    formula of such a family is written in terms of u = (x - mu) * (1/scale)
    (or its reflection (mu - x) * (1/scale)), which is why shifting or scaling
    the parameters and the argument together leaves every statistic unchanged. */
module LocationScale {
  import opened ExtReal

  /** u = (x - mu) * (1/scale). */
  function Standardize(x: XReal, mu: real, scale: real): (u: XReal)
    requires scale > 0.0
    ensures x.NaN? <==> u.NaN?
    ensures x.PosInf? <==> u.PosInf?
    ensures x.NegInf? <==> u.NegInf?
    ensures x.Finite? ==> u.Finite? && u.v * scale == x.v - mu
  {
    Mul(Sub(x, Finite(mu)), Finite(1.0 / scale))
  }

  /** (mu - x) * (1/scale): the standardised variable seen from the other tail. */
  function Reflect(x: XReal, mu: real, scale: real): XReal
    requires scale > 0.0
  {
    Mul(Sub(Finite(mu), x), Finite(1.0 / scale))
  }

  /** The reflected variable is the negated standardised variable, for every
      argument including the infinities and NaN. */
  lemma ReflectIsNegated(x: XReal, mu: real, scale: real)
    requires scale > 0.0
    ensures Reflect(x, mu, scale) == Neg(Standardize(x, mu, scale))
  {
    assert 1.0 / scale > 0.0;
    match x
    case Finite(v) =>
      assert (mu - v) * (1.0 / scale) == -((v - mu) * (1.0 / scale));
    case _ =>
  }

  /** u is at most 0 exactly when x is at most mu. */
  lemma StandardizeSign(x: XReal, mu: real, scale: real)
    requires scale > 0.0
    ensures Le(Standardize(x, mu, scale), Zero) <==> Le(x, Finite(mu))
    ensures Lt(Standardize(x, mu, scale), Zero) <==> Lt(x, Finite(mu))
    ensures Eq(Standardize(x, mu, scale), Zero) <==> Eq(x, Finite(mu))
  {
    if x.Finite? {
      var u := Standardize(x, mu, scale);
      assert u.v * scale == x.v - mu;
      if u.v <= 0.0 { assert u.v * scale <= 0.0; }
      if u.v < 0.0 { assert u.v * scale < 0.0; }
      if u.v > 0.0 { assert u.v * scale > 0.0; }
    }
  }

  /** u is at most c exactly when x is at most mu + c scale, and at least c
      exactly when x is at least mu + c scale. */
  lemma StandardizeCompare(x: XReal, mu: real, scale: real, c: real)
    requires scale > 0.0
    ensures Le(Standardize(x, mu, scale), Finite(c)) <==> Le(x, Finite(mu + c * scale))
    ensures Ge(Standardize(x, mu, scale), Finite(c)) <==> Ge(x, Finite(mu + c * scale))
  {
    if x.Finite? {
      var u := Standardize(x, mu, scale);
      assert u.v * scale == x.v - mu;
      assert (c - u.v) * scale == c * scale - (x.v - mu);
      if u.v < c { assert (c - u.v) * scale > 0.0; }
      if u.v > c { assert (u.v - c) * scale > 0.0; }
    }
  }

  /** Shifting the argument and the location by the same s leaves u unchanged. */
  lemma ShiftInvariant(x: XReal, mu: real, scale: real, s: real)
    requires scale > 0.0
    ensures Standardize(Add(x, Finite(s)), mu + s, scale) == Standardize(x, mu, scale)
  {
  }

  /** Multiplying the argument, the location and the scale by the same
      positive c leaves u unchanged. */
  lemma ScaleInvariant(x: XReal, mu: real, scale: real, c: real)
    requires scale > 0.0 && c > 0.0
    ensures Standardize(Mul(x, Finite(c)), mu * c, scale * c) == Standardize(x, mu, scale)
  {
    if x.Finite? {
      var u := Standardize(x, mu, scale);
      var u' := Standardize(Mul(x, Finite(c)), mu * c, scale * c);
      assert u'.v * (scale * c) == x.v * c - mu * c;
      assert (u'.v * scale) * c == (x.v - mu) * c;
      assert u'.v * scale == x.v - mu;
      assert u.v * scale == x.v - mu;
      assert (u'.v - u.v) * scale == 0.0;
    }
  }
}
