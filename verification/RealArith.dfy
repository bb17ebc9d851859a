/** Facts about real multiplication and division that the solver does not
    find on its own; each is stated over plain variables so that callers can
    instantiate it with named intermediate values. */
module RealArith {

  lemma SquareNonNegative(t: real)
    ensures t * t >= 0.0
  {
    if t < 0.0 {
      var s := -t;
      assert s * s > 0.0;
      assert t * t == s * s;
    }
  }

  lemma ProductPositive(a: real, b: real)
    requires a > 0.0 && b > 0.0
    ensures a * b > 0.0
  {
  }

  /** n/s <= n/m for n > 0 and s >= m > 0. */
  lemma QuotientAntitone(n: real, m: real, s: real)
    requires n > 0.0 && m > 0.0 && s >= m
    ensures n / s <= n / m
  {
    assert n / s * s == n;
    assert n / m * m == n;
    assert n / s * m <= n / s * s;
  }

  lemma QuotientPositive(n: real, s: real)
    requires n > 0.0 && s > 0.0
    ensures n / s > 0.0
  {
  }

  /** The square s of a positive x is positive. The square is passed in as
      s so that the solver meets x * x only inside this lemma. */
  lemma SquarePositive(x: real, s: real)
    requires x > 0.0 && s == x * x
    ensures s > 0.0
  {
    assert s / x == x;
  }

  /** x/(x + 1) and 1/(x + 1) split 1 for x >= 0, the first lying in [0, 1). */
  lemma OddsToProbability(x: real)
    requires x >= 0.0
    ensures 0.0 <= x / (x + 1.0) < 1.0
    ensures x / (x + 1.0) + 1.0 / (x + 1.0) == 1.0
  {
    assert x / (x + 1.0) * (x + 1.0) == x;
  }

  /** u/(1 - u) is a non-negative odds whose probability x/(x + 1) is u again,
      for u in [0, 1). */
  lemma ProbabilityToOdds(u: real)
    requires 0.0 <= u < 1.0
    ensures u / (1.0 - u) >= 0.0
    ensures (u / (1.0 - u)) / (u / (1.0 - u) + 1.0) == u
  {
    var x := u / (1.0 - u);
    if u > 0.0 { QuotientPositive(u, 1.0 - u); }
    assert x * (1.0 - u) == u;
    assert x + 1.0 == 1.0 / (1.0 - u) by {
      assert (x + 1.0) * (1.0 - u) == 1.0;
    }
    assert x / (x + 1.0) == x * (1.0 - u);
  }

  /** A factor b of a positive product b c with c > 0 is positive. */
  lemma FactorPositive(c: real, b: real, p: real)
    requires c > 0.0 && b * c == p && p > 0.0
    ensures b > 0.0
  {
    assert b == p / c;
  }

  /** A non-negative square root of a positive value is positive. */
  lemma RootPositive(s: real, y: real)
    requires s >= 0.0 && s * s == y && y > 0.0
    ensures s > 0.0
  {
    assert s == 0.0 ==> s * s == 0.0;
  }

  /** The only non-negative square root of 0 is 0. */
  lemma RootZero(s: real)
    requires s >= 0.0 && s * s == 0.0
    ensures s == 0.0
  {
    if s > 0.0 { SquarePositive(s, s * s); }
  }

  /** A non-negative square root of a value above 1 is above 1. */
  lemma RootAboveOne(s: real, y: real)
    requires s >= 0.0 && s * s == y && y > 1.0
    ensures s > 1.0
  {
    assert (s - 1.0) * (s + 1.0) == y - 1.0;
    FactorPositive(s + 1.0, s - 1.0, y - 1.0);
  }

  /** n/s < n/m for n > 0 and s > m > 0. */
  lemma QuotientStrictAntitone(n: real, m: real, s: real)
    requires n > 0.0 && m > 0.0 && s > m
    ensures n / s < n / m
  {
    var a := n / s;
    var b := n / m;
    assert a * s == n;
    assert b * m == n;
    QuotientPositive(n, s);
    ProductPositive(a, s - m);
    assert m * a < m * b;
    ProductCancelLt(m, a, b);
  }

  /** x lies below 1/c exactly when x c lies below 1, for c > 0. */
  lemma BelowReciprocal(x: real, c: real)
    requires c > 0.0
    ensures x < 1.0 / c <==> x * c < 1.0
  {
    var m := 1.0 / c;
    assert m * c == 1.0;
    BelowInverse(x, m, c);
  }

  /** The same with the inverse m of c named, so that no division is in
      sight. */
  lemma BelowInverse(x: real, m: real, c: real)
    requires c > 0.0 && m * c == 1.0
    ensures x < m <==> x * c < 1.0
  {
    if x < m {
      var g := (m - x) * c;
      ProductPositive(m - x, c);
      DistributeDifference(m, x, c);
      assert g == 1.0 - x * c && g > 0.0;
    } else {
      var g := (x - m) * c;
      if x > m { ProductPositive(x - m, c); } else { assert g == 0.0; }
      DistributeDifference(x, m, c);
      assert g == x * c - 1.0 && g >= 0.0;
    }
  }

  /** (a - b) c = a c - b c. */
  lemma DistributeDifference(a: real, b: real, c: real)
    ensures (a - b) * c == a * c - b * c
  {
  }

  /** A positive factor cancels from a strict inequality. */
  lemma ProductCancelLt(c: real, a: real, b: real)
    requires c > 0.0 && c * a < c * b
    ensures a < b
  {
    assert c * (b - a) > 0.0;
  }

  /** Standardising mu + u * theta recovers u. */
  lemma StandardizeAffine(mu: real, u: real, theta: real)
    requires theta > 0.0
    ensures (mu + u * theta - mu) * (1.0 / theta) == u
    ensures (mu - (mu - theta * u)) * (1.0 / theta) == u
  {
    assert mu + u * theta - mu == u * theta;
    assert mu - (mu - theta * u) == u * theta;
    assert u * theta * (1.0 / theta) == u * (theta * (1.0 / theta));
  }
}
