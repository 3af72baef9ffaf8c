/**
 Small facts about products and quotients of reals. `Times` and `Over` give the
 verifier a function symbol to match on where a bare operator would not.
 */
module RealArith {

  function Times(x: real, y: real): real { x * y }

  function Over(a: real, b: real): real
    requires b > 0.0
  {
    a / b
  }

  lemma TimesPositive(x: real, y: real)
    requires x > 0.0 && y > 0.0
    ensures Times(x, y) > 0.0
  {
    assert x * y > 0.0;
  }

  lemma TimesNonNegative(x: real, y: real)
    requires x >= 0.0 && y >= 0.0
    ensures Times(x, y) >= 0.0
  {
    assert x * y >= 0.0;
  }

  lemma OverFacts(a: real, b: real)
    requires a >= 0.0 && b > 0.0
    ensures Over(a, b) >= 0.0 && Over(a, b) * b == a
    ensures a > 0.0 ==> Over(a, b) > 0.0
  {}

  // The quotient is the only solution of x * b == a.
  lemma OverUnique(a: real, b: real, x: real)
    requires b > 0.0 && x * b == a
    ensures Over(a, b) == x
  {}

  lemma OverOrder(a: real, c: real, b: real)
    requires b > 0.0
    ensures a <= c <==> Over(a, b) <= Over(c, b)
    ensures a < c <==> Over(a, b) < Over(c, b)
  {}

  lemma SquareOrder(a: real, b: real)
    requires a >= 0.0 && b >= 0.0
    ensures a <= b <==> a * a <= b * b
    ensures a < b <==> a * a < b * b
  {
    assert b * b - a * a == (b - a) * (b + a);
    if a < b {
      TimesPositive(b - a, b + a);
    } else if b < a {
      TimesPositive(a - b, b + a);
      assert (a - b) * (b + a) == -((b - a) * (b + a));
    }
  }

  // The sign of a product with a positive factor is the sign of the other factor.
  lemma FactorSign(a: real, b: real)
    requires b > 0.0
    ensures a * b >= 0.0 ==> a >= 0.0
    ensures a * b > 0.0 ==> a > 0.0
  {
    if a < 0.0 { TimesPositive(-a, b); }
  }
}
