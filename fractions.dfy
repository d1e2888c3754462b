/** Facts about real-valued fractions and weighted sums used by the reward formulas. */
module Fractions {
  /** Multiplying by a positive number keeps the sign. */
  lemma {:induction false} ScaleSign(d: real, n: real)
    requires 0.0 < n
    ensures d < 0.0 ==> d * n < 0.0
    ensures d > 0.0 ==> d * n > 0.0
  {
  }

  /** A part `x` of a positive whole `n` is a fraction in [0, 1], 1 for the whole and 0 for nothing. */
  lemma {:induction false} Fraction(x: real, n: real)
    requires 0.0 < n && 0.0 <= x <= n
    ensures 0.0 <= x / n <= 1.0
    ensures x / n == 1.0 <==> x == n
    ensures x / n == 0.0 <==> x == 0.0
  {
    var a := x / n;
    assert a * n == x;
    ScaleSign(a, n);
    ScaleSign(a - 1.0, n);
    assert (a - 1.0) * n == x - n;
  }

  /** Scaling by a non-negative factor keeps the order. */
  lemma {:induction false} ScaleMonotone(c: real, a: real, b: real)
    requires 0.0 <= c && a <= b
    ensures c * a <= c * b
  {
    if c > 0.0 && a < b {
      ScaleSign(b - a, c);
      assert (b - a) * c == c * b - c * a;
    }
  }

  /** A non-negative weight times a fraction in [0, 1] lies between 0 and the weight. */
  lemma {:induction false} BoundedProduct(c: real, x: real) returns (p: real)
    requires 0.0 <= c && 0.0 <= x <= 1.0
    ensures p == c * x && 0.0 <= p <= c
    ensures 0.0 < c && x < 1.0 ==> p < c
    ensures 0.0 < c && 0.0 < x ==> 0.0 < p
  {
    ScaleMonotone(c, 0.0, x);
    ScaleMonotone(c, x, 1.0);
    if 0.0 < c {
      ScaleSign(1.0 - x, c);
      ScaleSign(x, c);
    }
    p := c * x;
  }
}
