/** Small facts about products, integer quotients and remainders. Each
    nonlinear step the rest of the model needs is stated here once, so
    the proofs that use it only reason linearly. */
module Arith {

  lemma MulSign(a: int, b: int)
    ensures a >= 0 && b >= 0 ==> a * b >= 0
  {
  }

  lemma MulDiff(a: int, b: int, d: int)
    ensures a * d - b * d == (a - b) * d
  {
  }

  lemma MulNeg(a: int, d: int)
    ensures (-a) * d == -(a * d) && a * (-d) == -(a * d)
  {
  }

  /** Multiplying by a non-negative number preserves order. */
  lemma MulMonotone(a: int, b: int, d: int)
    requires d >= 0
    ensures a <= b ==> a * d <= b * d
  {
    MulSign(b - a, d);
    MulDiff(b, a, d);
  }

  /** The only multiple of d strictly between -d and d is zero. */
  lemma {:induction false} MultipleBetween(e: int, d: int)
    requires d > 0 && -d < e * d < d
    ensures e == 0
  {
    MulMonotone(1, e, d);
    MulMonotone(e, -1, d);
    MulNeg(1, d);
  }

  /** Floor division by a positive divisor brackets the dividend. */
  lemma FloorDivBounds(x: int, d: int)
    requires d > 0
    ensures (x / d) * d <= x < (x / d) * d + d
  {
    var q, r := x / d, x % d;
    assert x == d * q + r;
    assert d * q == q * d;
  }

  /** Quotient and remainder are determined by any decomposition
      k == q*d + r with 0 <= r < d. */
  lemma {:induction false} DivModUnique(k: int, d: int, q: int, r: int)
    requires d > 0 && 0 <= r < d && k == q * d + r
    ensures k / d == q && k % d == r
  {
    var q', r' := k / d, k % d;
    assert k == d * q' + r';
    assert d * q' == q' * d;
    MulDiff(q, q', d);
    MultipleBetween(q - q', d);
  }

  /** A square is at least its root, and only 0 squares to 0. */
  lemma SquareGrows(n: nat)
    ensures n <= n * n
    ensures n * n == 0 ==> n == 0
  {
    MulMonotone(1, n, n);
  }

  /** (2q)^2 and (2q + 2)^2 in terms of q^2 and (q + 1)^2. */
  lemma Doubled(q: int)
    ensures (2 * q) * (2 * q) == 4 * (q * q)
    ensures (2 * q + 2) * (2 * q + 2) == 4 * ((q + 1) * (q + 1))
  {
  }
}
