/** Fixed-point arithmetic on raw multiple-precision integers.

    A raw integer `r` at shift `S` stands for the rational `r / 2^S`; every
    element of a matrix shares one shift. Addition and subtraction are exact
    on raws. Multiplication, division and square root each take one
    declared rounding convention:
      - Mul(S, a, b)  = floor(a*b / 2^S)   (the product shifted right by S)
      - Div(S, a, b)  = trunc(a*2^S / b)   (truncating, like GMP's tdiv)
      - Sqrt(S, a)    = isqrt(a * 2^S)     (doubling precision first)
    The C++ number type that implements these is not part of this model. */
module FixedPoint {
  import opened Arith

  /** 2^e */
  function Pow2(e: nat): (r: nat)
    ensures r >= 1
  {
    if e == 0 then 1 else 2 * Pow2(e - 1)
  }

  lemma {:induction false} Pow2Add(a: nat, b: nat)
    ensures Pow2(a + b) == Pow2(a) * Pow2(b)
  {
    if a > 0 {
      Pow2Add(a - 1, b);
      assert Pow2(a + b) == 2 * Pow2(a - 1 + b);
    }
  }

  function Abs(x: int): nat
  {
    if x < 0 then -x else x
  }

  /** The rational number a raw integer stands for at shift S. */
  function Value(S: nat, raw: int): real
  {
    raw as real / Pow2(S) as real
  }

  /** The raw integer standing for 1 at shift S. */
  function One(S: nat): (r: int)
    ensures r > 0 && Value(S, r) == 1.0
  {
    var p := Pow2(S) as real;
    assert p > 0.0;
    assert p / p == 1.0;
    Pow2(S)
  }

  /** Integer quotient rounded toward zero (the remainder takes the
      dividend's sign), which is what GMP's `/` on integers does. */
  function TruncDiv(n: int, d: int): (q: int)
    requires d != 0
    ensures n >= 0 ==> 0 <= n - q * d < Abs(d)
    ensures n < 0 ==> -(Abs(d) as int) < n - q * d <= 0
  {
    if n >= 0 && d > 0 then
      FloorDivBounds(n, d);
      n / d
    else if n >= 0 then
      var q := n / (-d);
      FloorDivBounds(n, -d);
      MulNeg(q, d);
      -q
    else if d > 0 then
      var q := (-n) / d;
      FloorDivBounds(-n, d);
      MulNeg(q, d);
      -q
    else
      var q := (-n) / (-d);
      FloorDivBounds(-n, -d);
      MulNeg(q, d);
      q
  }

  /** Fixed-point product: the exact product of the raws carries 2S
      fractional bits; shifting it right by S (rounding toward minus
      infinity) brings it back to shift S. */
  function Mul(S: nat, a: int, b: int): (r: int)
    ensures r * Pow2(S) <= a * b < (r + 1) * Pow2(S)
  {
    var p := Pow2(S);
    FloorDivBounds(a * b, p);
    MulDiff((a * b) / p + 1, (a * b) / p, p);
    (a * b) / p
  }

  /** Fixed-point quotient: the dividend is shifted left by S before the
      truncating integer division, so the quotient lands at shift S. */
  function Div(S: nat, a: int, b: int): (r: int)
    requires b != 0
    ensures Abs(a * Pow2(S) - r * b) < Abs(b)
    ensures a * Pow2(S) >= 0 ==> a * Pow2(S) - r * b >= 0
    ensures a * Pow2(S) <= 0 ==> a * Pow2(S) - r * b <= 0
  {
    TruncDiv(a * Pow2(S), b)
  }

  /** Integer square root: the largest r with r*r <= n. */
  function ISqrt(n: nat): (r: nat)
    ensures r * r <= n < (r + 1) * (r + 1)
  {
    if n < 4 then (if n == 0 then 0 else 1)
    else
      var q := ISqrt(n / 4);
      Doubled(q);
      var h := 2 * q;
      if (h + 1) * (h + 1) <= n then h + 1 else h
  }

  /** Fixed-point square root: the raw is shifted left by S first, so that
      the integer root of the result lands at shift S rather than S/2. */
  function Sqrt(S: nat, a: int): (r: nat)
    requires a >= 0
    ensures r * r <= a * Pow2(S) < (r + 1) * (r + 1)
  {
    ISqrt(a * Pow2(S))
  }

  function Factorial(n: nat): (r: nat)
    ensures r >= 1
  {
    if n == 0 then 1 else n * Factorial(n - 1)
  }
}
