/** The arithmetic the matrix algorithms are written against.

    The C++ algorithms use the fixed-point number type's operators and
    nothing else; the model makes that vocabulary an explicit record of
    total functions, so that one definition of each algorithm serves two
    instantiations:
      - `Fixed(S)`: raw integers at one shared shift S, with the rounding
        conventions of the `FixedPoint` module (what the program computes);
      - `Exact()`: Dafny's `real`, i.e. exact rational arithmetic (what the
        program approximates), used for algebraic correctness.
    Both are total: a division by zero is screened out by the algorithms,
    which report it as a fault before the divisor reaches `div`. */
module Numeric {
  import opened FixedPoint

  datatype Ops<!T> = Ops(
    zero: T,
    one: T,
    add: (T, T) -> T,
    sub: (T, T) -> T,
    mul: (T, T) -> T,
    div: (T, T) -> T,
    neg: T -> T)

  /** Fixed-point arithmetic at shift S. */
  function Fixed(S: nat): (A: Ops<int>)
    ensures A.zero == 0 && A.one == One(S)
  {
    Ops(0, One(S),
        (a: int, b: int) => a + b,
        (a: int, b: int) => a - b,
        (a: int, b: int) => Mul(S, a, b),
        (a: int, b: int) => if b == 0 then 0 else Div(S, a, b),
        (a: int) => -a)
  }

  /** Exact rational arithmetic. */
  function Exact(): (A: Ops<real>)
    ensures A.zero == 0.0 && A.one == 1.0
  {
    Ops(0.0, 1.0,
        (a: real, b: real) => a + b,
        (a: real, b: real) => a - b,
        (a: real, b: real) => a * b,
        (a: real, b: real) => if b == 0.0 then 0.0 else a / b,
        (a: real) => -a)
  }

  /** The few algebraic facts the structural lemmas rely on: zero absorbs
      a product, a zero dividend gives a zero quotient, subtracting zero
      changes nothing, and multiplication commutes. */
  ghost predicate Laws<T(!new)>(A: Ops<T>)
  {
    && (forall x :: A.mul(A.zero, x) == A.zero)
    && (forall x, y :: A.mul(x, y) == A.mul(y, x))
    && (forall d :: A.div(A.zero, d) == A.zero)
    && (forall z :: A.sub(z, A.zero) == z)
  }

  lemma FixedLaws(S: nat)
    ensures Laws(Fixed(S))
  {
    var A := Fixed(S);
    forall x: int ensures A.mul(A.zero, x) == A.zero {
      assert 0 * x == 0;
    }
    forall x: int, y: int ensures A.mul(x, y) == A.mul(y, x) {
      assert x * y == y * x;
    }
    forall d: int ensures A.div(A.zero, d) == A.zero {
      if d != 0 {
        assert 0 * Pow2(S) == 0;
        assert TruncDiv(0, d) == 0;
      }
    }
  }

  lemma ExactLaws()
    ensures Laws(Exact())
  {
  }
}
