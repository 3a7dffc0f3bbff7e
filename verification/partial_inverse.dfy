/** The partial-inverse assembly of `inversion` (src/main.cpp): factor the
    column-oriented input as L.D.L^t in place, take the diagonal D out
    (leaving L with a unit diagonal), lay L out by rows, invert it, copy
    and transpose the inverse, and fill the leading block of the output
    with entries of (L^t)^-1 . D^-1 . L^-1. Only the block of side
    min(InvDim, dim) is computed; the rest of the output is left alone. */
module PartialInverse {
  import opened Faults
  import opened Numeric
  import opened Dense
  import opened Ldlt
  import opened Diagonal
  import opened UnitInverse

  /** Side of the leading block of the inverse that is assembled. */
  const InvDim: nat := 10

  function BlockSize(dim: nat): (b: nat)
    ensures b <= dim && b <= InvDim && (b == dim || b == InvDim)
  {
    if dim < InvDim then dim else InvDim
  }

  /** What `inversion` leaves behind: the input matrix now holds L^-1 by
      rows, the diagonal vector holds D, and the output holds the block. */
  datatype Outcome<T> = Outcome(lInverse: Matrix<T>, diagonal: seq<T>, mInverse: Matrix<T>)

  /** The sum for output cell (i, j) over k < n: each term multiplies first
      and divides by d[k] second, and the sum starts from fixed-point zero. */
  function BlockSum<T>(A: Ops<T>, lt: Matrix<T>, lInv: Matrix<T>, d: seq<T>, i: nat, j: nat, n: nat): T
    requires Square(lt) && Square(lInv) && |lt| == |lInv| == |d|
    requires i < |lt| && j < |lt| && n <= |lt|
  {
    if n == 0 then A.zero
    else A.add(BlockSum(A, lt, lInv, d, i, j, n - 1), A.div(A.mul(lt[i][n - 1], lInv[n - 1][j]), d[n - 1]))
  }

  /** The triple loop: block cells get their sums, all other cells of the
      output keep their value. */
  function Assemble<T>(A: Ops<T>, lt: Matrix<T>, lInv: Matrix<T>, d: seq<T>, out: Matrix<T>): (r: Matrix<T>)
    requires Square(lt) && Square(lInv) && |lt| == |lInv| == |d|
    requires Square(out) && BlockSize(|lt|) <= |out|
    ensures Square(r) && |r| == |out|
    ensures forall i, j | 0 <= i < |out| && 0 <= j < |out| && (i >= BlockSize(|lt|) || j >= BlockSize(|lt|)) ::
      r[i][j] == out[i][j]
    ensures forall i, j | 0 <= i < BlockSize(|lt|) && 0 <= j < BlockSize(|lt|) ::
      r[i][j] == BlockSum(A, lt, lInv, d, i, j, |lt|)
  {
    var b := BlockSize(|lt|);
    seq(|out|, i requires 0 <= i < |out| =>
      seq(|out|, j requires 0 <= j < |out| =>
        if i < b && j < b then BlockSum(A, lt, lInv, d, i, j, |lt|) else out[i][j]))
  }

  /** The zero-filled diagonal vector `inversion` allocates. */
  function Zeros<T>(A: Ops<T>, n: nat): (z: seq<T>)
    ensures |z| == n
  {
    seq(n, _ => A.zero)
  }

  /** L by rows, read off a column-oriented factor with D on its diagonal:
      ones on the diagonal, the factor's cells below it, and above it the
      factor's cells there (which the factorisation never writes). */
  function RowFactor<T>(A: Ops<T>, f: Matrix<T>): (l: Matrix<T>)
    requires Square(f)
    ensures Square(l) && |l| == |f|
    ensures forall r, c | 0 <= r < |f| && 0 <= c < |f| :: l[r][c] == if r == c then A.one else f[c][r]
  {
    seq(|f|, r requires 0 <= r < |f| =>
      seq(|f|, c requires 0 <= c < |f| => if r == c then A.one else f[c][r]))
  }

  /** The pipeline. A zero pivot aborts the factorisation; an empty matrix
      makes the diagnostic read of the last diagonal entry go out of
      bounds; a zero diagonal entry is a zero divisor in the sums. */
  function Inversion<T(==)>(A: Ops<T>, m: Matrix<T>, out: Matrix<T>): (r: Result<Outcome<T>>)
    requires Square(m) && Square(out) && BlockSize(|m|) <= |out|
    ensures Decompose(A, m).Err? ==> r == Err(DivisionByZero)
    ensures Decompose(A, m).Ok? && |m| == 0 ==> r == Err(OutOfBounds)
    ensures Decompose(A, m).Ok? && |m| > 0 ==>
      (r.Err? <==> exists k | 0 <= k < |m| :: Decompose(A, m).value[k][k] == A.zero)
    ensures r.Err? ==> r.fault in {DivisionByZero, OutOfBounds}
    ensures r.Ok? ==> Decompose(A, m).Ok? && |r.value.diagonal| == |m|
    ensures r.Ok? ==> forall k | 0 <= k < |m| ::
      r.value.diagonal[k] == Decompose(A, m).value[k][k] && r.value.diagonal[k] != A.zero
    ensures r.Ok? ==> r.value.lInverse == Invert(A, RowFactor(A, Decompose(A, m).value))
    ensures r.Ok? ==> Square(r.value.mInverse) && |r.value.mInverse| == |out|
    ensures r.Ok? ==> forall i, j | 0 <= i < |out| && 0 <= j < |out| && (i >= BlockSize(|m|) || j >= BlockSize(|m|)) ::
      r.value.mInverse[i][j] == out[i][j]
    ensures r.Ok? ==> forall i, j | 0 <= i < BlockSize(|m|) && 0 <= j < BlockSize(|m|) ::
      r.value.mInverse[i][j] == BlockSum(A, Transpose(r.value.lInverse), r.value.lInverse, r.value.diagonal, i, j, |m|)
  {
    match Decompose(A, m)
    case Err(f) => Err(f)
    case Ok(f) =>
      var s := ExtractDiagonal(A, f, Zeros(A, |m|), true).value;
      if |m| == 0 then Err(OutOfBounds)
      else
        var l := Reorient(Oriented(s.lower, ColOriented)).vecs;
        assert l == RowFactor(A, f) by {
          forall r | 0 <= r < |m| ensures l[r] == RowFactor(A, f)[r] {
            forall c | 0 <= c < |m| ensures l[r][c] == RowFactor(A, f)[r][c] {
            }
          }
        }
        var lInv := Invert(A, l);
        var lt := Transpose(lInv);
        if A.zero in s.diagonal then Err(DivisionByZero)
        else Ok(Outcome(lInv, s.diagonal, Assemble(A, lt, lInv, s.diagonal, out)))
  }

  /** Each term of a block sum is symmetric in (i, j) when the transposed
      copy is the transpose and multiplication commutes. */
  lemma {:induction false} BlockSumSymmetric<T(!new)>(A: Ops<T>, x: Matrix<T>, d: seq<T>, i: nat, j: nat, n: nat)
    requires Laws(A)
    requires Square(x) && |x| == |d| && i < |x| && j < |x| && n <= |x|
    ensures BlockSum(A, Transpose(x), x, d, i, j, n) == BlockSum(A, Transpose(x), x, d, j, i, n)
  {
    if n > 0 {
      BlockSumSymmetric(A, x, d, i, j, n - 1);
      assert A.mul(x[n - 1][i], x[n - 1][j]) == A.mul(x[n - 1][j], x[n - 1][i]);
    }
  }

  /** The assembled block is symmetric, as the symmetric eigensolver that
      consumes it requires. */
  lemma InversionSymmetric<T(!new)>(A: Ops<T>, m: Matrix<T>, out: Matrix<T>, i: nat, j: nat)
    requires Laws(A)
    requires Square(m) && Square(out) && BlockSize(|m|) <= |out|
    requires Inversion(A, m, out).Ok?
    requires i < BlockSize(|m|) && j < BlockSize(|m|)
    ensures Inversion(A, m, out).value.mInverse[i][j] == Inversion(A, m, out).value.mInverse[j][i]
  {
    var o := Inversion(A, m, out).value;
    BlockSumSymmetric(A, o.lInverse, o.diagonal, i, j, |m|);
  }

  /** When the input is zero above the diagonal (the seeding writes only
      the lower triangle, and the factorisation never writes above it),
      the factor by rows is unit lower triangular, and so is its inverse. */
  lemma InversionUnitLower<T(!new)>(A: Ops<T>, m: Matrix<T>, out: Matrix<T>)
    requires Laws(A)
    requires Square(m) && Square(out) && BlockSize(|m|) <= |out|
    requires forall c, row | 0 <= row < c < |m| :: m[c][row] == A.zero
    requires Inversion(A, m, out).Ok?
    ensures UnitLower(A, RowFactor(A, Decompose(A, m).value))
    ensures UnitLower(A, Inversion(A, m, out).value.lInverse)
  {
    InvertUnitLower(A, RowFactor(A, Decompose(A, m).value));
  }

  /** The triple loop, writing one output cell at a time. */
  method AssembleInPlace<T>(A: Ops<T>, lt: Matrix<T>, lInv: Matrix<T>, d: seq<T>, out0: Matrix<T>) returns (out: Matrix<T>)
    requires Square(lt) && Square(lInv) && |lt| == |lInv| == |d|
    requires Square(out0) && BlockSize(|lt|) <= |out0|
    ensures out == Assemble(A, lt, lInv, d, out0)
  {
    var dim := |lt|;
    var b := BlockSize(dim);
    ghost var target := Assemble(A, lt, lInv, d, out0);
    out := out0;
    var i := 0;
    while i < b
      invariant i <= b
      invariant |out| == |out0|
      invariant forall r | 0 <= r < |out| :: out[r] == if r < i then target[r] else out0[r]
    {
      var j := 0;
      while j < b
        invariant j <= b
        invariant |out| == |out0| && |out[i]| == |out0|
        invariant forall r | 0 <= r < |out| && r != i :: out[r] == if r < i then target[r] else out0[r]
        invariant forall c | 0 <= c < |out| :: out[i][c] == if c < j then target[i][c] else out0[i][c]
      {
        var sum := A.zero;
        var k := 0;
        while k < dim
          invariant k <= dim
          invariant sum == BlockSum(A, lt, lInv, d, i, j, k)
        {
          sum := A.add(sum, A.div(A.mul(lt[i][k], lInv[k][j]), d[k]));
          k := k + 1;
        }
        out := out[i := out[i][j := sum]];
        j := j + 1;
      }
      assert out[i] == target[i];
      i := i + 1;
    }
    forall r | b <= r < |out| ensures out[r] == target[r] {
      forall c | 0 <= c < |out| ensures out[r][c] == target[r][c] {
      }
    }
    assert out == target;
  }
}
