/** Moving the diagonal out of a matrix and back, and inverting a
    diagonal vector (`extract_diagonal`, `impose_diagonal` and
    `invert_diagonal` in src/moment_algorithm.hpp). Vector k's entry k is
    the diagonal entry whatever the orientation, so these are
    orientation-free. */
module Diagonal {
  import opened Faults
  import opened Numeric
  import opened Dense

  /** A factor with its diagonal taken out. */
  datatype Split<T> = Split(lower: Matrix<T>, diagonal: seq<T>)

  /** Copies each diagonal entry into the destination vector and, when
      `replace` is set, overwrites it with fixed-point one. The size check
      comes first, so a mismatch writes nothing. */
  function ExtractDiagonal<T>(A: Ops<T>, m: Matrix<T>, dest: seq<T>, replace: bool): (r: Result<Split<T>>)
    requires Square(m)
    ensures r.Err? <==> |dest| != |m|
    ensures r.Err? ==> r.fault == DimensionMismatch
    ensures r.Ok? ==> Square(r.value.lower) && |r.value.lower| == |m| && |r.value.diagonal| == |m|
    ensures r.Ok? ==> forall k | 0 <= k < |m| :: r.value.diagonal[k] == m[k][k]
    ensures r.Ok? ==> forall k | 0 <= k < |m| :: r.value.lower[k][k] == (if replace then A.one else m[k][k])
    ensures r.Ok? ==> forall i, j | 0 <= i < |m| && 0 <= j < |m| && i != j :: r.value.lower[i][j] == m[i][j]
  {
    if |dest| != |m| then Err(DimensionMismatch)
    else
      var n := |m|;
      Ok(Split(
        seq(n, k requires 0 <= k < n => if replace then m[k][k := A.one] else m[k]),
        seq(n, k requires 0 <= k < n => m[k][k])))
  }

  /** Writes the vector onto the diagonal, leaving every other cell alone;
      a size mismatch is reported before any write. */
  function ImposeDiagonal<T>(diagonal: seq<T>, m: Matrix<T>): (r: Result<Matrix<T>>)
    requires Square(m)
    ensures r.Err? <==> |diagonal| != |m|
    ensures r.Err? ==> r.fault == DimensionMismatch
    ensures r.Ok? ==> Square(r.value) && |r.value| == |m|
    ensures r.Ok? ==> forall k | 0 <= k < |m| :: r.value[k][k] == diagonal[k]
    ensures r.Ok? ==> forall i, j | 0 <= i < |m| && 0 <= j < |m| && i != j :: r.value[i][j] == m[i][j]
  {
    if |diagonal| != |m| then Err(DimensionMismatch)
    else Ok(seq(|m|, k requires 0 <= k < |m| => m[k][k := diagonal[k]]))
  }

  /** Imposing the diagonal that was just extracted gives back the matrix
      exactly, whether or not the extraction replaced it by ones. */
  lemma ExtractImposeRoundTrip<T>(A: Ops<T>, m: Matrix<T>, dest: seq<T>, replace: bool)
    requires Square(m) && |dest| == |m|
    ensures ExtractDiagonal(A, m, dest, replace).Ok?
    ensures ImposeDiagonal(ExtractDiagonal(A, m, dest, replace).value.diagonal,
                           ExtractDiagonal(A, m, dest, replace).value.lower) == Ok(m)
  {
    var s := ExtractDiagonal(A, m, dest, replace).value;
    var r := ImposeDiagonal(s.diagonal, s.lower).value;
    forall k | 0 <= k < |m| ensures r[k] == m[k] {
      forall j | 0 <= j < |m| ensures r[k][j] == m[k][j] {
        if j != k {
          assert r[k][j] == s.lower[k][j];
        }
      }
    }
    assert r == m;
  }

  /** Imposing a diagonal and extracting it again gives that diagonal back,
      and (with `replace`) the same unit-diagonal factor as extracting from
      the original: imposition touches only the diagonal. */
  lemma ImposeExtractRoundTrip<T>(A: Ops<T>, d: seq<T>, m: Matrix<T>)
    requires Square(m) && |d| == |m|
    ensures ImposeDiagonal(d, m).Ok?
    ensures ExtractDiagonal(A, ImposeDiagonal(d, m).value, d, true)
         == Ok(Split(ExtractDiagonal(A, m, d, true).value.lower, d))
  {
    var m' := ImposeDiagonal(d, m).value;
    var s' := ExtractDiagonal(A, m', d, true).value;
    var s := ExtractDiagonal(A, m, d, true).value;
    forall k | 0 <= k < |m| ensures s'.lower[k] == s.lower[k] {
      forall j | 0 <= j < |m| ensures s'.lower[k][j] == s.lower[k][j] {
      }
    }
    assert s'.lower == s.lower;
    assert s'.diagonal == d;
  }

  /** Replaces every element e by one/e; a zero element is a division by
      zero. */
  function InvertDiagonal<T(==)>(A: Ops<T>, d: seq<T>): (r: Result<seq<T>>)
    ensures r.Err? <==> A.zero in d
    ensures r.Err? ==> r.fault == DivisionByZero
    ensures r.Ok? ==> |r.value| == |d| && forall k | 0 <= k < |d| :: r.value[k] == A.div(A.one, d[k])
  {
    if A.zero in d then Err(DivisionByZero)
    else Ok(seq(|d|, k requires 0 <= k < |d| => A.div(A.one, d[k])))
  }

  /** Over exact arithmetic, inverting the diagonal twice gives it back. */
  lemma InvertDiagonalInvolution(d: seq<real>)
    requires InvertDiagonal(Exact(), d).Ok?
    ensures InvertDiagonal(Exact(), InvertDiagonal(Exact(), d).value) == Ok(d)
  {
    var e := InvertDiagonal(Exact(), d).value;
    forall k | 0 <= k < |d| ensures e[k] != 0.0 && Exact().div(1.0, e[k]) == d[k] {
      assert d[k] != 0.0;
      assert e[k] == 1.0 / d[k];
    }
    assert Exact().zero !in e;
    var f := InvertDiagonal(Exact(), e).value;
    assert f == d;
  }
}
