/** In-place inversion of a row-oriented unit lower triangular matrix by
    fused forward elimination (`invert` in src/moment_algorithm.hpp).

    Pivot row `id` is applied to every row below it: the row's entry in
    column id is read first as `scale`, then entry id is negated and every
    other entry i becomes `destRow[i] - procRow[i] * scale`. The sign flip
    stores the eliminated column's contribution to the inverse in the cell
    the elimination just cleared. */
module UnitInverse {
  import opened Numeric
  import opened Dense

  /** Row `destRow` after pivot row `procRow` (row id) has been applied. */
  function EliminateRow<T>(A: Ops<T>, destRow: seq<T>, procRow: seq<T>, id: nat): (r: seq<T>)
    requires id < |destRow| == |procRow|
    ensures |r| == |destRow|
    ensures r[id] == A.neg(destRow[id])
    ensures forall i {:trigger r[i]} | 0 <= i < |destRow| && i != id :: r[i] == A.sub(destRow[i], A.mul(procRow[i], destRow[id]))
  {
    var scale := destRow[id];
    seq(|destRow|, i requires 0 <= i < |destRow| =>
      if i == id then A.neg(destRow[i]) else A.sub(destRow[i], A.mul(procRow[i], scale)))
  }

  /** Pivot `id`: rows up to and including the pivot row are untouched,
      every row below it is eliminated with the pivot row. */
  function InvertPivot<T>(A: Ops<T>, m: Matrix<T>, id: nat): (r: Matrix<T>)
    requires Square(m) && id < |m|
    ensures Square(r) && |r| == |m|
    ensures forall row {:trigger r[row]} | 0 <= row <= id :: r[row] == m[row]
    ensures forall row {:trigger r[row]} | id < row < |m| :: r[row] == EliminateRow(A, m[row], m[id], id)
  {
    seq(|m|, row requires 0 <= row < |m| =>
      if row <= id then m[row] else EliminateRow(A, m[row], m[id], id))
  }

  /** The state after pivots 0 .. p-1. */
  function InvertUpTo<T>(A: Ops<T>, m: Matrix<T>, p: nat): (r: Matrix<T>)
    requires Square(m) && p <= |m|
    ensures Square(r) && |r| == |m|
  {
    if p == 0 then m else InvertPivot(A, InvertUpTo(A, m, p - 1), p - 1)
  }

  /** All |m| pivots. `InvertUnitLower` and the exact lemmas say what the
      result is. */
  function Invert<T>(A: Ops<T>, m: Matrix<T>): (r: Matrix<T>)
    requires Square(m)
    ensures Square(r) && |r| == |m|
  {
    InvertUpTo(A, m, |m|)
  }

  /** Row r is final once pivots 0 .. r-1 have run: a pivot only writes the
      rows below it. */
  lemma {:induction false} RowFrozen<T>(A: Ops<T>, m: Matrix<T>, r: nat, p: nat, q: nat)
    requires Square(m) && r <= p <= q <= |m| && r < |m|
    ensures InvertUpTo(A, m, q)[r] == InvertUpTo(A, m, p)[r]
  {
    if q > p {
      RowFrozen(A, m, r, p, q - 1);
      PivotKeepsRow(A, InvertUpTo(A, m, q - 1), q - 1, r);
    }
  }

  /** A pivot leaves its own row and the rows above it alone. */
  lemma PivotKeepsRow<T>(A: Ops<T>, m: Matrix<T>, id: nat, r: nat)
    requires Square(m) && r <= id < |m|
    ensures InvertPivot(A, m, id)[r] == m[r]
  {
  }

  /** Under the structural laws, every pivot keeps a unit lower triangular
      matrix unit lower triangular: the pivot row is zero right of its
      diagonal, so it cannot disturb a lower row's diagonal or the zeros
      right of it. */
  lemma {:induction false} InvertUpToUnitLower<T(!new)>(A: Ops<T>, m: Matrix<T>, p: nat)
    requires Laws(A)
    requires UnitLower(A, m) && p <= |m|
    ensures UnitLower(A, InvertUpTo(A, m, p))
  {
    if p > 0 {
      var id := p - 1;
      InvertUpToUnitLower(A, m, id);
      var x := InvertUpTo(A, m, id);
      var y := InvertPivot(A, x, id);
      forall row, i | id < row < |m| && row <= i < |m|
        ensures y[row][i] == (if i == row then A.one else A.zero)
      {
        assert y[row][i] == A.sub(x[row][i], A.mul(A.zero, x[row][id]));
      }
    }
  }

  lemma InvertUnitLower<T(!new)>(A: Ops<T>, m: Matrix<T>)
    requires Laws(A)
    requires UnitLower(A, m)
    ensures UnitLower(A, Invert(A, m))
  {
    InvertUpToUnitLower(A, m, |m|);
  }

  /** One pass of the inner loop of `invert`: row `row` is rewritten cell
      by cell, with `scale` read before the first write. */
  method EliminateRowInPlace<T>(A: Ops<T>, destRow: seq<T>, procRow: seq<T>, id: nat) returns (r: seq<T>)
    requires id < |destRow| == |procRow|
    ensures r == EliminateRow(A, destRow, procRow, id)
  {
    r := destRow;
    var scale := r[id];
    var i := 0;
    while i < |r|
      invariant |r| == |destRow|
      invariant i <= |r|
      invariant forall k | 0 <= k < |r| :: r[k] == (if k >= i then destRow[k] else EliminateRow(A, destRow, procRow, id)[k])
    {
      if i == id {
        r := r[i := A.neg(r[i])];
      } else {
        r := r[i := A.sub(r[i], A.mul(procRow[i], scale))];
      }
      i := i + 1;
    }
  }

  /** The loops of `invert`. */
  method InvertInPlace<T>(A: Ops<T>, m0: Matrix<T>) returns (m: Matrix<T>)
    requires Square(m0)
    ensures m == Invert(A, m0)
  {
    var dim := |m0|;
    m := m0;
    var id := 0;
    while id < dim
      invariant id <= dim
      invariant m == InvertUpTo(A, m0, id)
    {
      ghost var before := m;
      var row := id + 1;
      while row < dim
        invariant id + 1 <= row <= dim
        invariant Square(m) && |m| == dim
        invariant forall k | 0 <= k < dim :: m[k] == (if id < k < row then InvertPivot(A, before, id)[k] else before[k])
      {
        var destRow := EliminateRowInPlace(A, m[row], m[id], id);
        m := m[row := destRow];
        row := row + 1;
      }
      assert m == InvertPivot(A, before, id);
      id := id + 1;
    }
  }
}
