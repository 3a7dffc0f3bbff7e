/** In-place LDL^t decomposition of a column-oriented matrix, leaving D on
    the diagonal of L (`cholesky_decompose` in src/moment_algorithm.hpp).

    Storage is column-oriented: `m[c][r]` is the entry in row r of
    column c. Pivot `id` snapshots its column, divides the entries below
    the diagonal by the snapshot pivot, and then, for every column c to
    its right, subtracts `orig[c] * procCol[r]` from every entry on or
    below the diagonal. Only the lower triangle is read or written. */
module Ldlt {
  import opened Faults
  import opened Numeric
  import opened Dense

  /** The pivot column after its entries below the diagonal have been
      divided by the snapshot pivot `orig[id]`. */
  function Normalise<T>(A: Ops<T>, orig: seq<T>, id: nat): (r: seq<T>)
    requires id < |orig|
    ensures |r| == |orig|
    ensures forall row {:trigger r[row]} | 0 <= row <= id :: r[row] == orig[row]
    ensures forall row {:trigger r[row]} | id < row < |orig| :: r[row] == A.div(orig[row], orig[id])
  {
    seq(|orig|, row requires 0 <= row < |orig| => if row > id then A.div(orig[row], orig[id]) else orig[row])
  }

  /** Column `c` after the pivot column has been applied to it: each entry
      on or below the diagonal becomes `z - y * procCol[row]`, where `y` is
      the snapshot pivot column's entry in row c. */
  function Eliminate<T>(A: Ops<T>, dest: seq<T>, y: T, procCol: seq<T>, c: nat): (r: seq<T>)
    requires |procCol| == |dest|
    ensures |r| == |dest|
    ensures forall row {:trigger r[row]} | 0 <= row < |dest| && row < c :: r[row] == dest[row]
    ensures forall row {:trigger r[row]} | c <= row < |dest| :: r[row] == A.sub(dest[row], A.mul(y, procCol[row]))
  {
    seq(|dest|, row requires 0 <= row < |dest| =>
      if row >= c then A.sub(dest[row], A.mul(y, procCol[row])) else dest[row])
  }

  /** One pivot step at column `id`: the columns left of the pivot are
      untouched, the pivot column is normalised by its snapshot pivot, and
      every column c to its right is eliminated with the snapshot entry
      `m[id][c]` and the normalised pivot column. */
  function PivotStep<T>(A: Ops<T>, m: Matrix<T>, id: nat): (r: Matrix<T>)
    requires Square(m) && id < |m|
    ensures Square(r) && |r| == |m|
    ensures forall c {:trigger r[c]} | 0 <= c < id :: r[c] == m[c]
    ensures r[id] == Normalise(A, m[id], id)
    ensures forall c {:trigger r[c]} | id < c < |m| :: r[c] == Eliminate(A, m[c], m[id][c], r[id], c)
  {
    var procCol := Normalise(A, m[id], id);
    seq(|m|, c requires 0 <= c < |m| =>
      if c < id then m[c]
      else if c == id then procCol
      else Eliminate(A, m[c], m[id][c], procCol, c))
  }

  /** The cells a pivot step leaves alone: everything above the diagonal,
      the pivot column on and above the diagonal, and every column left of
      the pivot. */
  lemma PivotStepFrame<T>(A: Ops<T>, m: Matrix<T>, id: nat, c: nat, row: nat)
    requires Square(m) && id < |m| && c < |m| && row < |m|
    requires c < id || row < c || (c == id && row <= id)
    ensures PivotStep(A, m, id)[c][row] == m[c][row]
  {
  }

  /** The state after pivots 0 .. p-1, or the fault that stopped it. A
      pivot divides only when some row lies below it. */
  function DecomposeUpTo<T(==)>(A: Ops<T>, m: Matrix<T>, p: nat): (r: Result<Matrix<T>>)
    requires Square(m) && p <= |m|
    ensures r.Ok? ==> Square(r.value) && |r.value| == |m|
    ensures r.Ok? ==> forall c, row {:trigger r.value[c][row]} | 0 <= row < c < |m| :: r.value[c][row] == m[c][row]
    ensures r.Err? ==> r.fault == DivisionByZero
  {
    if p == 0 then Ok(m)
    else
      match DecomposeUpTo(A, m, p - 1)
      case Err(f) => Err(f)
      case Ok(s) =>
        if p < |m| && s[p - 1][p - 1] == A.zero then Err(DivisionByZero)
        else Ok(PivotStep(A, s, p - 1))
  }

  /** The whole decomposition. On success the upper triangle of the
      storage is exactly what it was; the only failure is a zero pivot. */
  function Decompose<T(==)>(A: Ops<T>, m: Matrix<T>): (r: Result<Matrix<T>>)
    requires Square(m)
    ensures r.Ok? ==> Square(r.value) && |r.value| == |m|
    ensures r.Ok? ==> forall c, row {:trigger r.value[c][row]} | 0 <= row < c < |m| :: r.value[c][row] == m[c][row]
    ensures r.Err? ==> r.fault == DivisionByZero
  {
    DecomposeUpTo(A, m, |m|)
  }

  /** Once a pivot has failed, every later state is that failure. */
  lemma {:induction false} FailureSticks<T>(A: Ops<T>, m: Matrix<T>, p: nat, q: nat)
    requires Square(m) && p <= q <= |m|
    requires DecomposeUpTo(A, m, p).Err?
    ensures DecomposeUpTo(A, m, q) == DecomposeUpTo(A, m, p)
  {
    if q > p {
      FailureSticks(A, m, p, q - 1);
    }
  }

  /** A successful state is one pivot step applied to the successful
      state before it. */
  lemma UnfoldOk<T>(A: Ops<T>, m: Matrix<T>, q: nat)
    requires Square(m) && 0 < q <= |m|
    requires DecomposeUpTo(A, m, q).Ok?
    ensures DecomposeUpTo(A, m, q - 1).Ok?
    ensures DecomposeUpTo(A, m, q).value == PivotStep(A, DecomposeUpTo(A, m, q - 1).value, q - 1)
  {
  }

  /** A successful state was reached through successful states. */
  lemma {:induction false} OkBefore<T>(A: Ops<T>, m: Matrix<T>, p: nat, q: nat)
    requires Square(m) && p <= q <= |m|
    requires DecomposeUpTo(A, m, q).Ok?
    ensures DecomposeUpTo(A, m, p).Ok?
  {
    if DecomposeUpTo(A, m, p).Err? {
      FailureSticks(A, m, p, q);
    }
  }

  /** Once pivot c has been applied, column c never changes again: each
      pivot writes only its own column and the columns to its right. */
  lemma {:induction false} ColumnFrozen<T>(A: Ops<T>, m: Matrix<T>, c: nat, p: nat, q: nat)
    requires Square(m) && c < p <= q <= |m|
    requires DecomposeUpTo(A, m, q).Ok?
    ensures DecomposeUpTo(A, m, p).Ok?
    ensures DecomposeUpTo(A, m, q).value[c] == DecomposeUpTo(A, m, p).value[c]
  {
    OkBefore(A, m, p, q);
    if q > p {
      UnfoldOk(A, m, q);
      ColumnFrozen(A, m, c, p, q - 1);
      var s := DecomposeUpTo(A, m, q - 1).value;
      assert PivotStep(A, s, q - 1)[c] == s[c];
    }
  }

  /** On a matrix that is zero below the diagonal, with every dividing
      pivot nonzero, the decomposition changes nothing: each normalised
      entry is 0/pivot = 0 and each update subtracts 0 * x = 0. */
  lemma {:induction false} LowerZeroUnchanged<T(!new)>(A: Ops<T>, m: Matrix<T>, p: nat)
    requires Laws(A)
    requires Square(m) && p <= |m|
    requires forall c, row | 0 <= c < row < |m| :: m[c][row] == A.zero
    requires forall q | 0 <= q && q + 1 < |m| :: m[q][q] != A.zero
    ensures DecomposeUpTo(A, m, p) == Ok(m)
  {
    if p > 0 {
      var id := p - 1;
      LowerZeroUnchanged(A, m, id);
      assert id + 1 < |m| ==> m[id][id] != A.zero;
      DecomposeStep(A, m, id, m);
      PivotOnLowerZero(A, m, id);
    }
  }

  /** A pivot step on a matrix that is zero below the diagonal is the
      identity. */
  lemma PivotOnLowerZero<T(!new)>(A: Ops<T>, m: Matrix<T>, id: nat)
    requires Laws(A)
    requires Square(m) && id < |m|
    requires forall c, row | 0 <= c < row < |m| :: m[c][row] == A.zero
    ensures PivotStep(A, m, id) == m
  {
    var r := PivotStep(A, m, id);
    forall c | 0 <= c < |m| ensures r[c] == m[c] {
      if c == id {
        NormaliseZero(A, m[id], id);
      } else if c > id {
        EliminateZero(A, m[c], m[id][c], r[id], c);
      }
    }
    assert r == m;
  }

  /** Normalising a column that is zero below its pivot changes nothing. */
  lemma NormaliseZero<T(!new)>(A: Ops<T>, col: seq<T>, id: nat)
    requires Laws(A)
    requires id < |col|
    requires forall row | id < row < |col| :: col[row] == A.zero
    ensures Normalise(A, col, id) == col
  {
    var n := Normalise(A, col, id);
    forall row | 0 <= row < |col| ensures n[row] == col[row] {
      if row > id {
        assert n[row] == A.div(A.zero, col[id]);
      }
    }
  }

  /** An update whose multiplier is zero changes nothing. */
  lemma EliminateZero<T(!new)>(A: Ops<T>, dest: seq<T>, y: T, procCol: seq<T>, c: nat)
    requires Laws(A)
    requires |procCol| == |dest| && y == A.zero
    ensures Eliminate(A, dest, y, procCol, c) == dest
  {
    var e := Eliminate(A, dest, y, procCol, c);
    forall row | 0 <= row < |dest| ensures e[row] == dest[row] {
      if row >= c {
        assert e[row] == A.sub(dest[row], A.mul(A.zero, procCol[row]));
      }
    }
  }

  lemma LowerZeroDecomposeUnchanged<T(!new)>(A: Ops<T>, m: Matrix<T>)
    requires Laws(A)
    requires Square(m)
    requires forall c, row | 0 <= c < row < |m| :: m[c][row] == A.zero
    requires forall q | 0 <= q && q + 1 < |m| :: m[q][q] != A.zero
    ensures Decompose(A, m) == Ok(m)
  {
    LowerZeroUnchanged(A, m, |m|);
  }

  /** One more pivot, when the previous ones succeeded and this one
      divides by a nonzero pivot (or does not divide at all). */
  lemma DecomposeStep<T>(A: Ops<T>, m0: Matrix<T>, id: nat, m: Matrix<T>)
    requires Square(m0) && id < |m0|
    requires DecomposeUpTo(A, m0, id) == Ok(m)
    requires !(id + 1 < |m0| && m[id][id] == A.zero)
    ensures DecomposeUpTo(A, m0, id + 1) == Ok(PivotStep(A, m, id))
  {
  }

  /** A zero pivot with rows below it fails the whole decomposition. */
  lemma ZeroPivotFails<T>(A: Ops<T>, m0: Matrix<T>, id: nat, m: Matrix<T>)
    requires Square(m0) && id + 1 < |m0|
    requires DecomposeUpTo(A, m0, id) == Ok(m)
    requires m[id][id] == A.zero
    ensures Decompose(A, m0) == Err(DivisionByZero)
  {
    assert DecomposeUpTo(A, m0, id + 1) == Err(DivisionByZero);
    FailureSticks(A, m0, id + 1, |m0|);
  }

  /** The first inner loop of `cholesky_decompose`: divides the pivot
      column below the diagonal by the snapshot pivot, one cell at a time. */
  method NormaliseInPlace<T>(A: Ops<T>, col: seq<T>, id: nat) returns (procCol: seq<T>)
    requires id < |col|
    ensures procCol == Normalise(A, col, id)
  {
    var orig := col;
    procCol := col;
    var row := id + 1;
    while row < |col|
      invariant id + 1 <= row <= |col|
      invariant |procCol| == |col|
      invariant forall k | 0 <= k < |col| :: procCol[k] == (if id < k < row then A.div(orig[k], orig[id]) else orig[k])
    {
      procCol := procCol[row := A.div(procCol[row], orig[id])];
      row := row + 1;
    }
  }

  /** The innermost loop of `cholesky_decompose`: walks down column c from
      its diagonal, computing z' = z - y*x cell by cell. */
  method EliminateInPlace<T>(A: Ops<T>, destCol: seq<T>, y: T, procCol: seq<T>, c: nat) returns (r: seq<T>)
    requires |procCol| == |destCol|
    ensures r == Eliminate(A, destCol, y, procCol, c)
  {
    r := destCol;
    var row := c;
    while row < |destCol|
      invariant c <= row && (row <= |destCol| || row == c)
      invariant |r| == |destCol|
      invariant forall k | 0 <= k < |destCol| :: r[k] == (if c <= k < row then A.sub(destCol[k], A.mul(y, procCol[k])) else destCol[k])
    {
      var z := r[row];
      var x := procCol[row];
      r := r[row := A.sub(z, A.mul(y, x))];
      row := row + 1;
    }
  }

  /** The body of the pivot loop of `cholesky_decompose` for pivot `id`,
      once the pivot is known to be a usable divisor. */
  method PivotInPlace<T>(A: Ops<T>, m0: Matrix<T>, id: nat) returns (m: Matrix<T>)
    requires Square(m0) && id < |m0|
    ensures m == PivotStep(A, m0, id)
  {
    var n := |m0|;
    var orig := m0[id];
    var procCol := NormaliseInPlace(A, orig, id);
    m := m0[id := procCol];
    var col := id + 1;
    while col < n
      invariant id + 1 <= col <= n
      invariant |m| == n
      invariant forall c | 0 <= c < n :: m[c] == (if c <= id || c < col then PivotStep(A, m0, id)[c] else m0[c])
    {
      var destCol := EliminateInPlace(A, m[col], orig[col], procCol, col);
      m := m[col := destCol];
      col := col + 1;
    }
  }

  /** The pivot loop of `cholesky_decompose`. */
  method DecomposeInPlace<T(==)>(A: Ops<T>, m0: Matrix<T>) returns (r: Result<Matrix<T>>)
    requires Square(m0)
    ensures r == Decompose(A, m0)
  {
    var n := |m0|;
    var m := m0;
    var id := 0;
    while id < n
      invariant id <= n
      invariant DecomposeUpTo(A, m0, id) == Ok(m)
    {
      if id + 1 < n && m[id][id] == A.zero {
        ZeroPivotFails(A, m0, id, m);
        return Err(DivisionByZero);
      }
      DecomposeStep(A, m0, id, m);
      m := PivotInPlace(A, m, id);
      id := id + 1;
    }
    r := Ok(m);
  }
}
