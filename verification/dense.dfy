/** The vector-of-vectors matrix container the algorithms are written
    against: a square matrix is a sequence of `dim` vectors of `dim`
    elements, and the outer index of a vector is its id. Whether a vector
    is a row or a column is a separate orientation flag; the storage is
    the same either way. */
module Dense {
  import opened Numeric

  type Matrix<T> = seq<seq<T>>

  predicate Square<T>(m: Matrix<T>)
  {
    forall k | 0 <= k < |m| :: |m[k]| == |m|
  }

  /** The mathematical transpose of the storage. */
  function Transpose<T>(m: Matrix<T>): (t: Matrix<T>)
    requires Square(m)
    ensures Square(t) && |t| == |m|
    ensures forall i, j | 0 <= i < |m| && 0 <= j < |m| :: t[i][j] == m[j][i]
  {
    seq(|m|, i requires 0 <= i < |m| => seq(|m|, j requires 0 <= j < |m| => m[j][i]))
  }

  lemma TransposeInvolution<T>(m: Matrix<T>)
    requires Square(m)
    ensures Transpose(Transpose(m)) == m
  {
    var t := Transpose(Transpose(m));
    forall i | 0 <= i < |m| ensures t[i] == m[i] {
    }
  }

  datatype Orientation = RowOriented | ColOriented

  /** A matrix together with the flag saying how its vectors are read. */
  datatype Oriented<T> = Oriented(vecs: Matrix<T>, mode: Orientation)

  /** Entry (row, col) of the logical matrix, honouring the orientation. */
  function At<T>(m: Oriented<T>, row: nat, col: nat): T
    requires Square(m.vecs) && row < |m.vecs| && col < |m.vecs|
  {
    if m.mode == RowOriented then m.vecs[row][col] else m.vecs[col][row]
  }

  /** Transposes the storage and flips the flag: the logical matrix is
      unchanged, only the way it is laid out. */
  function Reorient<T>(m: Oriented<T>): (r: Oriented<T>)
    requires Square(m.vecs)
    ensures Square(r.vecs) && |r.vecs| == |m.vecs|
    ensures r.mode != m.mode
    ensures forall i, j | 0 <= i < |m.vecs| && 0 <= j < |m.vecs| :: At(r, i, j) == At(m, i, j)
  {
    Oriented(Transpose(m.vecs), if m.mode == RowOriented then ColOriented else RowOriented)
  }

  lemma ReorientInvolution<T>(m: Oriented<T>)
    requires Square(m.vecs)
    ensures Reorient(Reorient(m)) == m
  {
    TransposeInvolution(m.vecs);
  }

  /** Column j of a row-major matrix. */
  function Col<T>(m: Matrix<T>, j: nat): (c: seq<T>)
    requires Square(m) && j < |m|
    ensures |c| == |m| && forall k | 0 <= k < |m| :: c[k] == m[k][j]
  {
    seq(|m|, k requires 0 <= k < |m| => m[k][j])
  }

  /** The sum of the first n products u[k]*v[k], accumulated from zero in
      increasing k, as the C++ loops do. */
  function Dot<T>(A: Ops<T>, u: seq<T>, v: seq<T>, n: nat): T
    requires n <= |u| && n <= |v|
  {
    if n == 0 then A.zero else A.add(Dot(A, u, v, n - 1), A.mul(u[n - 1], v[n - 1]))
  }

  /** Row-major matrix product: entry (i, j) is row i of x dotted with
      column j of y. */
  function MatMul<T>(A: Ops<T>, x: Matrix<T>, y: Matrix<T>): (p: Matrix<T>)
    requires Square(x) && Square(y) && |x| == |y|
    ensures Square(p) && |p| == |x|
  {
    seq(|x|, i requires 0 <= i < |x| =>
      seq(|x|, j requires 0 <= j < |x| => Dot(A, x[i], Col(y, j), |x|)))
  }

  function Identity<T>(A: Ops<T>, n: nat): (e: Matrix<T>)
    ensures Square(e) && |e| == n
  {
    seq(n, i => seq(n, j => if i == j then A.one else A.zero))
  }

  /** The diagonal matrix with d on its diagonal. */
  function Diag<T>(A: Ops<T>, d: seq<T>): (e: Matrix<T>)
    ensures Square(e) && |e| == |d|
    ensures forall i, j | 0 <= i < |d| && 0 <= j < |d| :: e[i][j] == if i == j then d[i] else A.zero
  {
    seq(|d|, i requires 0 <= i < |d| => seq(|d|, j requires 0 <= j < |d| => if i == j then d[i] else A.zero))
  }

  /** Unit lower triangular, read row-major: ones on the diagonal and
      zeros above it. */
  ghost predicate UnitLower<T>(A: Ops<T>, m: Matrix<T>)
  {
    && Square(m)
    && (forall i | 0 <= i < |m| :: m[i][i] == A.one)
    && (forall i, j | 0 <= i < j < |m| :: m[i][j] == A.zero)
  }
}
