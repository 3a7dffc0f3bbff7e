/** The flat `MpMatrix` container: a square matrix of dimension `dim`
    stored row-major in one vector of dim*dim fixed-point raws, all read at
    the matrix's one shift. The compound assignments are functions from the
    old value to the new one; a dimension mismatch, which the C++ reports by
    throwing before it writes anything, is an `Err` and leaves no new value. */
module FlatMatrix {
  import opened Arith
  import opened Faults
  import opened FixedPoint
  import opened Numeric
  import opened Dense

  datatype MpMatrix = MpMatrix(cells: seq<int>, dim: nat, shift: nat)

  /** The storage holds exactly dim*dim cells. */
  predicate Valid(m: MpMatrix)
  {
    |m.cells| == m.dim * m.dim
  }

  /** A new matrix: dim*dim cells, all zero. */
  function New(dim: nat, shift: nat): (m: MpMatrix)
    ensures Valid(m) && m.dim == dim && m.shift == shift
    ensures forall k | 0 <= k < |m.cells| :: m.cells[k] == 0
  {
    MpMatrix(seq(dim * dim, _ => 0), dim, shift)
  }

  /** The flat position of (row, col): row-major, so it lies inside the
      storage. */
  function Index(dim: nat, row: nat, col: nat): (k: nat)
    requires row < dim && col < dim
    ensures k < dim * dim
  {
    MulMonotone(row + 1, dim, dim);
    row * dim + col
  }

  /** Quotient and remainder by dim decode a flat position back into its
      row and column. */
  lemma IndexDecodes(dim: nat, row: nat, col: nat)
    requires row < dim && col < dim
    ensures Index(dim, row, col) / dim == row && Index(dim, row, col) % dim == col
  {
    DivModUnique(row * dim + col, dim, row, col);
  }

  /** Every flat position is the position of one (row, col) pair. */
  lemma IndexCovers(dim: nat, k: nat)
    requires k < dim * dim
    ensures dim > 0 && k / dim < dim && k % dim < dim
    ensures Index(dim, k / dim, k % dim) == k
  {
    SquareGrows(dim);
    FloorDivBounds(k, dim);
    MulMonotone(dim, k / dim, dim);
  }

  /** Distinct in-range pairs address distinct cells. */
  lemma IndexInjective(dim: nat, r1: nat, c1: nat, r2: nat, c2: nat)
    requires r1 < dim && c1 < dim && r2 < dim && c2 < dim
    ensures Index(dim, r1, c1) == Index(dim, r2, c2) <==> r1 == r2 && c1 == c2
  {
    IndexDecodes(dim, r1, c1);
    IndexDecodes(dim, r2, c2);
  }

  /** The element at (row, col); `GetReadsStorage` says which cell. */
  function Get(m: MpMatrix, row: nat, col: nat): int
    requires Valid(m) && row < m.dim && col < m.dim
  {
    m.cells[Index(m.dim, row, col)]
  }

  /** Row-major layout: every storage cell is the element read at its
      decoded row and column. */
  lemma GetReadsStorage(m: MpMatrix, k: nat)
    requires Valid(m) && k < |m.cells|
    ensures m.dim > 0 && k / m.dim < m.dim && k % m.dim < m.dim
    ensures Get(m, k / m.dim, k % m.dim) == m.cells[k]
  {
  }

  /** Writing through the reference `operator()` returns. */
  function Set(m: MpMatrix, row: nat, col: nat, v: int): (r: MpMatrix)
    requires Valid(m) && row < m.dim && col < m.dim
    ensures Valid(r) && r.dim == m.dim && r.shift == m.shift
    ensures Get(r, row, col) == v
    ensures forall i, j | 0 <= i < m.dim && 0 <= j < m.dim && (i, j) != (row, col) :: Get(r, i, j) == Get(m, i, j)
  {
    var r := m.(cells := m.cells[Index(m.dim, row, col) := v]);
    assert forall i, j | 0 <= i < m.dim && 0 <= j < m.dim && (i, j) != (row, col) ::
      Index(m.dim, i, j) != Index(m.dim, row, col) by {
      forall i, j | 0 <= i < m.dim && 0 <= j < m.dim && (i, j) != (row, col)
        ensures Index(m.dim, i, j) != Index(m.dim, row, col)
      {
        IndexInjective(m.dim, i, j, row, col);
      }
    }
    r
  }

  /** The iterator constructor: the elements fill the zero matrix in
      storage (row-major) order; more elements than cells would run the
      destination iterator past the end. */
  function FromElements(dim: nat, shift: nat, elems: seq<int>): (r: Result<MpMatrix>)
    ensures r.Err? <==> |elems| > dim * dim
    ensures r.Err? ==> r.fault == OutOfBounds
    ensures r.Ok? ==> Valid(r.value) && r.value.dim == dim && r.value.shift == shift
    ensures r.Ok? ==> forall i, j | 0 <= i < dim && 0 <= j < dim ::
      Get(r.value, i, j) == if Index(dim, i, j) < |elems| then elems[Index(dim, i, j)] else 0
  {
    if |elems| > dim * dim then Err(OutOfBounds)
    else Ok(MpMatrix(elems + New(dim, shift).cells[|elems|..], dim, shift))
  }

  /** Handing a matrix's own storage to the iterator constructor rebuilds
      the matrix. */
  lemma FromElementsRoundTrip(m: MpMatrix)
    requires Valid(m)
    ensures FromElements(m.dim, m.shift, m.cells) == Ok(m)
  {
    assert New(m.dim, m.shift).cells[|m.cells|..] == [];
    assert m.cells + [] == m.cells;
  }

  /** The rows of the matrix, as the nested-sequence model of a matrix. */
  function ToRows(m: MpMatrix): (rows: Matrix<int>)
    requires Valid(m)
    ensures Square(rows) && |rows| == m.dim
    ensures forall i, j | 0 <= i < m.dim && 0 <= j < m.dim :: rows[i][j] == Get(m, i, j)
  {
    seq(m.dim, i requires 0 <= i < m.dim => seq(m.dim, j requires 0 <= j < m.dim => Get(m, i, j)))
  }

  /** Row-major flattening of a square nested-sequence matrix. */
  function FromRows(rows: Matrix<int>, shift: nat): (m: MpMatrix)
    requires Square(rows)
    ensures Valid(m) && m.dim == |rows| && m.shift == shift
  {
    var n := |rows|;
    MpMatrix(seq(n * n, k requires 0 <= k < n * n => FlatCell(rows, k)), n, shift)
  }

  /** The cell of a square nested matrix at a flat row-major position. */
  function FlatCell(rows: Matrix<int>, k: nat): int
    requires Square(rows) && k < |rows| * |rows|
  {
    var n := |rows|;
    IndexCovers(n, k);
    var i, j := k / n, k % n;
    assert |rows[i]| == n;
    rows[i][j]
  }

  lemma RowsRoundTrip(rows: Matrix<int>, shift: nat)
    requires Square(rows)
    ensures ToRows(FromRows(rows, shift)) == rows
  {
    var n := |rows|;
    var t := ToRows(FromRows(rows, shift));
    forall i | 0 <= i < n ensures t[i] == rows[i] {
      forall j | 0 <= j < n ensures t[i][j] == rows[i][j] {
        IndexDecodes(n, i, j);
      }
    }
  }

  lemma FlatRoundTrip(m: MpMatrix)
    requires Valid(m)
    ensures FromRows(ToRows(m), m.shift) == m
  {
    var f := FromRows(ToRows(m), m.shift);
    forall k | 0 <= k < |m.cells| ensures f.cells[k] == m.cells[k] {
      IndexCovers(m.dim, k);
    }
  }

  /** Cell-by-cell combination of two equally sized storages. */
  function Zip(u: seq<int>, v: seq<int>, add: bool): (w: seq<int>)
    requires |u| == |v|
    ensures |w| == |u|
  {
    seq(|u|, k requires 0 <= k < |u| => if add then u[k] + v[k] else u[k] - v[k])
  }

  /** Matrix `+=`: throws on a dimension mismatch before writing;
      otherwise adds cell by cell. */
  function AddAssign(m: MpMatrix, addend: MpMatrix): (r: Result<MpMatrix>)
    requires Valid(m) && Valid(addend)
    ensures r.Err? <==> addend.dim != m.dim
    ensures r.Err? ==> r.fault == DimensionMismatch
    ensures r.Ok? ==> Valid(r.value) && r.value.dim == m.dim && r.value.shift == m.shift
    ensures r.Ok? ==> forall i, j | 0 <= i < m.dim && 0 <= j < m.dim ::
      Get(r.value, i, j) == Get(m, i, j) + Get(addend, i, j)
  {
    if addend.dim != m.dim then Err(DimensionMismatch)
    else Ok(m.(cells := Zip(m.cells, addend.cells, true)))
  }

  /** Matrix `-=`: as `+=`, subtracting. */
  function SubAssign(m: MpMatrix, subtrahend: MpMatrix): (r: Result<MpMatrix>)
    requires Valid(m) && Valid(subtrahend)
    ensures r.Err? <==> subtrahend.dim != m.dim
    ensures r.Err? ==> r.fault == DimensionMismatch
    ensures r.Ok? ==> Valid(r.value) && r.value.dim == m.dim && r.value.shift == m.shift
    ensures r.Ok? ==> forall i, j | 0 <= i < m.dim && 0 <= j < m.dim ::
      Get(r.value, i, j) == Get(m, i, j) - Get(subtrahend, i, j)
  {
    if subtrahend.dim != m.dim then Err(DimensionMismatch)
    else Ok(m.(cells := Zip(m.cells, subtrahend.cells, false)))
  }

  /** Adding a matrix and subtracting it again restores the original
      exactly, since raw addition and subtraction do not round. */
  lemma {:induction false} AddSubRoundTrip(a: MpMatrix, b: MpMatrix)
    requires Valid(a) && Valid(b) && a.dim == b.dim
    ensures SubAssign(AddAssign(a, b).value, b) == Ok(a)
  {
    var s := SubAssign(AddAssign(a, b).value, b).value;
    forall k | 0 <= k < |a.cells| ensures s.cells[k] == a.cells[k] {
    }
    assert s.cells == a.cells;
  }

  /** A zero matrix is a neutral addend, at any shift. */
  lemma {:induction false} AddZero(a: MpMatrix, shift: nat)
    requires Valid(a)
    ensures AddAssign(a, New(a.dim, shift)) == Ok(a)
  {
    var s := AddAssign(a, New(a.dim, shift)).value;
    forall k | 0 <= k < |a.cells| ensures s.cells[k] == a.cells[k] {
    }
    assert s.cells == a.cells;
  }

  /** Applies one scalar operation to every cell. */
  function MapCells(u: seq<int>, f: int -> int): (w: seq<int>)
    ensures |w| == |u| && forall k | 0 <= k < |u| :: w[k] == f(u[k])
  {
    seq(|u|, k requires 0 <= k < |u| => f(u[k]))
  }

  /** Scalar `+=`: every element gains the scalar; dim and shift stay. */
  function ScalarAddAssign(m: MpMatrix, s: int): (r: MpMatrix)
    requires Valid(m)
    ensures Valid(r) && r.dim == m.dim && r.shift == m.shift
    ensures forall i, j | 0 <= i < m.dim && 0 <= j < m.dim :: Get(r, i, j) == Get(m, i, j) + s
  {
    m.(cells := MapCells(m.cells, x => x + s))
  }

  /** Scalar `-=`. */
  function ScalarSubAssign(m: MpMatrix, s: int): (r: MpMatrix)
    requires Valid(m)
    ensures Valid(r) && r.dim == m.dim && r.shift == m.shift
    ensures forall i, j | 0 <= i < m.dim && 0 <= j < m.dim :: Get(r, i, j) == Get(m, i, j) - s
  {
    m.(cells := MapCells(m.cells, x => x - s))
  }

  /** Scalar `*=`: every element becomes its fixed-point product with the
      scalar at the matrix's shift. */
  function ScalarMulAssign(m: MpMatrix, s: int): (r: MpMatrix)
    requires Valid(m)
    ensures Valid(r) && r.dim == m.dim && r.shift == m.shift
    ensures forall i, j | 0 <= i < m.dim && 0 <= j < m.dim ::
      Get(r, i, j) * Pow2(m.shift) <= Get(m, i, j) * s < (Get(r, i, j) + 1) * Pow2(m.shift)
  {
    m.(cells := MapCells(m.cells, x => Mul(m.shift, x, s)))
  }

  lemma {:induction false} ScalarRoundTrip(m: MpMatrix, s: int)
    requires Valid(m)
    ensures ScalarSubAssign(ScalarAddAssign(m, s), s) == m
  {
    var r := ScalarSubAssign(ScalarAddAssign(m, s), s);
    forall k | 0 <= k < |m.cells| ensures r.cells[k] == m.cells[k] {
    }
    assert r.cells == m.cells;
  }

  /** Multiplying by fixed-point one is exact. */
  lemma {:induction false} MulOne(S: nat, a: int)
    ensures Mul(S, a, One(S)) == a && Mul(S, One(S), a) == a
  {
    var p := Pow2(S);
    DivModUnique(a * p, p, a, 0);
    assert a * p == p * a;
  }

  lemma {:induction false} MulZero(S: nat, a: int)
    ensures Mul(S, a, 0) == 0 && Mul(S, 0, a) == 0
  {
    assert a * 0 == 0 && 0 * a == 0;
    DivModUnique(0, Pow2(S), 0, 0);
  }

  /** Scaling by fixed-point one leaves the matrix as it was. */
  lemma {:induction false} ScalarMulOne(m: MpMatrix)
    requires Valid(m)
    ensures ScalarMulAssign(m, One(m.shift)) == m
  {
    var r := ScalarMulAssign(m, One(m.shift));
    forall k | 0 <= k < |m.cells| ensures r.cells[k] == m.cells[k] {
      MulOne(m.shift, m.cells[k]);
    }
    assert r.cells == m.cells;
  }

  /** Entry (i, j) of the product: row i of the multiplier dotted with
      column j of the multiplicand, accumulated from zero at the
      multiplier's shift. */
  function ProductCell(a: MpMatrix, b: MpMatrix, i: nat, j: nat): int
    requires Valid(a) && Valid(b) && a.dim == b.dim && i < a.dim && j < a.dim
  {
    Dot(Fixed(a.shift), ToRows(a)[i], Col(ToRows(b), j), a.dim)
  }

  /** Matrix `*=`: throws on a dimension mismatch; otherwise the product is
      accumulated in a fresh zero matrix at the multiplier's shift, so only
      values from before the assignment are read. */
  function MulAssign(m: MpMatrix, multiplicand: MpMatrix): (r: Result<MpMatrix>)
    requires Valid(m) && Valid(multiplicand)
    ensures r.Err? <==> multiplicand.dim != m.dim
    ensures r.Err? ==> r.fault == DimensionMismatch
    ensures r.Ok? ==> Valid(r.value) && r.value.dim == m.dim && r.value.shift == m.shift
    ensures r.Ok? ==> forall i, j | 0 <= i < m.dim && 0 <= j < m.dim ::
      Get(r.value, i, j) == ProductCell(m, multiplicand, i, j)
  {
    if multiplicand.dim != m.dim then Err(DimensionMismatch)
    else
      var n := m.dim;
      var p := MpMatrix(seq(n * n, k requires 0 <= k < n * n =>
        IndexCovers(n, k); ProductCell(m, multiplicand, k / n, k % n)), n, m.shift);
      assert forall i, j | 0 <= i < n && 0 <= j < n :: Get(p, i, j) == ProductCell(m, multiplicand, i, j) by {
        forall i, j | 0 <= i < n && 0 <= j < n ensures Get(p, i, j) == ProductCell(m, multiplicand, i, j) {
          IndexDecodes(n, i, j);
        }
      }
      Ok(p)
  }

  /** `*=` is the fixed-point matrix product of the row views. */
  lemma {:induction false} MulAssignIsMatMul(a: MpMatrix, b: MpMatrix)
    requires Valid(a) && Valid(b) && a.dim == b.dim
    ensures ToRows(MulAssign(a, b).value) == MatMul(Fixed(a.shift), ToRows(a), ToRows(b))
  {
    var n := a.dim;
    var l := ToRows(MulAssign(a, b).value);
    var p := MatMul(Fixed(a.shift), ToRows(a), ToRows(b));
    forall i | 0 <= i < n ensures l[i] == p[i] {
      forall j | 0 <= j < n ensures l[i][j] == p[i][j] {
        IndexDecodes(n, i, j);
      }
    }
  }

  /** A dot product against a vector that is zero except at position j
      picks out one fixed-point product. */
  lemma {:induction false} FixedDotSparse(S: nat, u: seq<int>, v: seq<int>, j: nat, n: nat)
    requires n <= |u| && n <= |v| && j < |v|
    requires forall k | 0 <= k < n && k != j :: v[k] == 0
    ensures Dot(Fixed(S), u, v, n) == if j < n then Mul(S, u[j], v[j]) else 0
  {
    if n > 0 {
      FixedDotSparse(S, u, v, j, n - 1);
      if n - 1 != j {
        MulZero(S, u[n - 1]);
      }
    }
  }

  /** The same, with the nonzero position in the left vector. */
  lemma {:induction false} FixedDotSparseLeft(S: nat, u: seq<int>, v: seq<int>, i: nat, n: nat)
    requires n <= |u| && n <= |v| && i < |u|
    requires forall k | 0 <= k < n && k != i :: u[k] == 0
    ensures Dot(Fixed(S), u, v, n) == if i < n then Mul(S, u[i], v[i]) else 0
  {
    if n > 0 {
      FixedDotSparseLeft(S, u, v, i, n - 1);
      if n - 1 != i {
        MulZero(S, v[n - 1]);
      }
    }
  }

  /** The identity matrix at a shift: fixed-point one on the diagonal. */
  function IdentityMatrix(dim: nat, shift: nat): (e: MpMatrix)
    ensures Valid(e) && e.dim == dim && e.shift == shift
    ensures forall i, j | 0 <= i < dim && 0 <= j < dim :: Get(e, i, j) == if i == j then One(shift) else 0
  {
    var e := FromRows(Identity(Fixed(shift), dim), shift);
    RowsRoundTrip(Identity(Fixed(shift), dim), shift);
    e
  }

  /** Multiplying by the identity on the right is exact in fixed point. */
  lemma {:induction false} MulIdentityRight(a: MpMatrix)
    requires Valid(a)
    ensures MulAssign(a, IdentityMatrix(a.dim, a.shift)) == Ok(a)
  {
    var n := a.dim;
    var e := IdentityMatrix(n, a.shift);
    var r := MulAssign(a, e).value;
    forall k | 0 <= k < n * n ensures r.cells[k] == a.cells[k] {
      IndexCovers(n, k);
      var i, j := k / n, k % n;
      FixedDotSparse(a.shift, ToRows(a)[i], Col(ToRows(e), j), j, n);
      MulOne(a.shift, Get(a, i, j));
    }
    assert r.cells == a.cells;
  }

  /** And on the left, when the identity carries the multiplicand's shift. */
  lemma {:induction false} MulIdentityLeft(b: MpMatrix)
    requires Valid(b)
    ensures MulAssign(IdentityMatrix(b.dim, b.shift), b) == Ok(b)
  {
    var n := b.dim;
    var e := IdentityMatrix(n, b.shift);
    var r := MulAssign(e, b).value;
    forall k | 0 <= k < n * n ensures r.cells[k] == b.cells[k] {
      IndexCovers(n, k);
      var i, j := k / n, k % n;
      FixedDotSparseLeft(b.shift, ToRows(e)[i], Col(ToRows(b), j), i, n);
      MulOne(b.shift, Get(b, i, j));
    }
    assert r.cells == b.cells;
  }

  /** The triple loop of `*=`, filling the fresh matrix cell by cell in
      storage order and accumulating each cell in place. */
  method MulAssignInPlace(m: MpMatrix, multiplicand: MpMatrix) returns (r: Result<MpMatrix>)
    requires Valid(m) && Valid(multiplicand)
    ensures r == MulAssign(m, multiplicand)
  {
    if multiplicand.dim != m.dim {
      return Err(DimensionMismatch);
    }
    var dim := m.dim;
    var ret := New(dim, m.shift);
    var i := 0;
    while i < dim
      invariant i <= dim
      invariant Valid(ret) && ret.dim == dim && ret.shift == m.shift
      invariant forall a, b | 0 <= a < dim && 0 <= b < dim ::
        Get(ret, a, b) == if a < i then ProductCell(m, multiplicand, a, b) else 0
    {
      var j := 0;
      while j < dim
        invariant j <= dim
        invariant Valid(ret) && ret.dim == dim && ret.shift == m.shift
        invariant forall a, b | 0 <= a < dim && 0 <= b < dim ::
          Get(ret, a, b) == if a < i || (a == i && b < j) then ProductCell(m, multiplicand, a, b) else 0
      {
        var sum := CellSum(m, multiplicand, i, j);
        ret := Set(ret, i, j, sum);
        j := j + 1;
      }
      i := i + 1;
    }
    SameCells(ret, MulAssign(m, multiplicand).value);
    return Ok(ret);
  }

  /** Two matrices of one dimension that agree at every (row, col) have
      the same storage. */
  lemma SameCells(x: MpMatrix, y: MpMatrix)
    requires Valid(x) && Valid(y) && x.dim == y.dim
    requires forall i, j | 0 <= i < x.dim && 0 <= j < x.dim :: Get(x, i, j) == Get(y, i, j)
    ensures x.cells == y.cells
  {
    forall k | 0 <= k < |x.cells| ensures x.cells[k] == y.cells[k] {
      IndexCovers(x.dim, k);
      assert Get(x, k / x.dim, k % x.dim) == Get(y, k / x.dim, k % x.dim);
    }
  }

  /** The innermost loop of `*=`: the products of row i and column j
      added, in order, to the zero the fresh matrix holds. */
  method CellSum(m: MpMatrix, multiplicand: MpMatrix, i: nat, j: nat) returns (sum: int)
    requires Valid(m) && Valid(multiplicand) && m.dim == multiplicand.dim && i < m.dim && j < m.dim
    ensures sum == Dot(Fixed(m.shift), ToRows(m)[i], Col(ToRows(multiplicand), j), m.dim)
  {
    ghost var row := ToRows(m)[i];
    ghost var col := Col(ToRows(multiplicand), j);
    sum := 0;
    var k := 0;
    while k < m.dim
      invariant k <= m.dim
      invariant sum == Dot(Fixed(m.shift), row, col, k)
    {
      assert row[k] == Get(m, i, k) && col[k] == Get(multiplicand, k, j);
      var p := Mul(m.shift, Get(m, i, k), Get(multiplicand, k, j));
      assert Dot(Fixed(m.shift), row, col, k + 1) == sum + p;
      sum := sum + p;
      k := k + 1;
    }
  }

  /** The free operators take the left operand by value: each is the
      compound assignment applied to a copy, and the caller's operands
      are values the model cannot change. */
  function Plus(lhs: MpMatrix, rhs: MpMatrix): (r: Result<MpMatrix>)
    requires Valid(lhs) && Valid(rhs)
    ensures r.Err? <==> lhs.dim != rhs.dim
    ensures r.Ok? ==> Valid(r.value) && r.value.dim == lhs.dim && r.value.shift == lhs.shift
    ensures r.Ok? ==> ToRows(r.value) == MatAdd(ToRows(lhs), ToRows(rhs))
  {
    var r := AddAssign(lhs, rhs);
    if r.Ok? then PlusRows(lhs, rhs, r.value); r else r
  }

  /** Entrywise sum of two equally sized row views. */
  function MatAdd(x: Matrix<int>, y: Matrix<int>): (z: Matrix<int>)
    requires Square(x) && Square(y) && |x| == |y|
    ensures Square(z) && |z| == |x|
  {
    seq(|x|, i requires 0 <= i < |x| => seq(|x|, j requires 0 <= j < |x| => x[i][j] + y[i][j]))
  }

  lemma PlusRows(lhs: MpMatrix, rhs: MpMatrix, s: MpMatrix)
    requires Valid(lhs) && Valid(rhs) && Valid(s) && lhs.dim == rhs.dim == s.dim
    requires forall i, j | 0 <= i < lhs.dim && 0 <= j < lhs.dim :: Get(s, i, j) == Get(lhs, i, j) + Get(rhs, i, j)
    ensures ToRows(s) == MatAdd(ToRows(lhs), ToRows(rhs))
  {
    var a, b := ToRows(s), MatAdd(ToRows(lhs), ToRows(rhs));
    forall i | 0 <= i < lhs.dim ensures a[i] == b[i] {
    }
  }

  function Minus(lhs: MpMatrix, rhs: MpMatrix): (r: Result<MpMatrix>)
    requires Valid(lhs) && Valid(rhs)
    ensures r.Err? <==> lhs.dim != rhs.dim
    ensures r.Ok? ==> Valid(r.value) && r.value.dim == lhs.dim && r.value.shift == lhs.shift
    ensures r.Ok? ==> Plus(r.value, rhs) == Ok(lhs)
  {
    var r := SubAssign(lhs, rhs);
    if r.Ok? then
      var back := AddAssign(r.value, rhs).value;
      assert back.cells == lhs.cells by {
        forall k | 0 <= k < |lhs.cells| ensures back.cells[k] == lhs.cells[k] {
        }
      }
      r
    else r
  }

  function Times(lhs: MpMatrix, rhs: MpMatrix): (r: Result<MpMatrix>)
    requires Valid(lhs) && Valid(rhs)
    ensures r.Err? <==> lhs.dim != rhs.dim
    ensures r.Ok? ==> Valid(r.value) && r.value.dim == lhs.dim && r.value.shift == lhs.shift
    ensures r.Ok? ==> ToRows(r.value) == MatMul(Fixed(lhs.shift), ToRows(lhs), ToRows(rhs))
  {
    var r := MulAssign(lhs, rhs);
    if r.Ok? then MulAssignIsMatMul(lhs, rhs); r else r
  }

  function PlusScalar(lhs: MpMatrix, s: int): (r: MpMatrix)
    requires Valid(lhs)
    ensures Valid(r) && ScalarSubAssign(r, s) == lhs
  {
    ScalarRoundTrip(lhs, s);
    ScalarAddAssign(lhs, s)
  }

  function MinusScalar(lhs: MpMatrix, s: int): (r: MpMatrix)
    requires Valid(lhs)
    ensures Valid(r) && ScalarAddAssign(r, s) == lhs
  {
    var r := ScalarSubAssign(lhs, s);
    var back := ScalarAddAssign(r, s);
    assert back.cells == lhs.cells by {
      forall k | 0 <= k < |lhs.cells| ensures back.cells[k] == lhs.cells[k] {
      }
    }
    r
  }

  function TimesScalar(lhs: MpMatrix, s: int): (r: MpMatrix)
    requires Valid(lhs)
    ensures Valid(r) && r.dim == lhs.dim && r.shift == lhs.shift
    ensures forall i, j | 0 <= i < lhs.dim && 0 <= j < lhs.dim ::
      Get(r, i, j) * Pow2(lhs.shift) <= Get(lhs, i, j) * s < (Get(r, i, j) + 1) * Pow2(lhs.shift)
    ensures s == One(lhs.shift) ==> r == lhs
    ensures s == 0 ==> r == New(lhs.dim, lhs.shift)
  {
    ScalarMulOne(lhs);
    ScalarMulZero(lhs);
    ScalarMulAssign(lhs, s)
  }

  /** Scaling by zero gives the zero matrix. */
  lemma {:induction false} ScalarMulZero(m: MpMatrix)
    requires Valid(m)
    ensures ScalarMulAssign(m, 0) == New(m.dim, m.shift)
  {
    var r := ScalarMulAssign(m, 0);
    forall k | 0 <= k < |r.cells| ensures r.cells[k] == 0 {
      MulZero(m.shift, m.cells[k]);
    }
    assert r.cells == New(m.dim, m.shift).cells;
  }
}
