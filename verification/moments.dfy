/** Seeding a matrix with the Hankel moments (2(i+j)+1)! * 2, as fixed-point
    raws at the matrix's shift.

    Two revisions exist. The column-at-a-time one (src/moment_algorithm.hpp)
    fills only the entries index >= id of each column, i.e. the lower
    triangle of the column-oriented matrix the factorisation reads. The
    other (src/mpmatrix_algorithm.hpp) fills whole columns, either directly
    or, in `momentInit_reuse`, by copying each column's upper part from its
    left neighbour, shifted up by one. */
module Moments {
  import opened Faults
  import opened FixedPoint
  import opened Dense

  /** The raw of the moment for cell (i, j) at shift S: the factorial
      shifted left by S + 1, i.e. the value (2(i+j)+1)! * 2. */
  function HalfGamma(S: nat, i: nat, j: nat): (raw: nat)
    ensures Value(S, raw) == 2.0 * Factorial(2 * (i + j) + 1) as real
  {
    var f := Factorial(2 * (i + j) + 1);
    Pow2Add(S, 1);
    ScaledValue(S, f);
    f * Pow2(S + 1)
  }

  lemma {:induction false} ScaledValue(S: nat, f: nat)
    ensures Value(S, f * Pow2(S + 1)) == 2.0 * f as real
  {
    Pow2Add(S, 1);
    var p := Pow2(S) as real;
    assert (f * Pow2(S + 1)) as real == (2.0 * f as real) * p;
  }

  /** The moment depends on the cell only through i + j: it is symmetric,
      and constant along anti-diagonals (the Hankel property the reuse
      variant relies on). */
  lemma HalfGammaHankel(S: nat, i: nat, j: nat, i': nat, j': nat)
    requires i + j == i' + j'
    ensures HalfGamma(S, i, j) == HalfGamma(S, i', j')
  {
  }

  lemma HalfGammaSymmetric(S: nat, i: nat, j: nat)
    ensures HalfGamma(S, i, j) == HalfGamma(S, j, i)
  {
    HalfGammaHankel(S, i, j, j, i);
  }

  /** The moments grow strictly along the column. */
  lemma {:induction false} HalfGammaIncreasing(S: nat, i: nat, j: nat)
    ensures HalfGamma(S, i, j) < HalfGamma(S, i, j + 1)
  {
    var n := 2 * (i + j) + 1;
    assert 2 * (i + (j + 1)) + 1 == n + 2;
    FactorialGrows(n);
    ScaleStrict(Factorial(n), Factorial(n + 2), Pow2(S + 1));
  }

  lemma {:induction false} FactorialGrows(n: nat)
    ensures Factorial(n) < Factorial(n + 2)
  {
    var f := Factorial(n);
    var g := Factorial(n + 1);
    assert g == (n + 1) * f;
    assert g == f + n * f;
    assert Factorial(n + 2) == (n + 2) * g;
    assert Factorial(n + 2) == g + (n + 1) * g;
  }

  lemma {:induction false} ScaleStrict(a: nat, b: nat, c: nat)
    requires a < b && c > 0
    ensures a * c < b * c
  {
    assert b * c == a * c + (b - a) * c;
  }

  // ---------------------------------------------------------------------
  // The lower-triangle revision (src/moment_algorithm.hpp).

  /** `momentInitCol`: entries index >= id of column id get their moment;
      the ones above stay. */
  function LowerCol(S: nat, col: seq<int>, id: nat): (r: seq<int>)
    ensures |r| == |col|
    ensures forall k | 0 <= k < |col| && k < id :: r[k] == col[k]
    ensures forall k | id <= k < |col| :: r[k] == HalfGamma(S, id, k)
  {
    seq(|col|, k requires 0 <= k < |col| => if k < id then col[k] else HalfGamma(S, id, k))
  }

  /** `momentInit`: every column, each with its own id. The C++ runs the
      columns in parallel; they write disjoint vectors, so the order does
      not matter and the model runs them in sequence. */
  function LowerInit(S: nat, m: Matrix<int>): (r: Matrix<int>)
    ensures |r| == |m| && forall c | 0 <= c < |m| :: r[c] == LowerCol(S, m[c], c)
  {
    seq(|m|, c requires 0 <= c < |m| => LowerCol(S, m[c], c))
  }

  /** The seeded matrix stores a Hankel matrix in its lower triangle: the
      entry at (row r, column c), r >= c, depends only on r + c. Cells above
      the diagonal keep their old values. */
  lemma LowerInitHankel(S: nat, m: Matrix<int>)
    requires Square(m)
    ensures var r := LowerInit(S, m);
      && Square(r)
      && (forall c, row, c', row' | 0 <= c <= row < |m| && 0 <= c' <= row' < |m| && c + row == c' + row' ::
            r[c][row] == r[c'][row'])
      && (forall c, row | 0 <= row < c < |m| :: r[c][row] == m[c][row])
  {
  }

  /** The seeding leaves zeros above the diagonal of a zero matrix, the
      shape the exact correctness theorem of the partial inverse assumes. */
  lemma LowerInitOfZero(S: nat, n: nat)
    ensures var z := seq(n, _ => seq(n, _ => 0)); var r := LowerInit(S, z);
      Square(r) && forall c, row | 0 <= row < c < n :: r[c][row] == 0
  {
  }

  /** The column loops of `momentInit`, writing one entry at a time. */
  method LowerInitInPlace(S: nat, m0: Matrix<int>) returns (m: Matrix<int>)
    requires Square(m0)
    ensures m == LowerInit(S, m0)
  {
    m := m0;
    var c := 0;
    while c < |m|
      invariant c <= |m| == |m0|
      invariant forall k | 0 <= k < |m| :: m[k] == if k < c then LowerCol(S, m0[k], k) else m0[k]
    {
      var index := c;
      while index < |m[c]|
        invariant |m| == |m0| && c < |m|
        invariant c <= index <= |m[c]| == |m0[c]|
        invariant forall k | 0 <= k < |m| && k != c :: m[k] == if k < c then LowerCol(S, m0[k], k) else m0[k]
        invariant forall k | 0 <= k < |m[c]| :: m[c][k] == if c <= k < index then HalfGamma(S, c, k) else m0[c][k]
      {
        m := m[c := m[c][index := HalfGamma(S, c, index)]];
        index := index + 1;
      }
      assert m[c] == LowerCol(S, m0[c], c);
      c := c + 1;
    }
    assert m == LowerInit(S, m0);
  }

  // ---------------------------------------------------------------------
  // The whole-column revision (src/mpmatrix_algorithm.hpp).

  /** `momentInitCol0`: every entry j of column id gets its moment. */
  function FullCol(S: nat, size: nat, id: nat): (r: seq<int>)
    ensures |r| == size && forall j | 0 <= j < size :: r[j] == HalfGamma(S, id, j)
  {
    seq(size, j requires 0 <= j < size => HalfGamma(S, id, j))
  }

  /** `momentInit`: `momentInitCol0` on every column. */
  function FullInit(S: nat, m: Matrix<int>): (r: Matrix<int>)
    requires Square(m)
    ensures Square(r) && |r| == |m|
    ensures forall c, k | 0 <= c < |m| && 0 <= k < |m| :: r[c][k] == HalfGamma(S, c, k)
  {
    seq(|m|, c requires 0 <= c < |m| => FullCol(S, |m|, c))
  }

  /** The fully seeded matrix is symmetric, and its lower triangle is the
      one the column-at-a-time revision seeds. */
  lemma {:induction false} FullInitSymmetric(S: nat, m: Matrix<int>)
    requires Square(m)
    ensures Transpose(FullInit(S, m)) == FullInit(S, m)
    ensures forall c, row | 0 <= c <= row < |m| :: FullInit(S, m)[c][row] == LowerInit(S, m)[c][row]
  {
    var r := FullInit(S, m);
    var t := Transpose(r);
    forall c | 0 <= c < |m| ensures t[c] == r[c] {
      forall row | 0 <= row < |m| ensures t[c][row] == r[c][row] {
        HalfGammaSymmetric(S, c, row);
      }
    }
  }

  /** `momentInitCol(prev, curr)` as written: a size mismatch throws; the
      copy loop runs i = 0 .. id inclusive and so reads prev[id + 1], which
      is past the end when id + 1 >= size; then entries j >= id get their
      moments, overwriting the copy at j == id. */
  function ReuseCol(S: nat, prev: seq<int>, curr: seq<int>, id: nat): (r: Result<seq<int>>)
    ensures |prev| != |curr| ==> r == Err(DimensionMismatch)
    ensures |prev| == |curr| ==> (r.Err? <==> id + 1 >= |prev|)
    ensures r.Err? ==> r.fault in {DimensionMismatch, OutOfBounds}
    ensures r.Ok? ==> |r.value| == |curr|
    ensures r.Ok? ==> forall j | 0 <= j < id :: r.value[j] == prev[j + 1]
    ensures r.Ok? ==> forall j | id <= j < |curr| :: r.value[j] == HalfGamma(S, id, j)
  {
    if |prev| != |curr| then Err(DimensionMismatch)
    else if id + 1 >= |prev| then Err(OutOfBounds)
    else Ok(seq(|curr|, j requires 0 <= j < |curr| => if j < id then prev[j + 1] else HalfGamma(S, id, j)))
  }

  /** The reuse loop from column i on: each column is rebuilt from the one
      before it, with the copy-and-seed step as written or, when `fixed`,
      as corrected. */
  function ReuseFrom(S: nat, m: Matrix<int>, i: nat, fixed: bool): (r: Result<Matrix<int>>)
    requires Square(m) && 1 <= i <= |m|
    ensures r.Ok? ==> Square(r.value) && |r.value| == |m|
    ensures r.Ok? ==> forall c | 0 <= c < i :: r.value[c] == m[c]
    ensures r.Ok? ==> forall c, j | i <= c <= j < |m| :: r.value[c][j] == HalfGamma(S, c, j)
    ensures fixed ==> r.Ok?
    decreases |m| - i
  {
    if i == |m| then Ok(m)
    else
      var col := if fixed then Ok(ReuseColFixed(S, m[i - 1], |m|, i)) else ReuseCol(S, m[i - 1], m[i], i);
      match col
      case Err(f) => Err(f)
      case Ok(v) => ReuseFrom(S, m[i := v], i + 1, fixed)
  }

  /** `momentInit_reuse` as written: it seeds matrix[0] directly, which
      for an empty matrix is a read past the end, then builds each later
      column from its left neighbour. */
  function ReuseInitAsWritten(S: nat, m: Matrix<int>): (r: Result<Matrix<int>>)
    requires Square(m)
    ensures |m| == 0 ==> r == Err(OutOfBounds)
    ensures |m| == 1 ==> r == Ok(FullInit(S, m))
    ensures |m| >= 2 ==> r == Err(OutOfBounds)
  {
    if |m| == 0 then Err(OutOfBounds)
    else
      var m1 := m[0 := FullCol(S, |m|, 0)];
      ReuseLastColumnFails(S, m1, 1);
      assert |m| == 1 ==> m1 == FullInit(S, m);
      ReuseFrom(S, m1, 1, false)
  }

  /** Every reuse step short of the last succeeds; the last reads one past
      the end of its left neighbour. */
  lemma {:induction false} ReuseLastColumnFails(S: nat, m: Matrix<int>, i: nat)
    requires Square(m) && 1 <= i <= |m|
    ensures i < |m| ==> ReuseFrom(S, m, i, false) == Err(OutOfBounds)
    ensures i == |m| ==> ReuseFrom(S, m, i, false) == Ok(m)
    decreases |m| - i
  {
    if i < |m| {
      var col := ReuseCol(S, m[i - 1], m[i], i);
      if i + 1 < |m| {
        ReuseLastColumnFails(S, m[i := col.value], i + 1);
      }
    }
  }

  /** A concrete instance: the 2 x 2 case already faults. */
  lemma ReuseAsWrittenFailsOnTwoByTwo()
    ensures ReuseInitAsWritten(0, [[0, 0], [0, 0]]) == Err(OutOfBounds)
  {
  }

  /** The evidently intended copy: only entries i < id, the ones the
      seeding loop does not overwrite, come from the neighbour. */
  function ReuseColFixed(S: nat, prev: seq<int>, size: nat, id: nat): (r: seq<int>)
    requires id < size <= |prev|
    ensures |r| == size
    ensures forall j | 0 <= j < id :: r[j] == prev[j + 1]
    ensures forall j | id <= j < size :: r[j] == HalfGamma(S, id, j)
  {
    seq(size, j requires 0 <= j < size => if j < id then prev[j + 1] else HalfGamma(S, id, j))
  }

  /** `momentInit_reuse` corrected: an empty matrix is left alone, and the
      copy stops before the diagonal. */
  function ReuseInit(S: nat, m: Matrix<int>): (r: Matrix<int>)
    requires Square(m)
    ensures Square(r) && |r| == |m|
    ensures forall c, k | 0 <= c < |m| && 0 <= k < |m| :: r[c][k] == HalfGamma(S, c, k)
  {
    if |m| == 0 then m
    else
      var m1 := m[0 := FullCol(S, |m|, 0)];
      var r := ReuseFrom(S, m1, 1, true);
      ReuseFromSeeds(S, m1, 1);
      r.value
  }

  /** When the columns left of i hold their moments, the corrected reuse
      loop seeds the rest exactly as the direct seeding does. */
  lemma {:induction false} ReuseFromSeeds(S: nat, m: Matrix<int>, i: nat)
    requires Square(m) && 1 <= i <= |m|
    requires forall c | 0 <= c < i :: m[c] == FullCol(S, |m|, c)
    ensures ReuseFrom(S, m, i, true) == Ok(FullInit(S, m))
    decreases |m| - i
  {
    if i == |m| {
      assert m == FullInit(S, m);
    } else {
      var v := ReuseColFixed(S, m[i - 1], |m|, i);
      forall j | 0 <= j < |m| ensures v[j] == FullCol(S, |m|, i)[j] {
        if j < i {
          HalfGammaHankel(S, i - 1, j + 1, i, j);
        }
      }
      assert v == FullCol(S, |m|, i);
      var m' := m[i := v];
      assert FullInit(S, m') == FullInit(S, m);
      ReuseFromSeeds(S, m', i + 1);
    }
  }

  /** The corrected reuse seeding and the direct one agree on every
      square matrix, the empty one included. */
  lemma ReuseInitIsInit(S: nat, m: Matrix<int>)
    requires Square(m)
    ensures ReuseInit(S, m) == FullInit(S, m)
  {
    if |m| > 0 {
      var m1 := m[0 := FullCol(S, |m|, 0)];
      ReuseFromSeeds(S, m1, 1);
      assert FullInit(S, m1) == FullInit(S, m);
    }
  }

  // ---------------------------------------------------------------------
  // The placeholders at the end of src/mpmatrix_algorithm.hpp.

  /** The stub `cholesky_decompose`: an empty body, so the matrix is
      returned as it came. */
  function CholeskyDecomposeStub(m: Matrix<int>): (r: Matrix<int>)
    ensures r == m
  {
    m
  }

  /** The stub `cholesky_update`: the current column is returned as it
      came, whatever the left column holds. */
  function CholeskyUpdateStub(leftCol: seq<int>, currCol: seq<int>): (r: seq<int>)
    ensures r == currCol
  {
    currCol
  }
}
