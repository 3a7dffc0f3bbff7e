/** Over exact arithmetic, the in-place factorisation is an L.D.L^t
    factorisation of the symmetric matrix whose lower triangle is the
    input: with L unit lower triangular holding the factor's cells below
    the diagonal and D the factor's diagonal, (L.D.L^t)(r, c) equals the
    input's stored entry for every r >= c.

    The proof carries, after p pivots, the identity
      input(r, c) == state(r, c) + sum over k < p of L(r, k) * D(k) * L(c, k)
    for every not yet processed cell r >= c >= p: each pivot moves exactly
    the amount it subtracts from a cell into the sum. */
module LdltExact {
  import opened Faults
  import opened Numeric
  import opened Dense
  import opened RealAlgebra
  import opened Ldlt

  /** The contributions of the processed columns k < p to cell (r, c) of a
      state: multiplier for row r, pivot, multiplier for row c. */
  function Terms(x: Matrix<real>, r: nat, c: nat, p: nat): (t: seq<real>)
    requires Square(x) && r < |x| && c < |x| && p <= |x|
    ensures |t| == p && forall k | 0 <= k < p :: t[k] == x[k][r] * x[k][k] * x[k][c]
  {
    seq(p, k requires 0 <= k < p => x[k][r] * x[k][k] * x[k][c])
  }

  /** The invariant after p pivots (storage is by columns: x[c][r] is the
      cell in row r of column c). */
  ghost predicate Accounted(m: Matrix<real>, x: Matrix<real>, p: nat)
    requires Square(m) && Square(x) && |x| == |m| && p <= |m|
  {
    forall c, r {:trigger Terms(x, r, c, p)} | p <= c <= r < |m| :: m[c][r] == x[c][r] + Sum(Terms(x, r, c, p))
  }

  lemma {:induction false} PivotArith(z: real, a: real, b: real, d: real)
    requires d != 0.0
    ensures (z - b * (a / d)) + (a / d) * d * (b / d) == z
  {
    assert (a / d) * d == a;
    assert a * (b / d) == b * (a / d);
  }

  /** One pivot keeps the invariant for one cell. */
  lemma {:induction false} AccountedCell(m: Matrix<real>, x: Matrix<real>, p: nat, c: nat, r: nat)
    requires Square(m) && Square(x) && |x| == |m| && p < c <= r < |m|
    requires x[p][p] != 0.0
    requires m[c][r] == x[c][r] + Sum(Terms(x, r, c, p))
    ensures var y := PivotStep(Exact(), x, p);
      m[c][r] == y[c][r] + Sum(Terms(y, r, c, p + 1))
  {
    var y := PivotStep(Exact(), x, p);
    PivotCells(x, p, c, r);
    TermsExtend(x, p, c, r);
    PivotArith(x[c][r], x[p][r], x[p][c], x[p][p]);
  }

  /** The cells of one pivot step that the invariant looks at. */
  lemma {:induction false} PivotCells(x: Matrix<real>, p: nat, c: nat, r: nat)
    requires Square(x) && p < c <= r < |x| && x[p][p] != 0.0
    ensures var y := PivotStep(Exact(), x, p); var d := x[p][p];
      && y[p][r] == x[p][r] / d
      && y[p][c] == x[p][c] / d
      && y[p][p] == d
      && y[c][r] == x[c][r] - x[p][c] * (x[p][r] / d)
  {
  }

  /** The pivot adds exactly its own term to every sum. */
  lemma {:induction false} TermsExtend(x: Matrix<real>, p: nat, c: nat, r: nat)
    requires Square(x) && p < c <= r < |x|
    ensures var y := PivotStep(Exact(), x, p);
      Sum(Terms(y, r, c, p + 1)) == Sum(Terms(x, r, c, p)) + y[p][r] * y[p][p] * y[p][c]
  {
    var y := PivotStep(Exact(), x, p);
    forall k | 0 <= k < p ensures Terms(y, r, c, p + 1)[k] == Terms(x, r, c, p)[k] {
      assert y[k] == x[k];
    }
    assert Terms(y, r, c, p + 1)[..p] == Terms(x, r, c, p);
  }

  /** Pivot p - 1 takes the invariant from p - 1 to p. */
  lemma {:induction false} AccountedStep(m: Matrix<real>, x: Matrix<real>, y: Matrix<real>, p: nat)
    requires Square(m) && Square(x) && |x| == |m| && 0 < p <= |m|
    requires Accounted(m, x, p - 1)
    requires p < |m| ==> x[p - 1][p - 1] != 0.0
    requires y == PivotStep(Exact(), x, p - 1)
    ensures Accounted(m, y, p)
  {
    forall c, r | p <= c <= r < |m| ensures m[c][r] == y[c][r] + Sum(Terms(y, r, c, p)) {
      AccountedCell(m, x, p - 1, c, r);
    }
  }

  /** The invariant holds after every successful prefix of pivots. */
  lemma {:induction false} AccountedUpTo(m: Matrix<real>, p: nat)
    requires Square(m) && p <= |m|
    requires DecomposeUpTo(Exact(), m, p).Ok?
    ensures Accounted(m, DecomposeUpTo(Exact(), m, p).value, p)
  {
    if p > 0 {
      var q := p - 1;
      UnfoldOk(Exact(), m, p);
      var x := DecomposeUpTo(Exact(), m, q).value;
      var y := DecomposeUpTo(Exact(), m, p).value;
      assert y == PivotStep(Exact(), x, q);
      AccountedUpTo(m, q);
      if p < |m| {
        PivotNonzero(m, q);
      }
      AccountedStep(m, x, y, p);
    }
  }

  /** A pivot that divides was checked to be nonzero. */
  lemma PivotNonzero(m: Matrix<real>, q: nat)
    requires Square(m) && q + 1 < |m|
    requires DecomposeUpTo(Exact(), m, q + 1).Ok?
    ensures DecomposeUpTo(Exact(), m, q).Ok?
    ensures DecomposeUpTo(Exact(), m, q).value[q][q] != 0.0
  {
  }

  /** L(r, k) read off a factor stored by columns: 1 on the diagonal, the
      factor's cell below it, 0 above it. */
  function Lf(f: Matrix<real>, r: nat, k: nat): real
    requires Square(f) && r < |f| && k < |f|
  {
    if r == k then 1.0 else if k < r then f[k][r] else 0.0
  }

  /** The terms L(r, k) * D(k) * L(c, k) of entry (r, c) of L.D.L^t. */
  function LdltTerms(f: Matrix<real>, r: nat, c: nat): (t: seq<real>)
    requires Square(f) && r < |f| && c < |f|
    ensures |t| == |f| && forall k | 0 <= k < |f| :: t[k] == Lf(f, r, k) * f[k][k] * Lf(f, c, k)
  {
    seq(|f|, k requires 0 <= k < |f| => Lf(f, r, k) * f[k][k] * Lf(f, c, k))
  }

  /** The factor's columns up to c against the state after c pivots:
      columns left of c are final, column c is the state's column c
      normalised by its pivot. */
  lemma {:induction false} FinalColumns(m: Matrix<real>, c: nat, r: nat)
    requires Square(m) && c <= r < |m|
    requires Decompose(Exact(), m).Ok?
    ensures DecomposeUpTo(Exact(), m, c).Ok?
    ensures var f := Decompose(Exact(), m).value; var x := DecomposeUpTo(Exact(), m, c).value;
      && (forall k | 0 <= k < c :: f[k] == x[k])
      && f[c][c] == x[c][c]
      && (c < r ==> x[c][c] != 0.0 && f[c][r] == x[c][r] / x[c][c])
  {
    var n := |m|;
    var f := Decompose(Exact(), m).value;
    OkBefore(Exact(), m, c, n);
    var x := DecomposeUpTo(Exact(), m, c).value;
    forall k | 0 <= k < c ensures f[k] == x[k] {
      ColumnFrozen(Exact(), m, k, c, n);
    }
    var c1 := c + 1;
    ColumnFrozen(Exact(), m, c, c1, n);
    UnfoldOk(Exact(), m, c1);
    assert f[c] == PivotStep(Exact(), x, c)[c];
    if c < r {
      PivotNonzero(m, c);
    }
  }

  /** Entry (r, c), r >= c, of the input is entry (r, c) of L.D.L^t. */
  lemma {:induction false} LdltEntry(m: Matrix<real>, c: nat, r: nat)
    requires Square(m) && c <= r < |m|
    requires Decompose(Exact(), m).Ok?
    ensures m[c][r] == Sum(LdltTerms(Decompose(Exact(), m).value, r, c))
  {
    var f := Decompose(Exact(), m).value;
    FinalColumns(m, c, r);
    var x := DecomposeUpTo(Exact(), m, c).value;
    AccountedAt(m, c, r);
    var t := LdltTerms(f, r, c);
    PrefixTerms(f, x, c, r);
    PivotTerm(f, x, c, r);
    TailTerms(f, c, r);
    SumPieces(t, c, Terms(x, r, c, c), x[c][r]);
  }

  lemma {:induction false} AccountedAt(m: Matrix<real>, c: nat, r: nat)
    requires Square(m) && c <= r < |m|
    requires DecomposeUpTo(Exact(), m, c).Ok?
    ensures var x := DecomposeUpTo(Exact(), m, c).value;
      m[c][r] == x[c][r] + Sum(Terms(x, r, c, c))
  {
    AccountedUpTo(m, c);
  }

  /** Columns right of c contribute nothing to entry (r, c). */
  lemma {:induction false} TailTerms(f: Matrix<real>, c: nat, r: nat)
    requires Square(f) && c <= r < |f|
    ensures forall k | c < k < |f| :: LdltTerms(f, r, c)[k] == 0.0
  {
  }

  /** A sum split at c, with nothing after c. */
  lemma {:induction false} SumPieces(t: seq<real>, c: nat, pre: seq<real>, last: real)
    requires c < |t| && t[..c] == pre && t[c] == last
    requires forall k | c < k < |t| :: t[k] == 0.0
    ensures Sum(t) == Sum(pre) + last
  {
    var c1 := c + 1;
    SumZeroTail(t, c1);
    assert t[..c1][..c] == t[..c];
  }

  /** The terms of columns left of c agree with the invariant's sum. */
  lemma {:induction false} PrefixTerms(f: Matrix<real>, x: Matrix<real>, c: nat, r: nat)
    requires Square(f) && Square(x) && |f| == |x| && c <= r < |f|
    requires forall k | 0 <= k < c :: f[k] == x[k]
    ensures LdltTerms(f, r, c)[..c] == Terms(x, r, c, c)
  {
    forall k | 0 <= k < c ensures LdltTerms(f, r, c)[k] == Terms(x, r, c, c)[k] {
      assert Lf(f, r, k) == f[k][r] == x[k][r];
      assert Lf(f, c, k) == f[k][c] == x[k][c];
      assert f[k][k] == x[k][k];
    }
  }

  /** Column c's own term is what the state still holds in cell (r, c). */
  lemma {:induction false} PivotTerm(f: Matrix<real>, x: Matrix<real>, c: nat, r: nat)
    requires Square(f) && Square(x) && |f| == |x| && c <= r < |f|
    requires f[c][c] == x[c][c]
    requires c < r ==> x[c][c] != 0.0 && f[c][r] == x[c][r] / x[c][c]
    ensures LdltTerms(f, r, c)[c] == x[c][r]
  {
    assert Lf(f, c, c) == 1.0;
    if c < r {
      assert Lf(f, r, c) == f[c][r];
      CancelPivot(x[c][r], x[c][c]);
    }
  }

  lemma {:induction false} CancelPivot(a: real, d: real)
    requires d != 0.0
    ensures a / d * 1.0 * d == a
  {
  }

  /** L by rows, with its unit diagonal and zeros above it. */
  function LowerFactor(f: Matrix<real>): (l: Matrix<real>)
    requires Square(f)
    ensures Square(l) && |l| == |f|
    ensures forall r, k | 0 <= r < |f| && 0 <= k < |f| :: l[r][k] == Lf(f, r, k)
  {
    seq(|f|, r requires 0 <= r < |f| => seq(|f|, k requires 0 <= k < |f| => Lf(f, r, k)))
  }

  /** D, the factor's diagonal. */
  function FactorDiagonal(f: Matrix<real>): (d: seq<real>)
    requires Square(f)
    ensures |d| == |f| && forall k | 0 <= k < |f| :: d[k] == f[k][k]
  {
    seq(|f|, k requires 0 <= k < |f| => f[k][k])
  }

  /** The symmetric matrix whose lower triangle the column-oriented input
      stores: entry (r, c) with r >= c is cell m[c][r]. */
  function Symmetric(m: Matrix<real>): (s: Matrix<real>)
    requires Square(m)
    ensures Square(s) && |s| == |m|
    ensures forall r, c | 0 <= r < |m| && 0 <= c < |m| :: s[r][c] == if c <= r then m[c][r] else m[r][c]
  {
    seq(|m|, r requires 0 <= r < |m| =>
      seq(|m|, c requires 0 <= c < |m| => if c <= r then m[c][r] else m[r][c]))
  }

  lemma LowerFactorUnitLower(f: Matrix<real>)
    requires Square(f)
    ensures UnitLower(Exact(), LowerFactor(f))
  {
  }

  /** The factorisation theorem: L.D.L^t is the symmetric input. */
  lemma {:induction false} LdltProduct(m: Matrix<real>)
    requires Square(m)
    requires Decompose(Exact(), m).Ok?
    ensures var f := Decompose(Exact(), m).value; var l := LowerFactor(f);
      MatMul(Exact(), l, MatMul(Exact(), Diag(Exact(), FactorDiagonal(f)), Transpose(l))) == Symmetric(m)
  {
    var f := Decompose(Exact(), m).value;
    var l := LowerFactor(f);
    var p := MatMul(Exact(), l, MatMul(Exact(), Diag(Exact(), FactorDiagonal(f)), Transpose(l)));
    forall r | 0 <= r < |m| ensures p[r] == Symmetric(m)[r] {
      forall c | 0 <= c < |m| ensures p[r][c] == Symmetric(m)[r][c] {
        ProductEntry(f, r, c);
        if c <= r {
          LdltEntry(m, c, r);
        } else {
          TermsSymmetric(f, r, c);
          LdltEntry(m, r, c);
        }
      }
    }
  }

  /** Entry (r, c) of L.D.L^t is the sum of its terms. */
  lemma {:induction false} ProductEntry(f: Matrix<real>, r: nat, c: nat)
    requires Square(f) && r < |f| && c < |f|
    ensures var l := LowerFactor(f);
      MatMul(Exact(), l, MatMul(Exact(), Diag(Exact(), FactorDiagonal(f)), Transpose(l)))[r][c]
        == Sum(LdltTerms(f, r, c))
  {
    var n := |f|;
    var l := LowerFactor(f);
    var dlt := MatMul(Exact(), Diag(Exact(), FactorDiagonal(f)), Transpose(l));
    ExactMatMulEntry(l, dlt, r, c);
    forall k | 0 <= k < n ensures Products(l[r], Col(dlt, c), n)[k] == LdltTerms(f, r, c)[k] {
      ProductTerm(f, r, c, k);
    }
    assert Products(l[r], Col(dlt, c), n) == LdltTerms(f, r, c);
  }

  lemma {:induction false} ProductTerm(f: Matrix<real>, r: nat, c: nat, k: nat)
    requires Square(f) && r < |f| && c < |f| && k < |f|
    ensures var l := LowerFactor(f); var dlt := MatMul(Exact(), Diag(Exact(), FactorDiagonal(f)), Transpose(l));
      Products(l[r], Col(dlt, c), |f|)[k] == LdltTerms(f, r, c)[k]
  {
    var l := LowerFactor(f);
    var dlt := MatMul(Exact(), Diag(Exact(), FactorDiagonal(f)), Transpose(l));
    DiagLeftEntry(FactorDiagonal(f), Transpose(l), k, c);
    var a, b, e := Lf(f, r, k), f[k][k], Lf(f, c, k);
    assert dlt[k][c] == b * e;
    assert Products(l[r], Col(dlt, c), |f|)[k] == a * (b * e);
    Regroup(a, b, e);
  }

  lemma {:induction false} TermsSymmetric(f: Matrix<real>, r: nat, c: nat)
    requires Square(f) && r < |f| && c < |f|
    ensures LdltTerms(f, r, c) == LdltTerms(f, c, r)
  {
    forall k | 0 <= k < |f| ensures LdltTerms(f, r, c)[k] == LdltTerms(f, c, r)[k] {
      Reverse(Lf(f, r, k), f[k][k], Lf(f, c, k));
    }
  }

  lemma {:induction false} Reverse(a: real, b: real, c: real)
    ensures a * b * c == c * b * a
  {
  }
}
