/** Over exact arithmetic, `invert` computes the inverse of a unit lower
    triangular matrix: the result times the input is the identity, the
    input times the result is the identity, and inverting twice gives the
    input back.

    The proof follows row r through the pivots before it. After pivots
    0 .. p-1 (p <= r), the cells of row r left of p hold the coefficients
    of a combination of input rows, and the cells from p on hold what is
    left of the input row once that combination has been subtracted:
    Rho . L == Ell, where Rho completes the stored coefficients with a 1
    in column r and Ell zeroes the cells left of p. */
module UnitInverseExact {
  import opened Numeric
  import opened Dense
  import opened RealAlgebra
  import opened UnitInverse

  /** The coefficients of the combination held in row r after p pivots. */
  function Rho(x: Matrix<real>, r: nat, p: nat): (v: seq<real>)
    requires Square(x) && r < |x|
    ensures |v| == |x|
    ensures forall j | 0 <= j < |x| :: v[j] == if j < p then x[r][j] else if j == r then 1.0 else 0.0
  {
    seq(|x|, j requires 0 <= j < |x| => if j < p then x[r][j] else if j == r then 1.0 else 0.0)
  }

  /** What the combination leaves of row r: zero left of p, the stored
      cells from p on. */
  function Ell(x: Matrix<real>, r: nat, p: nat): (v: seq<real>)
    requires Square(x) && r < |x|
    ensures |v| == |x|
    ensures forall j | 0 <= j < |x| :: v[j] == if j < p then 0.0 else x[r][j]
  {
    seq(|x|, j requires 0 <= j < |x| => if j < p then 0.0 else x[r][j])
  }

  /** The state after p pivots is still unit lower triangular. */
  lemma {:induction false} ExactUnitLower(l: Matrix<real>, p: nat)
    requires UnitLower(Exact(), l) && p <= |l|
    ensures UnitLower(Exact(), InvertUpTo(Exact(), l, p))
  {
    ExactLaws();
    InvertUpToUnitLower(Exact(), l, p);
  }

  /** Row q is 1 on the diagonal and 0 right of it. */
  ghost predicate PivotReady(x: Matrix<real>, q: nat)
    requires Square(x) && q < |x|
  {
    x[q][q] == 1.0 && forall j | q < j < |x| :: x[q][j] == 0.0
  }

  /** When pivot q runs, the pivot row is ready. */
  lemma {:induction false} PivotRowShape(l: Matrix<real>, q: nat)
    requires UnitLower(Exact(), l) && q < |l|
    ensures PivotReady(InvertUpTo(Exact(), l, q), q)
  {
    ExactUnitLower(l, q);
  }

  /** Pivot q turns the combination for row r > q into the old one minus
      s times the combination for the pivot row, s being row r's cell q.
      Only the pivot row's shape matters: 1 on the diagonal, 0 right of it. */
  lemma {:induction false} RhoStep(x: Matrix<real>, q: nat, r: nat)
    requires Square(x) && q < r < |x|
    requires PivotReady(x, q)
    ensures Rho(InvertPivot(Exact(), x, q), r, q + 1) == Axpy(Rho(x, r, q), x[r][q], Rho(x, q, q))
  {
    forall j | 0 <= j < |x|
      ensures Rho(InvertPivot(Exact(), x, q), r, q + 1)[j] == Axpy(Rho(x, r, q), x[r][q], Rho(x, q, q))[j]
    {
      RhoStepAt(x, q, r, j);
    }
  }

  lemma {:induction false} RhoStepAt(x: Matrix<real>, q: nat, r: nat, j: nat)
    requires Square(x) && q < r < |x| && j < |x|
    requires PivotReady(x, q)
    ensures Rho(InvertPivot(Exact(), x, q), r, q + 1)[j] == Axpy(Rho(x, r, q), x[r][q], Rho(x, q, q))[j]
  {
    var y := InvertPivot(Exact(), x, q);
    var s := x[r][q];
    assert y[r] == EliminateRow(Exact(), x[r], x[q], q);
    var lhs := Rho(y, r, q + 1)[j];
    var rhs := Axpy(Rho(x, r, q), s, Rho(x, q, q))[j];
    assert rhs == Rho(x, r, q)[j] - s * Rho(x, q, q)[j];
    if j < q {
      assert lhs == y[r][j] == x[r][j] - x[q][j] * s;
      Commute(x[q][j], s);
    } else if j == q {
      assert lhs == y[r][q] == -s;
      assert Rho(x, q, q)[j] == 1.0;
    } else {
      assert Rho(x, q, q)[j] == 0.0;
    }
  }

  /** The invariant: after p <= r pivots, Rho . L == Ell for row r. */
  lemma {:induction false} Progress(l: Matrix<real>, p: nat, r: nat, c: nat)
    requires UnitLower(Exact(), l) && p <= r < |l| && c < |l|
    ensures var x := InvertUpTo(Exact(), l, p);
      Dot(Exact(), Rho(x, r, p), Col(l, c), |l|) == Ell(x, r, p)[c]
  {
    if p == 0 {
      ProgressBase(l, r, c);
    } else {
      var q := p - 1;
      Progress(l, q, r, c);
      Progress(l, q, q, c);
      PivotRowShape(l, q);
      ProgressStep(InvertUpTo(Exact(), l, q), InvertUpTo(Exact(), l, p), Col(l, c), p, r, c);
    }
  }

  lemma {:induction false} ProgressBase(l: Matrix<real>, r: nat, c: nat)
    requires Square(l) && r < |l| && c < |l|
    ensures Dot(Exact(), Rho(l, r, 0), Col(l, c), |l|) == Ell(l, r, 0)[c]
  {
    assert Rho(l, r, 0) == Unit(|l|, r);
    ExactDotUnit(r, Col(l, c));
  }

  /** One pivot keeps the invariant for row r, given it for row r and for
      the pivot row. */
  lemma {:induction false} ProgressStep(x: Matrix<real>, y: Matrix<real>, v: seq<real>, p: nat, r: nat, c: nat)
    requires Square(x) && |v| == |x| && 0 < p <= r < |x| && c < |x|
    requires PivotReady(x, p - 1)
    requires y == InvertPivot(Exact(), x, p - 1)
    requires Dot(Exact(), Rho(x, r, p - 1), v, |x|) == Ell(x, r, p - 1)[c]
    requires Dot(Exact(), Rho(x, p - 1, p - 1), v, |x|) == Ell(x, p - 1, p - 1)[c]
    ensures Dot(Exact(), Rho(y, r, p), v, |y|) == Ell(y, r, p)[c]
  {
    var q := p - 1;
    DotRhoStep(x, q, r, v);
    EllStep(x, q, r, c);
  }

  /** Combined with any vector, the new coefficients give the old
      combination minus s times the pivot row's, s being row r's cell q. */
  lemma {:induction false} DotRhoStep(x: Matrix<real>, q: nat, r: nat, v: seq<real>)
    requires Square(x) && q < r < |x| && |v| == |x|
    requires PivotReady(x, q)
    ensures Dot(Exact(), Rho(InvertPivot(Exact(), x, q), r, q + 1), v, |x|)
         == Dot(Exact(), Rho(x, r, q), v, |x|) - x[r][q] * Dot(Exact(), Rho(x, q, q), v, |x|)
  {
    RhoStep(x, q, r);
    ExactDotLinear(Rho(x, r, q), x[r][q], Rho(x, q, q), v, |x|);
  }

  /** Pivot q turns what is left of row r into the old remainder minus s
      times the pivot row's remainder, s being row r's cell q. */
  lemma {:induction false} EllStep(x: Matrix<real>, q: nat, r: nat, c: nat)
    requires Square(x) && q < r < |x| && c < |x|
    requires PivotReady(x, q)
    ensures Ell(InvertPivot(Exact(), x, q), r, q + 1)[c] == Ell(x, r, q)[c] - x[r][q] * Ell(x, q, q)[c]
  {
    var y, s := InvertPivot(Exact(), x, q), x[r][q];
    assert y[r] == EliminateRow(Exact(), x[r], x[q], q);
    if c < q {
      assert s * 0.0 == 0.0;
    } else if c == q {
      assert s * 1.0 == s;
    } else {
      assert x[q][c] == 0.0 && s * 0.0 == 0.0 && 0.0 * s == 0.0;
    }
  }

  /** Row r of the result, combined with the input's columns, is the r-th
      unit vector. */
  lemma {:induction false} InverseRow(l: Matrix<real>, r: nat, c: nat)
    requires UnitLower(Exact(), l) && r < |l| && c < |l|
    ensures Dot(Exact(), Invert(Exact(), l)[r], Col(l, c), |l|) == if r == c then 1.0 else 0.0
  {
    var x := InvertUpTo(Exact(), l, r);
    RowFrozen(Exact(), l, r, r, |l|);
    ExactUnitLower(l, r);
    assert Rho(x, r, r) == x[r];
    Progress(l, r, r, c);
  }

  /** `invert` is a left inverse. */
  lemma {:induction false} LeftInverse(l: Matrix<real>)
    requires UnitLower(Exact(), l)
    ensures MatMul(Exact(), Invert(Exact(), l), l) == Identity(Exact(), |l|)
  {
    var n := |l|;
    var p := MatMul(Exact(), Invert(Exact(), l), l);
    var e := Identity(Exact(), n);
    forall r | 0 <= r < n ensures p[r] == e[r] {
      forall c | 0 <= c < n ensures p[r][c] == e[r][c] {
        InverseRow(l, r, c);
      }
    }
  }

  /** Inverting twice gives the input back. */
  lemma {:induction false} InvertInvolution(l: Matrix<real>)
    requires UnitLower(Exact(), l)
    ensures Invert(Exact(), Invert(Exact(), l)) == l
  {
    var m := Invert(Exact(), l);
    ExactLaws();
    InvertUnitLower(Exact(), l);
    var k := Invert(Exact(), m);
    LeftInverse(l);
    LeftInverse(m);
    calc {
      k;
      { IdentityRight(k); }
      MatMul(Exact(), k, Identity(Exact(), |l|));
      MatMul(Exact(), k, MatMul(Exact(), m, l));
      { MatMulAssociative(k, m, l); }
      MatMul(Exact(), MatMul(Exact(), k, m), l);
      MatMul(Exact(), Identity(Exact(), |l|), l);
      { IdentityLeft(l); }
      l;
    }
  }

  /** `invert` is also a right inverse. */
  lemma {:induction false} RightInverse(l: Matrix<real>)
    requires UnitLower(Exact(), l)
    ensures MatMul(Exact(), l, Invert(Exact(), l)) == Identity(Exact(), |l|)
  {
    var m := Invert(Exact(), l);
    ExactLaws();
    InvertUnitLower(Exact(), l);
    InvertInvolution(l);
    LeftInverse(m);
  }
}
