/** Over exact arithmetic, the block `inversion` assembles is the leading
    block of the inverse of the symmetric matrix whose lower triangle is
    the input, provided the input is zero above its diagonal (which is how
    the moment seeding leaves it).

    With S = L.D.L^t (the factorisation theorem) and P = (L^-1)^t.D^-1.L^-1,
    the block sums are entries of P, and P.S == S.P == I. */
module PartialInverseExact {
  import opened Numeric
  import opened Dense
  import opened RealAlgebra
  import opened Ldlt
  import opened LdltExact
  import opened Diagonal
  import opened UnitInverse
  import opened UnitInverseExact
  import opened PartialInverse

  /** p is a two-sided inverse of s. */
  ghost predicate IsInverse(p: Matrix<real>, s: Matrix<real>)
  {
    && Square(p) && Square(s) && |p| == |s|
    && MatMul(Exact(), p, s) == Identity(Exact(), |s|)
    && MatMul(Exact(), s, p) == Identity(Exact(), |s|)
  }

  /** A matrix has at most one inverse. */
  lemma {:induction false} InverseUnique(p: Matrix<real>, q: Matrix<real>, s: Matrix<real>)
    requires IsInverse(p, s) && IsInverse(q, s)
    ensures p == q
  {
    var n := |s|;
    calc {
      q;
      { IdentityRight(q); }
      MatMul(Exact(), q, Identity(Exact(), n));
      MatMul(Exact(), q, MatMul(Exact(), s, p));
      { MatMulAssociative(q, s, p); }
      MatMul(Exact(), MatMul(Exact(), q, s), p);
      MatMul(Exact(), Identity(Exact(), n), p);
      { IdentityLeft(p); }
      p;
    }
  }

  /** (L^-1)^t . Dinv . L^-1, for the inverse li of L and the reciprocal
      diagonal dinv. */
  function FactorInverse(li: Matrix<real>, dinv: seq<real>): (p: Matrix<real>)
    requires Square(li) && |li| == |dinv|
    ensures Square(p) && |p| == |li|
  {
    MatMul(Exact(), Transpose(li), MatMul(Exact(), Diag(Exact(), dinv), li))
  }

  lemma {:induction false} DivideAsReciprocal(a: real, b: real, d: real)
    requires d != 0.0
    ensures a * b / d == a * ((1.0 / d) * b)
  {
  }

  /** Multiplying first and dividing by d[k] second is multiplying by the
      reciprocal diagonal: the first n terms of a block sum are the first
      n terms of row i of (L^-1)^t times column j of Dinv . L^-1. */
  lemma {:induction false} BlockSumAsDot(li: Matrix<real>, d: seq<real>, dinv: seq<real>, i: nat, j: nat, n: nat)
    requires Square(li) && |li| == |d| == |dinv| && i < |li| && j < |li| && n <= |li|
    requires forall k | 0 <= k < |d| :: d[k] != 0.0 && dinv[k] == 1.0 / d[k]
    ensures BlockSum(Exact(), Transpose(li), li, d, i, j, n)
         == Dot(Exact(), Transpose(li)[i], Col(MatMul(Exact(), Diag(Exact(), dinv), li), j), n)
  {
    if n > 0 {
      var q := n - 1;
      BlockSumAsDot(li, d, dinv, i, j, q);
      BlockTerm(li, d, dinv, i, j, q);
    }
  }

  /** Term k of a block sum is term k of the dot product. */
  lemma {:induction false} BlockTerm(li: Matrix<real>, d: seq<real>, dinv: seq<real>, i: nat, j: nat, k: nat)
    requires Square(li) && |li| == |d| == |dinv| && i < |li| && j < |li| && k < |li|
    requires d[k] != 0.0 && dinv[k] == 1.0 / d[k]
    ensures Exact().div(Exact().mul(Transpose(li)[i][k], li[k][j]), d[k])
         == Exact().mul(Transpose(li)[i][k], Col(MatMul(Exact(), Diag(Exact(), dinv), li), j)[k])
  {
    DiagLeftEntry(dinv, li, k, j);
    DivideAsReciprocal(li[k][i], li[k][j], d[k]);
  }

  /** Each block cell is the matching entry of (L^-1)^t . Dinv . L^-1. */
  lemma {:induction false} BlockSumEntry(li: Matrix<real>, d: seq<real>, dinv: seq<real>, i: nat, j: nat)
    requires Square(li) && |li| == |d| == |dinv| && i < |li| && j < |li|
    requires forall k | 0 <= k < |d| :: d[k] != 0.0 && dinv[k] == 1.0 / d[k]
    ensures BlockSum(Exact(), Transpose(li), li, d, i, j, |li|) == FactorInverse(li, dinv)[i][j]
  {
    BlockSumAsDot(li, d, dinv, i, j, |li|);
  }

  /** Dinv . L^-1 . (L . D . L^t) == L^t */
  lemma {:induction false} LeftCancel(l: Matrix<real>, d: seq<real>, dinv: seq<real>)
    requires UnitLower(Exact(), l) && |l| == |d| == |dinv|
    requires forall k | 0 <= k < |d| :: dinv[k] * d[k] == 1.0
    ensures var li := Invert(Exact(), l); var dl := MatMul(Exact(), Diag(Exact(), d), Transpose(l));
      MatMul(Exact(), MatMul(Exact(), Diag(Exact(), dinv), li), MatMul(Exact(), l, dl)) == Transpose(l)
  {
    var n := |l|;
    var li := Invert(Exact(), l);
    var lt := Transpose(l);
    var dd, di := Diag(Exact(), d), Diag(Exact(), dinv);
    var dl := MatMul(Exact(), dd, lt);
    var s := MatMul(Exact(), l, dl);
    LeftInverse(l);
    DiagInverse(dinv, d);
    calc {
      MatMul(Exact(), MatMul(Exact(), di, li), s);
      { MatMulAssociative(di, li, s); }
      MatMul(Exact(), di, MatMul(Exact(), li, s));
      { MatMulAssociative(li, l, dl); IdentityLeft(dl); }
      MatMul(Exact(), di, dl);
      { MatMulAssociative(di, dd, lt); IdentityLeft(lt); }
      lt;
    }
  }

  /** (D . L^t) . ((L^-1)^t . Dinv . L^-1) == D . (Dinv . L^-1) */
  lemma {:induction false} RightCancel(l: Matrix<real>, d: seq<real>, dinv: seq<real>)
    requires UnitLower(Exact(), l) && |l| == |d| == |dinv|
    requires forall k | 0 <= k < |d| :: d[k] * dinv[k] == 1.0
    ensures var li := Invert(Exact(), l);
      MatMul(Exact(), MatMul(Exact(), Diag(Exact(), d), Transpose(l)), FactorInverse(li, dinv))
        == MatMul(Exact(), Diag(Exact(), d), MatMul(Exact(), Diag(Exact(), dinv), li))
  {
    var n := |l|;
    var li := Invert(Exact(), l);
    var lt, t := Transpose(l), Transpose(li);
    var dd, di := Diag(Exact(), d), Diag(Exact(), dinv);
    var x := MatMul(Exact(), di, li);
    LeftInverse(l);
    TransposeProduct(li, l);
    TransposeIdentity(n);
    calc {
      MatMul(Exact(), MatMul(Exact(), dd, lt), MatMul(Exact(), t, x));
      { MatMulAssociative(dd, lt, MatMul(Exact(), t, x)); }
      MatMul(Exact(), dd, MatMul(Exact(), lt, MatMul(Exact(), t, x)));
      { MatMulAssociative(lt, t, x); IdentityLeft(x); }
      MatMul(Exact(), dd, x);
    }
  }

  /** (L^-1)^t . Dinv . L^-1 is the inverse of L . D . L^t when L is unit
      lower triangular and Dinv holds the reciprocals of D. */
  lemma {:induction false} FactorInverseInverts(l: Matrix<real>, d: seq<real>, dinv: seq<real>)
    requires UnitLower(Exact(), l) && |l| == |d| == |dinv|
    requires forall k | 0 <= k < |d| :: d[k] * dinv[k] == 1.0
    ensures IsInverse(FactorInverse(Invert(Exact(), l), dinv),
                      MatMul(Exact(), l, MatMul(Exact(), Diag(Exact(), d), Transpose(l))))
  {
    var n := |l|;
    var li := Invert(Exact(), l);
    var lt, t := Transpose(l), Transpose(li);
    var dd, di := Diag(Exact(), d), Diag(Exact(), dinv);
    var x := MatMul(Exact(), di, li);
    var dl := MatMul(Exact(), dd, lt);
    var s := MatMul(Exact(), l, dl);
    var p := FactorInverse(li, dinv);
    forall k | 0 <= k < n ensures dinv[k] * d[k] == 1.0 {
      Commute(dinv[k], d[k]);
    }
    calc {
      MatMul(Exact(), p, s);
      { MatMulAssociative(t, x, s); }
      MatMul(Exact(), t, MatMul(Exact(), x, s));
      { LeftCancel(l, d, dinv); }
      MatMul(Exact(), t, lt);
      { TransposeProduct(l, li); }
      Transpose(MatMul(Exact(), l, li));
      { RightInverse(l); TransposeIdentity(n); }
      Identity(Exact(), n);
    }
    calc {
      MatMul(Exact(), s, p);
      { MatMulAssociative(l, dl, p); }
      MatMul(Exact(), l, MatMul(Exact(), dl, p));
      { RightCancel(l, d, dinv); }
      MatMul(Exact(), l, MatMul(Exact(), dd, x));
      { MatMulAssociative(dd, di, li); DiagInverse(d, dinv); IdentityLeft(li); }
      MatMul(Exact(), l, li);
      { RightInverse(l); }
      Identity(Exact(), n);
    }
  }

  /** With the input zero above its diagonal, L read off by rows is the
      factorisation theorem's unit lower factor. */
  lemma {:induction false} RowFactorIsLowerFactor(m: Matrix<real>)
    requires Square(m) && Decompose(Exact(), m).Ok?
    requires forall c, row | 0 <= row < c < |m| :: m[c][row] == 0.0
    ensures RowFactor(Exact(), Decompose(Exact(), m).value) == LowerFactor(Decompose(Exact(), m).value)
  {
    var f := Decompose(Exact(), m).value;
    var a, b := RowFactor(Exact(), f), LowerFactor(f);
    forall r | 0 <= r < |m| ensures a[r] == b[r] {
      forall c | 0 <= c < |m| ensures a[r][c] == b[r][c] {
        if r < c {
          assert f[c][r] == m[c][r];
        }
      }
    }
  }

  /** The inverse of the symmetric input that `inversion` builds from the
      factors it leaves behind. */
  function InverseFromOutcome(o: Outcome<real>): (p: Matrix<real>)
    requires Square(o.lInverse) && |o.lInverse| == |o.diagonal|
    requires Exact().zero !in o.diagonal
    ensures Square(p) && |p| == |o.lInverse|
  {
    FactorInverse(o.lInverse, InvertDiagonal(Exact(), o.diagonal).value)
  }

  /** Over exact arithmetic, a diagonal without zeros is inverted
      entrywise: each entry times its inverse is one. */
  lemma ExactDiagonalInverse(d: seq<real>)
    requires 0.0 !in d
    ensures InvertDiagonal(Exact(), d).Ok?
    ensures forall k | 0 <= k < |d| ::
      d[k] != 0.0 && InvertDiagonal(Exact(), d).value[k] == 1.0 / d[k] &&
      d[k] * InvertDiagonal(Exact(), d).value[k] == 1.0
  {
  }

  /** The correctness theorem of the partial inverse: every cell of the
      assembled block is the corresponding entry of the inverse of the
      symmetric matrix the input stores. */
  lemma {:induction false} InversionInverts(m: Matrix<real>, out: Matrix<real>)
    requires Square(m) && Square(out) && BlockSize(|m|) <= |out|
    requires forall c, row | 0 <= row < c < |m| :: m[c][row] == 0.0
    requires Inversion(Exact(), m, out).Ok?
    ensures var o := Inversion(Exact(), m, out).value;
      && Square(o.lInverse) && |o.lInverse| == |o.diagonal| == |m|
      && Exact().zero !in o.diagonal
      && IsInverse(InverseFromOutcome(o), Symmetric(m))
      && forall i, j | 0 <= i < BlockSize(|m|) && 0 <= j < BlockSize(|m|) ::
           o.mInverse[i][j] == InverseFromOutcome(o)[i][j]
  {
    InversionIsInverse(m, out);
    InversionBlock(m, out);
  }

  /** The factors the pipeline inverts are those of the symmetric input,
      so the inverse they assemble is its inverse. */
  lemma {:induction false} InversionIsInverse(m: Matrix<real>, out: Matrix<real>)
    requires Square(m) && Square(out) && BlockSize(|m|) <= |out|
    requires forall c, row | 0 <= row < c < |m| :: m[c][row] == 0.0
    requires Inversion(Exact(), m, out).Ok?
    ensures var o := Inversion(Exact(), m, out).value;
      && Square(o.lInverse) && |o.lInverse| == |o.diagonal| == |m|
      && Exact().zero !in o.diagonal
      && IsInverse(InverseFromOutcome(o), Symmetric(m))
  {
    var o := Inversion(Exact(), m, out).value;
    var f := Decompose(Exact(), m).value;
    var l := LowerFactor(f);
    var d := FactorDiagonal(f);
    assert o.diagonal == d;
    RowFactorIsLowerFactor(m);
    assert o.lInverse == Invert(Exact(), l);
    ExactDiagonalInverse(d);
    LowerFactorUnitLower(f);
    FactorInverseInverts(l, d, InvertDiagonal(Exact(), d).value);
    LdltProduct(m);
  }

  /** Each cell of the written block is the entry of the assembled inverse. */
  lemma {:induction false} InversionBlock(m: Matrix<real>, out: Matrix<real>)
    requires Square(m) && Square(out) && BlockSize(|m|) <= |out|
    requires forall c, row | 0 <= row < c < |m| :: m[c][row] == 0.0
    requires Inversion(Exact(), m, out).Ok?
    ensures var o := Inversion(Exact(), m, out).value;
      && Square(o.lInverse) && |o.lInverse| == |o.diagonal| == |m|
      && Exact().zero !in o.diagonal
      && forall i, j | 0 <= i < BlockSize(|m|) && 0 <= j < BlockSize(|m|) ::
           o.mInverse[i][j] == InverseFromOutcome(o)[i][j]
  {
    var o := Inversion(Exact(), m, out).value;
    var d := o.diagonal;
    InversionIsInverse(m, out);
    ExactDiagonalInverse(d);
    forall i, j | 0 <= i < BlockSize(|m|) && 0 <= j < BlockSize(|m|)
      ensures o.mInverse[i][j] == InverseFromOutcome(o)[i][j]
    {
      BlockSumEntry(o.lInverse, d, InvertDiagonal(Exact(), d).value, i, j);
    }
  }

  /** Hence the block agrees with any inverse of the symmetric input. */
  lemma InversionBlockOfInverse(m: Matrix<real>, out: Matrix<real>, q: Matrix<real>, i: nat, j: nat)
    requires Square(m) && Square(out) && BlockSize(|m|) <= |out|
    requires forall c, row | 0 <= row < c < |m| :: m[c][row] == 0.0
    requires Inversion(Exact(), m, out).Ok?
    requires IsInverse(q, Symmetric(m))
    requires i < BlockSize(|m|) && j < BlockSize(|m|)
    ensures Inversion(Exact(), m, out).value.mInverse[i][j] == q[i][j]
  {
    InversionInverts(m, out);
    InverseUnique(InverseFromOutcome(Inversion(Exact(), m, out).value), q, Symmetric(m));
  }
}
