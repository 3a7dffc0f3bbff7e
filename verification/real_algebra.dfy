/** Facts about the exact instantiation `Exact()`: its dot products are
    ordinary finite sums, and its matrix product is associative with the
    identity as unit. These are the tools for the algebraic correctness
    theorems; they describe no code of their own. */
module RealAlgebra {
  import opened Numeric
  import opened Dense

  /** s[0] + ... + s[|s|-1], accumulated left to right. */
  function Sum(s: seq<real>): real
  {
    if |s| == 0 then 0.0 else Sum(s[..|s| - 1]) + s[|s| - 1]
  }

  /** The first n termwise products of u and v. */
  function Products(u: seq<real>, v: seq<real>, n: nat): (p: seq<real>)
    requires n <= |u| && n <= |v|
    ensures |p| == n && forall k | 0 <= k < n :: p[k] == u[k] * v[k]
  {
    seq(n, k requires 0 <= k < n => u[k] * v[k])
  }

  function Plus(a: seq<real>, b: seq<real>): (p: seq<real>)
    requires |a| == |b|
    ensures |p| == |a| && forall k | 0 <= k < |a| :: p[k] == a[k] + b[k]
  {
    seq(|a|, k requires 0 <= k < |a| => a[k] + b[k])
  }

  function Scale(c: real, a: seq<real>): (p: seq<real>)
    ensures |p| == |a| && forall k | 0 <= k < |a| :: p[k] == c * a[k]
  {
    seq(|a|, k requires 0 <= k < |a| => c * a[k])
  }

  // Single steps of real arithmetic, kept apart so that each is proved
  // without the surrounding sequence facts in view.
  lemma {:induction false} Distribute(c: real, a: real, b: real)
    ensures c * (a + b) == c * a + c * b
  {
  }

  lemma {:induction false} DistributeDiff(u: real, s: real, w: real, v: real)
    ensures (u - s * w) * v == u * v - s * (w * v)
  {
  }

  lemma {:induction false} Commute(a: real, b: real)
    ensures a * b == b * a
  {
  }

  lemma {:induction false} Rotate(c: real, a: real, b: real)
    ensures c * (a * b) == a * b * c
  {
  }

  lemma {:induction false} Regroup(a: real, b: real, c: real)
    ensures a * (b * c) == a * b * c
  {
  }

  /** The exact dot product is the sum of the termwise products. */
  lemma {:induction false} ExactDot(u: seq<real>, v: seq<real>, n: nat)
    requires n <= |u| && n <= |v|
    ensures Dot(Exact(), u, v, n) == Sum(Products(u, v, n))
  {
    if n > 0 {
      ExactDot(u, v, n - 1);
      assert Products(u, v, n)[..n - 1] == Products(u, v, n - 1);
    }
  }

  lemma {:induction false} SumPlus(a: seq<real>, b: seq<real>)
    requires |a| == |b|
    ensures Sum(a) + Sum(b) == Sum(Plus(a, b))
  {
    if |a| > 0 {
      var n := |a| - 1;
      SumPlus(a[..n], b[..n]);
      assert Plus(a, b)[..n] == Plus(a[..n], b[..n]);
    }
  }

  lemma {:induction false} SumScale(c: real, a: seq<real>)
    ensures c * Sum(a) == Sum(Scale(c, a))
  {
    if |a| > 0 {
      var n := |a| - 1;
      SumScale(c, a[..n]);
      assert Scale(c, a)[..n] == Scale(c, a[..n]) by {
        forall k | 0 <= k < n ensures Scale(c, a)[k] == Scale(c, a[..n])[k] {
        }
      }
      Distribute(c, Sum(a[..n]), a[n]);
    }
  }

  /** A sum whose terms all vanish except the j-th is its j-th term. */
  lemma {:induction false} SumSingle(a: seq<real>, j: nat)
    requires j < |a|
    requires forall k | 0 <= k < |a| && k != j :: a[k] == 0.0
    ensures Sum(a) == a[j]
  {
    var n := |a| - 1;
    if j < n {
      SumSingle(a[..n], j);
    } else {
      SumZero(a[..n]);
    }
  }

  lemma {:induction false} SumZero(a: seq<real>)
    requires forall k | 0 <= k < |a| :: a[k] == 0.0
    ensures Sum(a) == 0.0
  {
    if |a| > 0 {
      SumZero(a[..|a| - 1]);
    }
  }

  /** Trailing zero terms do not change a sum. */
  lemma {:induction false} SumZeroTail(a: seq<real>, j: nat)
    requires j <= |a|
    requires forall k | j <= k < |a| :: a[k] == 0.0
    ensures Sum(a) == Sum(a[..j])
  {
    if |a| > j {
      var n := |a| - 1;
      assert a[..n][..j] == a[..j];
      SumZeroTail(a[..n], j);
    } else {
      assert a[..j] == a;
    }
  }

  ghost predicate Rows(g: seq<seq<real>>, m: nat)
  {
    forall i | 0 <= i < |g| :: |g[i]| == m
  }

  function RowSums(g: seq<seq<real>>): (r: seq<real>)
    ensures |r| == |g| && forall i | 0 <= i < |g| :: r[i] == Sum(g[i])
  {
    seq(|g|, i requires 0 <= i < |g| => Sum(g[i]))
  }

  function Column(g: seq<seq<real>>, m: nat, j: nat): (c: seq<real>)
    requires Rows(g, m) && j < m
    ensures |c| == |g| && forall i | 0 <= i < |g| :: c[i] == g[i][j]
  {
    seq(|g|, i requires 0 <= i < |g| => g[i][j])
  }

  function ColSums(g: seq<seq<real>>, m: nat): (r: seq<real>)
    requires Rows(g, m)
    ensures |r| == m && forall j | 0 <= j < m :: r[j] == Sum(Column(g, m, j))
  {
    seq(m, j requires 0 <= j < m => Sum(Column(g, m, j)))
  }

  /** Summing a rectangle row by row or column by column gives the same. */
  lemma {:induction false} SumSwap(g: seq<seq<real>>, m: nat)
    requires Rows(g, m)
    ensures Sum(RowSums(g)) == Sum(ColSums(g, m))
  {
    if |g| > 0 {
      var n := |g| - 1;
      var h := g[..n];
      SumSwap(h, m);
      assert RowSums(g)[..n] == RowSums(h);
      SumPlus(ColSums(h, m), g[n]);
      forall j | 0 <= j < m ensures ColSums(g, m)[j] == Plus(ColSums(h, m), g[n])[j] {
        assert Column(g, m, j)[..n] == Column(h, m, j);
      }
      assert ColSums(g, m) == Plus(ColSums(h, m), g[n]);
      assert Sum(RowSums(g)) == Sum(RowSums(h)) + Sum(g[n]);
    } else {
      SumZero(ColSums(g, m));
    }
  }

  /** u - s*w, termwise. */
  function Axpy(u: seq<real>, s: real, w: seq<real>): (p: seq<real>)
    requires |u| == |w|
    ensures |p| == |u| && forall k {:trigger p[k]} | 0 <= k < |u| :: p[k] == u[k] - s * w[k]
  {
    seq(|u|, k requires 0 <= k < |u| => u[k] - s * w[k])
  }

  lemma {:induction false} Negate(s: real, x: real)
    ensures (-s) * x == -(s * x)
  {
  }

  /** Termwise, the products of an axpy are those of u less s times those of w. */
  lemma {:induction false} AxpyProducts(u: seq<real>, s: real, w: seq<real>, v: seq<real>, n: nat)
    requires |u| == |w| == |v| && n <= |u|
    ensures Products(Axpy(u, s, w), v, n) == Plus(Products(u, v, n), Scale(-s, Products(w, v, n)))
  {
    var pa, pu, pw := Products(Axpy(u, s, w), v, n), Products(u, v, n), Products(w, v, n);
    forall k | 0 <= k < n ensures pa[k] == Plus(pu, Scale(-s, pw))[k] {
      DistributeDiff(u[k], s, w[k], v[k]);
      Negate(s, w[k] * v[k]);
    }
  }

  /** Sums are linear: the sum of a - s*b termwise is Sum(a) - s*Sum(b). */
  lemma {:induction false} SumLinear(a: seq<real>, s: real, b: seq<real>, c: seq<real>)
    requires |a| == |b| && c == Plus(a, Scale(-s, b))
    ensures Sum(c) == Sum(a) - s * Sum(b)
  {
    SumScale(-s, b);
    SumPlus(a, Scale(-s, b));
    Negate(s, Sum(b));
  }

  /** The sum of the products of an axpy, as a combination of sums. */
  lemma {:induction false} AxpySum(u: seq<real>, s: real, w: seq<real>, v: seq<real>, n: nat)
    requires |u| == |w| == |v| && n <= |u|
    ensures Sum(Products(Axpy(u, s, w), v, n)) == Sum(Products(u, v, n)) - s * Sum(Products(w, v, n))
  {
    AxpyProducts(u, s, w, v, n);
    SumLinear(Products(u, v, n), s, Products(w, v, n), Products(Axpy(u, s, w), v, n));
  }

  /** Dot products are linear in their left argument. */
  lemma {:induction false} ExactDotLinear(u: seq<real>, s: real, w: seq<real>, v: seq<real>, n: nat)
    requires |u| == |w| == |v| && n <= |u|
    ensures Dot(Exact(), Axpy(u, s, w), v, n) == Dot(Exact(), u, v, n) - s * Dot(Exact(), w, v, n)
  {
    AxpySum(u, s, w, v, n);
    ExactDot(Axpy(u, s, w), v, n);
    ExactDot(u, v, n);
    ExactDot(w, v, n);
  }

  /** The j-th unit vector of length n. */
  function Unit(n: nat, j: nat): (e: seq<real>)
    ensures |e| == n && forall k | 0 <= k < n :: e[k] == if k == j then 1.0 else 0.0
  {
    seq(n, k => if k == j then 1.0 else 0.0)
  }

  /** A dot product with a unit vector picks out one entry. */
  lemma {:induction false} ExactDotUnit(j: nat, v: seq<real>)
    requires j < |v|
    ensures Dot(Exact(), Unit(|v|, j), v, |v|) == v[j]
  {
    ExactDot(Unit(|v|, j), v, |v|);
    SumSingle(Products(Unit(|v|, j), v, |v|), j);
  }

  /** Entry (i, j) of an exact matrix product as a finite sum. */
  lemma {:induction false} ExactMatMulEntry(x: Matrix<real>, y: Matrix<real>, i: nat, j: nat)
    requires Square(x) && Square(y) && |x| == |y| && i < |x| && j < |x|
    ensures MatMul(Exact(), x, y)[i][j] == Sum(Products(x[i], Col(y, j), |x|))
  {
    ExactDot(x[i], Col(y, j), |x|);
  }

  lemma {:induction false} MatMulAssociative(x: Matrix<real>, y: Matrix<real>, z: Matrix<real>)
    requires Square(x) && Square(y) && Square(z) && |x| == |y| == |z|
    ensures MatMul(Exact(), MatMul(Exact(), x, y), z) == MatMul(Exact(), x, MatMul(Exact(), y, z))
  {
    var n := |x|;
    var l := MatMul(Exact(), MatMul(Exact(), x, y), z);
    var r := MatMul(Exact(), x, MatMul(Exact(), y, z));
    forall i | 0 <= i < n ensures l[i] == r[i] {
      forall j | 0 <= j < n ensures l[i][j] == r[i][j] {
        var g := Triple(x, y, z, i, j);
        ExactMatMulEntry(MatMul(Exact(), x, y), z, i, j);
        TripleRows(x, y, z, i, j);
        ExactMatMulEntry(x, MatMul(Exact(), y, z), i, j);
        TripleColumns(x, y, z, i, j);
        SumSwap(g, n);
      }
    }
    assert l == r;
  }

  /** The terms x[i][b] * y[b][a] * z[a][j] of entry (i, j) of x*y*z,
      laid out with a as the row index. */
  function Triple(x: Matrix<real>, y: Matrix<real>, z: Matrix<real>, i: nat, j: nat): (g: seq<seq<real>>)
    requires Square(x) && Square(y) && Square(z) && |x| == |y| == |z|
    requires i < |x| && j < |x|
    ensures |g| == |x| && Rows(g, |x|)
    ensures forall a, b | 0 <= a < |x| && 0 <= b < |x| :: g[a][b] == x[i][b] * y[b][a] * z[a][j]
  {
    var n := |x|;
    seq(n, a requires 0 <= a < n => seq(n, b requires 0 <= b < n => x[i][b] * y[b][a] * z[a][j]))
  }

  /** Grouping the terms by a gives the terms of ((x*y)*z)[i][j]. */
  lemma {:induction false} TripleRows(x: Matrix<real>, y: Matrix<real>, z: Matrix<real>, i: nat, j: nat)
    requires Square(x) && Square(y) && Square(z) && |x| == |y| == |z|
    requires i < |x| && j < |x|
    ensures Products(MatMul(Exact(), x, y)[i], Col(z, j), |x|) == RowSums(Triple(x, y, z, i, j))
  {
    var p, r := Products(MatMul(Exact(), x, y)[i], Col(z, j), |x|), RowSums(Triple(x, y, z, i, j));
    forall a | 0 <= a < |x| ensures p[a] == r[a] {
      TripleRow(x, y, z, i, j, a);
    }
  }

  lemma {:induction false} TripleRow(x: Matrix<real>, y: Matrix<real>, z: Matrix<real>, i: nat, j: nat, a: nat)
    requires Square(x) && Square(y) && Square(z) && |x| == |y| == |z|
    requires i < |x| && j < |x| && a < |x|
    ensures Products(MatMul(Exact(), x, y)[i], Col(z, j), |x|)[a] == RowSums(Triple(x, y, z, i, j))[a]
  {
    var n := |x|;
    var g := Triple(x, y, z, i, j);
    ExactMatMulEntry(x, y, i, a);
    var p := Products(x[i], Col(y, a), n);
    SumScale(z[a][j], p);
    ScaledRow(x, y, z, i, j, a);
    Commute(Sum(p), z[a][j]);
    assert Col(z, j)[a] == z[a][j];
  }

  /** Row a of the triple terms is z[a][j] times the products making up
      entry (i, a) of x*y. */
  lemma {:induction false} ScaledRow(x: Matrix<real>, y: Matrix<real>, z: Matrix<real>, i: nat, j: nat, a: nat)
    requires Square(x) && Square(y) && Square(z) && |x| == |y| == |z|
    requires i < |x| && j < |x| && a < |x|
    ensures Scale(z[a][j], Products(x[i], Col(y, a), |x|)) == Triple(x, y, z, i, j)[a]
  {
    var p, g := Products(x[i], Col(y, a), |x|), Triple(x, y, z, i, j);
    forall b | 0 <= b < |x| ensures Scale(z[a][j], p)[b] == g[a][b] {
      Rotate(z[a][j], x[i][b], y[b][a]);
    }
  }

  /** Grouping the terms by b gives the terms of (x*(y*z))[i][j]. */
  lemma {:induction false} TripleColumns(x: Matrix<real>, y: Matrix<real>, z: Matrix<real>, i: nat, j: nat)
    requires Square(x) && Square(y) && Square(z) && |x| == |y| == |z|
    requires i < |x| && j < |x|
    ensures Products(x[i], Col(MatMul(Exact(), y, z), j), |x|) == ColSums(Triple(x, y, z, i, j), |x|)
  {
    var p, c := Products(x[i], Col(MatMul(Exact(), y, z), j), |x|), ColSums(Triple(x, y, z, i, j), |x|);
    forall b | 0 <= b < |x| ensures p[b] == c[b] {
      TripleColumn(x, y, z, i, j, b);
    }
  }

  lemma {:induction false} TripleColumn(x: Matrix<real>, y: Matrix<real>, z: Matrix<real>, i: nat, j: nat, b: nat)
    requires Square(x) && Square(y) && Square(z) && |x| == |y| == |z|
    requires i < |x| && j < |x| && b < |x|
    ensures Products(x[i], Col(MatMul(Exact(), y, z), j), |x|)[b] == ColSums(Triple(x, y, z, i, j), |x|)[b]
  {
    var n := |x|;
    var g := Triple(x, y, z, i, j);
    ExactMatMulEntry(y, z, b, j);
    var p := Products(y[b], Col(z, j), n);
    SumScale(x[i][b], p);
    ScaledColumn(x, y, z, i, j, b);
    assert Col(MatMul(Exact(), y, z), j)[b] == MatMul(Exact(), y, z)[b][j];
  }

  /** Column b of the triple terms is x[i][b] times the products making
      up entry (b, j) of y*z. */
  lemma {:induction false} ScaledColumn(x: Matrix<real>, y: Matrix<real>, z: Matrix<real>, i: nat, j: nat, b: nat)
    requires Square(x) && Square(y) && Square(z) && |x| == |y| == |z|
    requires i < |x| && j < |x| && b < |x|
    ensures Scale(x[i][b], Products(y[b], Col(z, j), |x|)) == Column(Triple(x, y, z, i, j), |x|, b)
  {
    var p, g := Products(y[b], Col(z, j), |x|), Triple(x, y, z, i, j);
    forall a | 0 <= a < |x| ensures Scale(x[i][b], p)[a] == Column(g, |x|, b)[a] {
      Regroup(x[i][b], y[b][a], z[a][j]);
    }
  }

  /** Multiplying by a diagonal matrix on the left scales the rows. */
  lemma {:induction false} DiagLeftEntry(d: seq<real>, x: Matrix<real>, k: nat, c: nat)
    requires Square(x) && |x| == |d| && k < |d| && c < |d|
    ensures MatMul(Exact(), Diag(Exact(), d), x)[k][c] == d[k] * x[k][c]
  {
    ExactMatMulEntry(Diag(Exact(), d), x, k, c);
    SumSingle(Products(Diag(Exact(), d)[k], Col(x, c), |d|), k);
  }

  /** (x.y)^t == y^t . x^t */
  lemma {:induction false} TransposeProduct(x: Matrix<real>, y: Matrix<real>)
    requires Square(x) && Square(y) && |x| == |y|
    ensures Transpose(MatMul(Exact(), x, y)) == MatMul(Exact(), Transpose(y), Transpose(x))
  {
    var n := |x|;
    var l := Transpose(MatMul(Exact(), x, y));
    var r := MatMul(Exact(), Transpose(y), Transpose(x));
    forall i | 0 <= i < n ensures l[i] == r[i] {
      forall j | 0 <= j < n ensures l[i][j] == r[i][j] {
        TransposeProductEntry(x, y, i, j);
      }
    }
  }

  lemma {:induction false} TransposeProductEntry(x: Matrix<real>, y: Matrix<real>, i: nat, j: nat)
    requires Square(x) && Square(y) && |x| == |y| && i < |x| && j < |x|
    ensures MatMul(Exact(), x, y)[j][i] == MatMul(Exact(), Transpose(y), Transpose(x))[i][j]
  {
    var n := |x|;
    ExactMatMulEntry(x, y, j, i);
    ExactMatMulEntry(Transpose(y), Transpose(x), i, j);
    forall k | 0 <= k < n
      ensures Products(x[j], Col(y, i), n)[k] == Products(Transpose(y)[i], Col(Transpose(x), j), n)[k]
    {
      Commute(x[j][k], y[k][i]);
    }
    assert Products(x[j], Col(y, i), n) == Products(Transpose(y)[i], Col(Transpose(x), j), n);
  }

  lemma TransposeIdentity(n: nat)
    ensures Transpose(Identity(Exact(), n)) == Identity(Exact(), n)
  {
    var t := Transpose(Identity(Exact(), n));
    forall i | 0 <= i < n ensures t[i] == Identity(Exact(), n)[i] {
    }
  }

  /** A diagonal matrix times the diagonal matrix of reciprocals. */
  lemma {:induction false} DiagInverse(d: seq<real>, e: seq<real>)
    requires |d| == |e|
    requires forall k | 0 <= k < |d| :: d[k] * e[k] == 1.0
    ensures MatMul(Exact(), Diag(Exact(), d), Diag(Exact(), e)) == Identity(Exact(), |d|)
  {
    var n := |d|;
    var p := MatMul(Exact(), Diag(Exact(), d), Diag(Exact(), e));
    forall i | 0 <= i < n ensures p[i] == Identity(Exact(), n)[i] {
      forall j | 0 <= j < n ensures p[i][j] == Identity(Exact(), n)[i][j] {
        DiagLeftEntry(d, Diag(Exact(), e), i, j);
      }
    }
  }

  lemma {:induction false} IdentityLeft(x: Matrix<real>)
    requires Square(x)
    ensures MatMul(Exact(), Identity(Exact(), |x|), x) == x
  {
    var n := |x|;
    var e := Identity(Exact(), n);
    var p := MatMul(Exact(), e, x);
    forall i, j | 0 <= i < n && 0 <= j < n ensures p[i][j] == x[i][j] {
      ExactMatMulEntry(e, x, i, j);
      SumSingle(Products(e[i], Col(x, j), n), i);
    }
    forall i | 0 <= i < n ensures p[i] == x[i] {
    }
  }

  lemma {:induction false} IdentityRight(x: Matrix<real>)
    requires Square(x)
    ensures MatMul(Exact(), x, Identity(Exact(), |x|)) == x
  {
    var n := |x|;
    var e := Identity(Exact(), n);
    var p := MatMul(Exact(), x, e);
    forall i, j | 0 <= i < n && 0 <= j < n ensures p[i][j] == x[i][j] {
      ExactMatMulEntry(x, e, i, j);
      SumSingle(Products(x[i], Col(e, j), n), j);
    }
    forall i | 0 <= i < n ensures p[i] == x[i] {
    }
  }
}
