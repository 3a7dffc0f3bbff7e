/** The classic square-root Cholesky factorisation `cholesky(initial,
    lower)` (src/cholesky.cpp), over the flat row-major container.

    The cells (i, j) with j <= i are visited row by row, left to right.
    A diagonal cell gets the fixed-point square root of the input's
    diagonal entry minus the squares already in its row; an off-diagonal
    cell gets the input's entry minus the products of the two rows so far,
    divided by the column's diagonal cell. The C++ returns false on a
    dimension mismatch; a negative square-root argument or a zero diagonal
    divisor, which abort the multiple-precision library, are faults here.
    All arithmetic is at the input's shift. */
module ClassicCholesky {
  import opened Faults
  import opened FixedPoint
  import opened FlatMatrix

  /** Cell (a, b) is visited before cell (i, j) in the row-major sweep. */
  predicate Before(a: nat, b: nat, i: nat, j: nat)
  {
    a < i || (a == i && b < j)
  }

  /** The running sum over t < k of lower(a, t) * lower(b, t), accumulated
      from zero; with a == b, the sum of squares. */
  function Gram(S: nat, x: MpMatrix, a: nat, b: nat, k: nat): int
    requires Valid(x) && a < x.dim && b < x.dim && k <= x.dim
  {
    if k == 0 then 0 else Gram(S, x, a, b, k - 1) + Mul(S, Get(x, a, k - 1), Get(x, b, k - 1))
  }

  /** The value written at cell (i, j), or the fault that aborts there. */
  function CellStep(S: nat, initial: MpMatrix, x: MpMatrix, i: nat, j: nat): (r: Result<MpMatrix>)
    requires Valid(initial) && Valid(x) && initial.dim == x.dim && j <= i < x.dim
    ensures r.Err? ==> (if j == i then r.fault == NegativeRoot else r.fault == DivisionByZero)
    ensures r.Ok? ==> Valid(r.value) && r.value.dim == x.dim && r.value.shift == x.shift
    ensures r.Ok? ==> forall a, b | 0 <= a < x.dim && 0 <= b < x.dim && (a, b) != (i, j) ::
      Get(r.value, a, b) == Get(x, a, b)
    ensures j == i ==> (r.Ok? <==> Get(initial, i, i) - Gram(S, x, i, i, i) >= 0)
    ensures j == i && r.Ok? ==> Get(r.value, i, i) == Sqrt(S, Get(initial, i, i) - Gram(S, x, i, i, i))
    ensures j < i ==> (r.Ok? <==> Get(x, j, j) != 0)
    ensures j < i && r.Ok? ==>
      Get(r.value, i, j) == Div(S, Get(initial, i, j) - Gram(S, x, i, j, j), Get(x, j, j))
  {
    if j == i then
      var arg := Get(initial, j, j) - Gram(S, x, j, j, j);
      if arg < 0 then Err(NegativeRoot) else Ok(Set(x, j, j, Sqrt(S, arg)))
    else
      var d := Get(x, j, j);
      if d == 0 then Err(DivisionByZero)
      else Ok(Set(x, i, j, Div(S, Get(initial, i, j) - Gram(S, x, i, j, j), d)))
  }

  /** Cells (i, j), (i, j + 1), ..., (i, i) of row i. */
  function SweepRow(S: nat, initial: MpMatrix, x: MpMatrix, i: nat, j: nat): (r: Result<MpMatrix>)
    requires Valid(initial) && Valid(x) && initial.dim == x.dim && i < x.dim
    ensures r.Err? ==> r.fault in {NegativeRoot, DivisionByZero}
    ensures r.Ok? ==> Valid(r.value) && r.value.dim == x.dim && r.value.shift == x.shift
    ensures r.Ok? ==> forall a, b | 0 <= a < x.dim && 0 <= b < x.dim && !(a == i && j <= b <= i) ::
      Get(r.value, a, b) == Get(x, a, b)
    decreases i + 1 - j
  {
    if j > i then Ok(x)
    else
      match CellStep(S, initial, x, i, j)
      case Err(f) => Err(f)
      case Ok(y) => SweepRow(S, initial, y, i, j + 1)
  }

  /** Rows i, i + 1, ..., dim - 1. */
  function Sweep(S: nat, initial: MpMatrix, x: MpMatrix, i: nat): (r: Result<MpMatrix>)
    requires Valid(initial) && Valid(x) && initial.dim == x.dim
    ensures r.Err? ==> r.fault in {NegativeRoot, DivisionByZero}
    ensures r.Ok? ==> Valid(r.value) && r.value.dim == x.dim && r.value.shift == x.shift
    ensures r.Ok? ==> forall a, b | 0 <= a < x.dim && 0 <= b < x.dim && !(i <= a && b <= a) ::
      Get(r.value, a, b) == Get(x, a, b)
    decreases x.dim - i
  {
    if i >= x.dim then Ok(x)
    else
      match SweepRow(S, initial, x, i, 0)
      case Err(f) => Err(f)
      case Ok(y) => Sweep(S, initial, y, i + 1)
  }

  /** `cholesky(initial, lower)`: the returned flag and the new `lower`. A
      dimension mismatch returns false with `lower` untouched; otherwise
      the factor fills the lower triangle and diagonal, and the cells above
      the diagonal keep whatever they held. */
  function Cholesky(initial: MpMatrix, lower: MpMatrix): (r: Result<(bool, MpMatrix)>)
    requires Valid(initial) && Valid(lower)
    ensures initial.dim != lower.dim ==> r == Ok((false, lower))
    ensures r.Ok? ==> (r.value.0 <==> initial.dim == lower.dim)
    ensures r.Err? ==> r.fault in {NegativeRoot, DivisionByZero}
    ensures r.Ok? ==> Valid(r.value.1) && r.value.1.dim == lower.dim && r.value.1.shift == lower.shift
    ensures r.Ok? ==> forall a, b | 0 <= a < b < lower.dim :: Get(r.value.1, a, b) == Get(lower, a, b)
  {
    if initial.dim != lower.dim then Ok((false, lower))
    else
      match Sweep(initial.shift, initial, lower, 0)
      case Err(f) => Err(f)
      case Ok(l) => Ok((true, l))
  }

  // ---------------------------------------------------------------------
  // The result solves the factorisation's fixed-point equations.

  /** The equation cell (a, b), b <= a, of the factor satisfies, with the
      argument of the root non-negative and the divisor nonzero. */
  predicate CellHolds(S: nat, initial: MpMatrix, l: MpMatrix, a: nat, b: nat)
    requires Valid(initial) && Valid(l) && initial.dim == l.dim && b <= a < l.dim
  {
    if a == b then
      var arg := Get(initial, a, a) - Gram(S, l, a, a, a);
      arg >= 0 && Get(l, a, a) == Sqrt(S, arg)
    else
      Get(l, b, b) != 0 && Get(l, a, b) == Div(S, Get(initial, a, b) - Gram(S, l, a, b, b), Get(l, b, b))
  }

  /** Every cell of the lower triangle visited before (i, j) holds. */
  predicate Solved(S: nat, initial: MpMatrix, l: MpMatrix, i: nat, j: nat)
    requires Valid(initial) && Valid(l) && initial.dim == l.dim
  {
    forall a, b | 0 <= b <= a < l.dim && Before(a, b, i, j) :: CellHolds(S, initial, l, a, b)
  }

  /** The running sums read only the cells of rows a and b left of k. */
  lemma {:induction false} GramFrame(S: nat, x: MpMatrix, y: MpMatrix, a: nat, b: nat, k: nat)
    requires Valid(x) && Valid(y) && x.dim == y.dim && a < x.dim && b < x.dim && k <= x.dim
    requires forall t | 0 <= t < k :: Get(x, a, t) == Get(y, a, t) && Get(x, b, t) == Get(y, b, t)
    ensures Gram(S, x, a, b, k) == Gram(S, y, a, b, k)
  {
    if k > 0 {
      GramFrame(S, x, y, a, b, k - 1);
    }
  }

  /** A cell's equation survives any write to a cell visited after it. */
  lemma {:induction false} CellHoldsFrame(S: nat, initial: MpMatrix, x: MpMatrix, y: MpMatrix, a: nat, b: nat, i: nat, j: nat)
    requires Valid(initial) && Valid(x) && Valid(y) && initial.dim == x.dim == y.dim
    requires b <= a < x.dim && Before(a, b, i, j)
    requires forall p, q | 0 <= p < x.dim && 0 <= q < x.dim && (p, q) != (i, j) :: Get(y, p, q) == Get(x, p, q)
    requires CellHolds(S, initial, x, a, b)
    ensures CellHolds(S, initial, y, a, b)
  {
    forall t | 0 <= t < b ensures Get(x, a, t) == Get(y, a, t) && Get(x, b, t) == Get(y, b, t) {
      assert (a, t) != (i, j) && (b, t) != (i, j);
    }
    assert (a, b) != (i, j) && (b, b) != (i, j);
    assert Get(y, a, b) == Get(x, a, b) && Get(y, b, b) == Get(x, b, b);
    GramFrame(S, x, y, a, b, b);
  }

  /** One cell step extends the solved region by that cell. */
  lemma {:induction false} CellStepSolves(S: nat, initial: MpMatrix, x: MpMatrix, i: nat, j: nat)
    requires Valid(initial) && Valid(x) && initial.dim == x.dim && j <= i < x.dim
    requires Solved(S, initial, x, i, j)
    requires CellStep(S, initial, x, i, j).Ok?
    ensures Solved(S, initial, CellStep(S, initial, x, i, j).value, i, j + 1)
  {
    var y := CellStep(S, initial, x, i, j).value;
    forall a, b | 0 <= b <= a < x.dim && Before(a, b, i, j + 1) ensures CellHolds(S, initial, y, a, b) {
      if Before(a, b, i, j) {
        CellHoldsFrame(S, initial, x, y, a, b, i, j);
      } else {
        GramFrame(S, x, y, i, j, j);
      }
    }
  }

  lemma {:induction false} SweepRowSolves(S: nat, initial: MpMatrix, x: MpMatrix, i: nat, j: nat)
    requires Valid(initial) && Valid(x) && initial.dim == x.dim && i < x.dim && j <= i + 1
    requires Solved(S, initial, x, i, j)
    requires SweepRow(S, initial, x, i, j).Ok?
    ensures Solved(S, initial, SweepRow(S, initial, x, i, j).value, i + 1, 0)
    decreases i + 1 - j
  {
    if j > i {
      assert SweepRow(S, initial, x, i, j).value == x;
    } else {
      CellStepSolves(S, initial, x, i, j);
      SweepRowSolves(S, initial, CellStep(S, initial, x, i, j).value, i, j + 1);
    }
  }

  lemma {:induction false} SweepSolves(S: nat, initial: MpMatrix, x: MpMatrix, i: nat)
    requires Valid(initial) && Valid(x) && initial.dim == x.dim && i <= x.dim
    requires Solved(S, initial, x, i, 0)
    requires Sweep(S, initial, x, i).Ok?
    ensures Solved(S, initial, Sweep(S, initial, x, i).value, x.dim, 0)
    decreases x.dim - i
  {
    if i < x.dim {
      SweepRowSolves(S, initial, x, i, 0);
      SweepSolves(S, initial, SweepRow(S, initial, x, i, 0).value, i + 1);
    }
  }

  /** When it returns true, `lower` holds in its lower triangle and diagonal
      a solution of the fixed-point Cholesky equations for `initial`: each
      diagonal cell is the root of a non-negative remainder, each
      off-diagonal cell the remainder divided by a nonzero diagonal cell. */
  lemma CholeskySolves(initial: MpMatrix, lower: MpMatrix)
    requires Valid(initial) && Valid(lower)
    requires Cholesky(initial, lower).Ok? && Cholesky(initial, lower).value.0
    ensures forall a, b | 0 <= b <= a < lower.dim ::
      CellHolds(initial.shift, initial, Cholesky(initial, lower).value.1, a, b)
  {
    SweepSolves(initial.shift, initial, lower, 0);
  }

  // ---------------------------------------------------------------------
  // What the sweep reads.

  /** Two (input, state) pairs that agree on everything the remaining
      sweep can read: the inputs on their lower triangles, the states on
      the cells visited before (i, j) and above the diagonal. */
  predicate Agree(i1: MpMatrix, x1: MpMatrix, i2: MpMatrix, x2: MpMatrix, i: nat, j: nat)
    requires Valid(i1) && Valid(x1) && Valid(i2) && Valid(x2)
    requires i1.dim == x1.dim == i2.dim == x2.dim
  {
    && x1.shift == x2.shift
    && (forall a, b | 0 <= b <= a < x1.dim :: Get(i1, a, b) == Get(i2, a, b))
    && (forall a, b | 0 <= a < x1.dim && 0 <= b < x1.dim && (a < b || Before(a, b, i, j)) ::
          Get(x1, a, b) == Get(x2, a, b))
  }

  lemma {:induction false} CellStepAgree(S: nat, i1: MpMatrix, x1: MpMatrix, i2: MpMatrix, x2: MpMatrix, i: nat, j: nat)
    requires Valid(i1) && Valid(x1) && Valid(i2) && Valid(x2)
    requires i1.dim == x1.dim == i2.dim == x2.dim && j <= i < x1.dim
    requires Agree(i1, x1, i2, x2, i, j)
    ensures CellStep(S, i1, x1, i, j).Err? <==> CellStep(S, i2, x2, i, j).Err?
    ensures CellStep(S, i1, x1, i, j).Err? ==> CellStep(S, i1, x1, i, j) == CellStep(S, i2, x2, i, j)
    ensures CellStep(S, i1, x1, i, j).Ok? ==>
      Agree(i1, CellStep(S, i1, x1, i, j).value, i2, CellStep(S, i2, x2, i, j).value, i, j + 1)
  {
    GramFrame(S, x1, x2, i, j, j);
  }

  lemma {:induction false} SweepRowAgree(S: nat, i1: MpMatrix, x1: MpMatrix, i2: MpMatrix, x2: MpMatrix, i: nat, j: nat)
    requires Valid(i1) && Valid(x1) && Valid(i2) && Valid(x2)
    requires i1.dim == x1.dim == i2.dim == x2.dim && i < x1.dim && j <= i + 1
    requires Agree(i1, x1, i2, x2, i, j)
    ensures SweepRow(S, i1, x1, i, j).Err? <==> SweepRow(S, i2, x2, i, j).Err?
    ensures SweepRow(S, i1, x1, i, j).Err? ==> SweepRow(S, i1, x1, i, j) == SweepRow(S, i2, x2, i, j)
    ensures SweepRow(S, i1, x1, i, j).Ok? ==>
      Agree(i1, SweepRow(S, i1, x1, i, j).value, i2, SweepRow(S, i2, x2, i, j).value, i + 1, 0)
    decreases i + 1 - j
  {
    if j <= i {
      CellStepAgree(S, i1, x1, i2, x2, i, j);
      var y1, y2 := CellStep(S, i1, x1, i, j), CellStep(S, i2, x2, i, j);
      if y1.Ok? {
        assert SweepRow(S, i1, x1, i, j) == SweepRow(S, i1, y1.value, i, j + 1);
        assert SweepRow(S, i2, x2, i, j) == SweepRow(S, i2, y2.value, i, j + 1);
        SweepRowAgree(S, i1, y1.value, i2, y2.value, i, j + 1);
      } else {
        assert SweepRow(S, i1, x1, i, j) == Err(y1.fault) == SweepRow(S, i2, x2, i, j);
      }
    } else {
      assert SweepRow(S, i1, x1, i, j) == Ok(x1) && SweepRow(S, i2, x2, i, j) == Ok(x2);
      AgreeNextRow(i1, x1, i2, x2, i);
    }
  }

  /** Finishing row i leaves the states agreeing up to the start of row i + 1. */
  lemma AgreeNextRow(i1: MpMatrix, x1: MpMatrix, i2: MpMatrix, x2: MpMatrix, i: nat)
    requires Valid(i1) && Valid(x1) && Valid(i2) && Valid(x2)
    requires i1.dim == x1.dim == i2.dim == x2.dim
    requires Agree(i1, x1, i2, x2, i, i + 1)
    ensures Agree(i1, x1, i2, x2, i + 1, 0)
  {
  }

  lemma {:induction false} SweepAgree(S: nat, i1: MpMatrix, x1: MpMatrix, i2: MpMatrix, x2: MpMatrix, i: nat)
    requires Valid(i1) && Valid(x1) && Valid(i2) && Valid(x2)
    requires i1.dim == x1.dim == i2.dim == x2.dim && i <= x1.dim
    requires Agree(i1, x1, i2, x2, i, 0)
    ensures Sweep(S, i1, x1, i) == Sweep(S, i2, x2, i)
    decreases x1.dim - i
  {
    if i < x1.dim {
      SweepRowAgree(S, i1, x1, i2, x2, i, 0);
      var y1, y2 := SweepRow(S, i1, x1, i, 0), SweepRow(S, i2, x2, i, 0);
      if y1.Ok? {
        SweepAgree(S, i1, y1.value, i2, y2.value, i + 1);
      }
    } else {
      forall k | 0 <= k < |x1.cells| ensures x1.cells[k] == x2.cells[k] {
        IndexCovers(x1.dim, k);
        assert Get(x1, k / x1.dim, k % x1.dim) == Get(x2, k / x1.dim, k % x1.dim);
      }
      assert x1.cells == x2.cells;
    }
  }

  /** The outcome depends on `initial` only through its lower triangle and
      diagonal, and on `lower` only through the cells above its diagonal:
      every cell of `lower` the sweep reads it has written itself. */
  lemma CholeskyReadsLowerTriangle(initial1: MpMatrix, lower1: MpMatrix, initial2: MpMatrix, lower2: MpMatrix)
    requires Valid(initial1) && Valid(lower1) && Valid(initial2) && Valid(lower2)
    requires initial1.dim == lower1.dim == initial2.dim == lower2.dim
    requires initial1.shift == initial2.shift && lower1.shift == lower2.shift
    requires forall a, b | 0 <= b <= a < initial1.dim :: Get(initial1, a, b) == Get(initial2, a, b)
    requires forall a, b | 0 <= a < b < lower1.dim :: Get(lower1, a, b) == Get(lower2, a, b)
    ensures Cholesky(initial1, lower1) == Cholesky(initial2, lower2)
  {
    SweepAgree(initial1.shift, initial1, lower1, initial2, lower2, 0);
  }
}
