# MpMatrix fixed-point kernel, modelled in Dafny

This project models the core of the MpMatrix moment-matrix code, written in
C++. The core estimates extremal eigenvalues of ill-conditioned Hankel moment
matrices using scaled arbitrary-precision integers instead of floating point.

## The pieces of the model

**Scaled integers.** A value is an unbounded integer `raw` read as
`raw / 2^S`. The matrix-wide `S` is called the shift.
- `FixedPoint` defines multiplication, division and square root at a common
  shift.
- `Numeric.Ops` packages a number system as a record of operations.
- The algorithms are written once over `Ops`. They are then instantiated at
  `Numeric.Fixed(S)` (the machine arithmetic) and at `Numeric.Exact()`
  (exact reals), which is used to state the algebra.
- `Arith` collects the facts about integer products, quotients and
  remainders that the proofs rely on. It models no code of its own.

**Two containers.**
- `Dense` is a vector of vectors with a row/column orientation flag. The
  algorithms in `src/moment_algorithm.hpp` and `src/main.cpp` are written
  against it.
- `FlatMatrix.MpMatrix` is the flat row-major container of
  `src/mpmatrix.hpp`. It carries its constructors, its element access and
  its compound and free arithmetic operators.

**Algorithms.**
- `Ldlt`: the in-place LDLᵗ decomposition (`cholesky_decompose`).
- `Diagonal`: diagonal extraction, imposition and inversion.
- `UnitInverse`: inversion of a unit lower-triangular matrix by elimination.
- `PartialInverse`: the `inversion` driver, which builds the leading block of
  the inverse without forming the full triple product.
- `ClassicCholesky`: the textbook Cholesky of `src/cholesky.cpp`.
- `Moments`: the moment-matrix seeding routines of both algorithm headers.

**Exact-arithmetic theorems.** The `*Exact` modules state what the pipeline
computes when the arithmetic is exact:
- the decomposition satisfies `L·D·Lᵗ = M`;
- the elimination yields a two-sided inverse of `L`;
- the block assembled by `inversion` is the leading block of the inverse of
  the input matrix.

**Errors.** The C++ code throws, returns `false` or reads out of bounds.
Each of these becomes a value of `Faults.Result`:
- `DimensionMismatch`
- `DivisionByZero`
- `NegativeRoot`
- `OutOfBounds`

**Arithmetic conventions.** The scaled-integer class in `src/fixedmpz.hpp`
is only a constructor in this revision, so the model fixes one convention
for each operation:
- multiplication is `floor(a·b / 2^S)`;
- division is `(a·2^S) / b`, truncated toward zero as C++ and GMP's `tdiv` do;
- the square root is `isqrt(a·2^S)`;
- the multiplicative identity is `2^S`.

The modules and lemmas never depend on which rounding of the exact
product or quotient was picked, except `FixedPoint`'s own bounds. They do
depend on multiplication being commutative: `PartialInverse.InversionSymmetric`
at a fixed shift uses it through `Numeric.FixedLaws`. A scheme that shifts
one operand before multiplying would not commute, and that lemma would not
hold for it.

**Where the code and its documented intent differ, the model follows the
code.**
- The decomposition is documented to reject input that is not positive
  definite. `cholesky_decompose` only divides by the pivot, so it faults
  only on a zero pivot with rows beneath it. A negative pivot goes through.
- `Ldlt.Decompose` faults exactly when the code divides by zero. The lemma
  `Ldlt.ZeroPivotFails` states when that happens.

## Model

| member | source | states |
|---|---|---|
| FixedPoint.One | src/moment_algorithm.hpp:65-66 | the identity `1^shift` is a positive raw value whose real value is exactly 1 |
| FixedPoint.Mul | src/mpmatrix.hpp:216 | a product at shift S is the largest raw r with r·2^S ≤ a·b, so the scaled result is a·b/2^S rounded down |
| FixedPoint.Div | src/moment_algorithm.hpp:41 | a quotient at shift S leaves a remainder a·2^S − r·b smaller than b in magnitude and of the dividend's sign, i.e. truncation toward zero |
| FixedPoint.Sqrt | src/cholesky.cpp:21 | the root at shift S is the largest r with r² ≤ a·2^S, so r/2^S is √(a/2^S) rounded down |
| Numeric.FixedLaws | src/moment_algorithm.hpp:54 | fixed-point arithmetic has the structural laws the algorithm proofs use (zero absorbs a product, products commute, a zero dividend gives a zero quotient, subtracting zero changes nothing) |
| Dense.Transpose | src/main.cpp:58-59 | the transpose copy holds entry (j, i) of the source at (i, j) |
| Dense.TransposeInvolution | src/main.cpp:58-59 | transposing twice gives the original matrix back |
| Dense.Reorient | src/main.cpp:52 | reorienting flips the orientation flag while every logical entry (row, col) stays the same |
| Dense.ReorientInvolution | src/main.cpp:52 | reorienting twice restores both the storage and the flag |
| Ldlt.Normalise | src/moment_algorithm.hpp:35-42 | entries at or above the pivot keep their pre-pivot value; entries below are divided by the saved pivot |
| Ldlt.Eliminate | src/moment_algorithm.hpp:48-55 | rows above column c are untouched; row r ≥ c becomes z − y·x with y the saved entry orig[c] and x the normalised pivot-column entry |
| Ldlt.PivotStep | src/moment_algorithm.hpp:32-56 | one pivot step leaves earlier columns alone, normalises the pivot column, and updates every later column from the pre-normalisation snapshot |
| Ldlt.DecomposeUpTo | src/moment_algorithm.hpp:32-57 | after any number of pivots the only possible fault is a division by zero, and on success the shape and every entry above the diagonal are the input's |
| Ldlt.PivotStepFrame | src/moment_algorithm.hpp:45-55 | a pivot step never writes above the diagonal, into earlier columns, or into the pivot column at or above the pivot |
| Ldlt.Decompose | src/moment_algorithm.hpp:28-58 | the only fault is a division by zero; on success every entry above the diagonal is exactly the input's |
| Ldlt.FailureSticks | src/moment_algorithm.hpp:32-57 | once a pivot divides by zero no later pivot can recover: the whole decomposition reports that fault |
| Ldlt.ColumnFrozen | src/moment_algorithm.hpp:32-57 | a column that has served as pivot is final: later pivots never change it |
| Ldlt.DecomposeStep | src/moment_algorithm.hpp:32-56 | with a non-zero pivot (or no rows beneath it) the decomposition advances by exactly one pivot step |
| Ldlt.ZeroPivotFails | src/moment_algorithm.hpp:39-41 | a zero pivot with at least one row below it makes the decomposition fail with a division by zero |
| Ldlt.LowerZeroDecomposeUnchanged | src/moment_algorithm.hpp:40-54 | a matrix with no entries below the diagonal and non-zero pivots is already its own factorisation |
| Ldlt.DecomposeInPlace | src/moment_algorithm.hpp:28-58 | the loop-by-loop in-place procedure yields exactly the decomposition, fault included |
| Ldlt.NormaliseInPlace | src/moment_algorithm.hpp:40-42 | the in-place division loop yields the normalised column |
| Ldlt.EliminateInPlace | src/moment_algorithm.hpp:49-55 | the in-place row loop yields the eliminated column |
| Ldlt.PivotInPlace | src/moment_algorithm.hpp:32-56 | the in-place column loop yields one pivot step |
| LdltExact.AccountedUpTo | src/moment_algorithm.hpp:32-57 | in exact arithmetic, after p pivots every cell of the lower triangle equals the input entry minus the contributions of the first p pivots |
| LdltExact.LdltEntry | src/moment_algorithm.hpp:28-58 | in exact arithmetic every input entry on or below the diagonal is the sum over k of l[r][k]·d[k]·l[c][k] of the produced factors |
| LdltExact.LowerFactorUnitLower | src/moment_algorithm.hpp:60-76 | the factor read with a unit diagonal is unit lower triangular |
| LdltExact.LdltProduct | src/moment_algorithm.hpp:28-58 | in exact arithmetic a successful decomposition satisfies L·D·Lᵗ = M, with M the symmetric matrix whose lower triangle is the input's |
| Diagonal.ExtractDiagonal | src/moment_algorithm.hpp:60-76 | fails exactly on a size mismatch; otherwise returns the diagonal, replaces it by the identity when asked, and leaves off-diagonal entries alone |
| Diagonal.ImposeDiagonal | src/moment_algorithm.hpp:78-87 | fails exactly on a size mismatch; otherwise writes the vector onto the diagonal and changes nothing else |
| Diagonal.ExtractImposeRoundTrip | src/moment_algorithm.hpp:60-87 | imposing the extracted diagonal back restores the original matrix, whether or not extraction replaced it |
| Diagonal.ImposeExtractRoundTrip | src/moment_algorithm.hpp:60-87 | extracting after imposing a vector returns that vector and the same unit-diagonal matrix as extracting from the original |
| Diagonal.InvertDiagonal | src/moment_algorithm.hpp:112-123 | fails exactly when some element is zero; otherwise every element becomes the identity divided by it |
| Diagonal.InvertDiagonalInvolution | src/moment_algorithm.hpp:112-123 | in exact arithmetic inverting the diagonal twice gives it back |
| UnitInverse.EliminateRow | src/moment_algorithm.hpp:97-107 | the pivot column is negated and every other entry loses the pivot row's entry times the saved scale factor |
| UnitInverse.InvertPivot | src/moment_algorithm.hpp:93-109 | one pivot leaves the pivot row and the rows above it alone and eliminates every row below it |
| UnitInverse.Invert | src/moment_algorithm.hpp:89-110 | the result is square of the input's size; what it holds is stated by `UnitInverse.InvertUnitLower` (it stays unit lower triangular) and by `UnitInverseExact.LeftInverse` and `UnitInverseExact.RightInverse` (in exact arithmetic it is the two-sided inverse) |
| UnitInverse.RowFrozen | src/moment_algorithm.hpp:93-109 | a row stops changing once it has been the pivot |
| UnitInverse.InvertUnitLower | src/moment_algorithm.hpp:89-110 | the elimination keeps a unit lower-triangular matrix unit lower triangular |
| UnitInverse.EliminateRowInPlace | src/moment_algorithm.hpp:101-107 | the in-place column loop yields the eliminated row |
| UnitInverse.InvertInPlace | src/moment_algorithm.hpp:89-110 | the in-place double loop yields the inversion |
| UnitInverseExact.LeftInverse | src/moment_algorithm.hpp:89-110 | in exact arithmetic the result times the input is the identity |
| UnitInverseExact.RightInverse | src/moment_algorithm.hpp:89-110 | in exact arithmetic the input times the result is the identity |
| UnitInverseExact.InvertInvolution | src/moment_algorithm.hpp:89-110 | in exact arithmetic inverting twice returns the original unit lower-triangular matrix |
| PartialInverse.BlockSize | src/main.cpp:64-65 | the loop bound is INV_DIM = 10 capped at the dimension |
| PartialInverse.Assemble | src/main.cpp:63-72 | inside the leading block each output cell is the full sum over k of lt[i][k]·l[k][j]/d[k]; outside it the output matrix is untouched |
| PartialInverse.RowFactor | src/main.cpp:39-52 | the row-oriented factor has ones on the diagonal and, everywhere else, the transpose of the column-oriented factor's cells |
| PartialInverse.Inversion | src/main.cpp:29-74 | a zero pivot gives a division-by-zero fault; an empty matrix gives out-of-bounds (the diagonal print); otherwise the result carries the extracted diagonal, the inverse of the unit factor, and the assembled block |
| PartialInverse.InversionUnitLower | src/main.cpp:35-54 | for a lower-triangular input the factor after extraction and reorientation, and its inverse, are both unit lower triangular |
| PartialInverse.BlockSumSymmetric | src/main.cpp:66-69 | the sum of lt[i][k]·l[k][j]/d[k], with lt the transpose of l, is symmetric in i and j |
| PartialInverse.InversionSymmetric | src/main.cpp:58-72 | the block written into the output is symmetric |
| PartialInverse.AssembleInPlace | src/main.cpp:63-72 | the in-place triple loop writes exactly the assembled block |
| PartialInverseExact.InverseUnique | src/main.cpp:29-74 | a matrix has at most one two-sided inverse |
| PartialInverseExact.BlockSumEntry | src/main.cpp:66-69 | dividing by d[k] inside the sum equals the (i, j) entry of (L⁻¹)ᵗ·D⁻¹·L⁻¹ |
| PartialInverseExact.FactorInverseInverts | src/main.cpp:50-69 | for unit lower-triangular L and invertible D, (L⁻¹)ᵗ·D⁻¹·L⁻¹ is the two-sided inverse of L·D·Lᵗ |
| PartialInverseExact.RowFactorIsLowerFactor | src/main.cpp:39-52 | for input with a zero upper triangle, reorienting the extracted factor gives exactly the unit-diagonal L of the decomposition |
| PartialInverseExact.InversionInverts | src/main.cpp:29-74 | in exact arithmetic, for lower-triangular input, the written block is the leading block of the two-sided inverse of the symmetric input matrix |
| PartialInverseExact.InversionBlockOfInverse | src/main.cpp:29-74 | in exact arithmetic, for input with a zero upper triangle, the written block agrees with any inverse of the symmetric matrix built from the input's lower triangle |
| FlatMatrix.New | src/mpmatrix.hpp:40-42 | a new matrix has dim·dim cells, the given shift, and every cell zero |
| FlatMatrix.Index | src/mpmatrix.hpp:81-83 | the flat index of an in-range (row, col) lies inside the dim·dim cells |
| FlatMatrix.GetReadsStorage | src/mpmatrix.hpp:81-83 | the storage is row-major: cell k is the element `Get` reads at row k / dim, column k % dim |
| FlatMatrix.IndexDecodes | src/mpmatrix.hpp:81-83 | the flat index decodes back to row by division by dim and to col by the remainder |
| FlatMatrix.IndexInjective | src/mpmatrix.hpp:81-83 | distinct (row, col) pairs address distinct cells |
| FlatMatrix.IndexCovers | src/mpmatrix.hpp:81-83 | every cell is addressed by some (row, col) |
| FlatMatrix.Set | src/mpmatrix.hpp:81-83 | a write through element access changes that cell only |
| FlatMatrix.FromElements | src/mpmatrix.hpp:57-66 | fails exactly when more than dim·dim elements are supplied; otherwise the elements fill the cells in row-major order and the rest stay zero |
| FlatMatrix.FromElementsRoundTrip | src/mpmatrix.hpp:57-66 | constructing from a matrix's own cells reproduces the matrix |
| FlatMatrix.RowsRoundTrip | src/mpmatrix.hpp:81-83 | reading a matrix built from rows gives the rows back |
| FlatMatrix.FlatRoundTrip | src/mpmatrix.hpp:81-83 | rebuilding a matrix from its rows reproduces it |
| FlatMatrix.AddAssign | src/mpmatrix.hpp:169-177 | fails exactly on a dimension mismatch; otherwise every cell is the sum of the corresponding cells |
| FlatMatrix.SubAssign | src/mpmatrix.hpp:187-195 | fails exactly on a dimension mismatch; otherwise every cell is the difference of the corresponding cells |
| FlatMatrix.AddSubRoundTrip | src/mpmatrix.hpp:169-195 | adding a matrix then subtracting it restores the original |
| FlatMatrix.AddZero | src/mpmatrix.hpp:169-177 | adding a fresh zero matrix of the same dimension changes nothing |
| FlatMatrix.ScalarAddAssign | src/mpmatrix.hpp:179-185 | every cell is increased by the scalar |
| FlatMatrix.ScalarSubAssign | src/mpmatrix.hpp:197-203 | every cell is decreased by the scalar |
| FlatMatrix.ScalarRoundTrip | src/mpmatrix.hpp:179-203 | adding then subtracting the same scalar restores the matrix |
| FlatMatrix.ScalarMulAssign | src/mpmatrix.hpp:225-231 | every cell becomes its fixed-point product with the scalar |
| FlatMatrix.ScalarMulOne | src/mpmatrix.hpp:225-231 | multiplying by the fixed-point identity changes nothing |
| FlatMatrix.ScalarMulZero | src/mpmatrix.hpp:225-231 | multiplying by zero gives the zero matrix |
| FlatMatrix.MulAssign | src/mpmatrix.hpp:205-223 | fails exactly on a dimension mismatch; otherwise the result keeps the multiplier's dimension and shift, and its cell (i, j) is the fixed-point dot product of row i of the left operand with column j of the right |
| FlatMatrix.MulAssignIsMatMul | src/mpmatrix.hpp:210-222 | the flat product, read as rows, is the row-by-column matrix product in fixed-point arithmetic |
| FlatMatrix.MulIdentityRight | src/mpmatrix.hpp:205-223 | multiplying by the identity matrix on the right gives the matrix back |
| FlatMatrix.MulIdentityLeft | src/mpmatrix.hpp:205-223 | the identity matrix times a matrix is that matrix |
| FlatMatrix.MulAssignInPlace | src/mpmatrix.hpp:205-223 | the in-place triple loop accumulating into a zero temporary yields the product, fault included |
| FlatMatrix.CellSum | src/mpmatrix.hpp:215-217 | the k loop accumulates the dot product of row i with column j |
| FlatMatrix.Plus | src/mpmatrix.hpp:236-239 | fails exactly on a dimension mismatch; otherwise the result read as rows is the entrywise sum |
| FlatMatrix.Minus | src/mpmatrix.hpp:246-249 | fails exactly on a dimension mismatch; otherwise adding the right operand back gives the left operand |
| FlatMatrix.Times | src/mpmatrix.hpp:256-259 | fails exactly on a dimension mismatch; otherwise the result read as rows is the fixed-point matrix product |
| FlatMatrix.PlusScalar | src/mpmatrix.hpp:241-244 | subtracting the scalar from the result gives the left operand back |
| FlatMatrix.MinusScalar | src/mpmatrix.hpp:251-254 | adding the scalar to the result gives the left operand back |
| FlatMatrix.TimesScalar | src/mpmatrix.hpp:261-264 | every cell is the fixed-point product of the operand's cell with the scalar, the floor of their product divided by 2^shift; multiplying by the identity gives the operand back; multiplying by zero gives the zero matrix |
| ClassicCholesky.CellStep | src/cholesky.cpp:16-27 | a diagonal cell fails exactly when its remainder is negative and otherwise is its fixed-point root; an off-diagonal cell fails exactly when the diagonal it divides by is zero and otherwise is the truncated quotient; no other cell changes |
| ClassicCholesky.SweepRow | src/cholesky.cpp:15-28 | a row sweep only faults by a negative root or zero divisor and only writes cells j..i of row i |
| ClassicCholesky.Sweep | src/cholesky.cpp:14-29 | the remaining sweep only faults by a negative root or zero divisor and never writes above the diagonal or into rows already finished |
| ClassicCholesky.Cholesky | src/cholesky.cpp:7-32 | a dimension mismatch returns false with the output untouched; otherwise the result is true or a root/division fault, and the output's strict upper triangle is unchanged |
| ClassicCholesky.GramFrame | src/cholesky.cpp:18-25 | the accumulated sum depends only on the first k cells of the two rows involved |
| ClassicCholesky.CholeskySolves | src/cholesky.cpp:14-29 | on success every lower cell satisfies its defining equation: the diagonal is the root of initial minus the row's sum of squares, and an off-diagonal cell is initial minus the row-pair sum, divided by the diagonal |
| ClassicCholesky.CholeskyReadsLowerTriangle | src/cholesky.cpp:14-26 | the outcome depends only on the lower triangle of the input and the strict upper triangle of the output matrix |
| Moments.HalfGamma | src/mpmatrix_algorithm.hpp:8-14 | the seeded value, read at the matrix's shift, is exactly 2·(2(i+j)+1)! |
| Moments.HalfGammaHankel | src/mpmatrix_algorithm.hpp:10 | the value depends only on i+j, which is what makes the matrix Hankel |
| Moments.HalfGammaSymmetric | src/mpmatrix_algorithm.hpp:10 | the value is symmetric in i and j |
| Moments.HalfGammaIncreasing | src/mpmatrix_algorithm.hpp:10-11 | moments strictly increase along a column |
| Moments.LowerCol | src/moment_algorithm.hpp:8-19 | entries above the column's id keep their value; entries from the id down hold the moment of (id, row) |
| Moments.LowerInit | src/moment_algorithm.hpp:21-26 | every column is seeded from its own id |
| Moments.LowerInitHankel | src/moment_algorithm.hpp:8-26 | the seeded lower triangle is Hankel: equal index sums give equal entries |
| Moments.LowerInitOfZero | src/moment_algorithm.hpp:14-19 | seeding a zero matrix leaves the strict upper triangle zero |
| Moments.LowerInitInPlace | src/moment_algorithm.hpp:8-26 | the in-place double loop yields the seeded matrix |
| Moments.FullCol | src/mpmatrix_algorithm.hpp:32-41 | every entry of a column holds the moment of (id, row) |
| Moments.FullInit | src/mpmatrix_algorithm.hpp:43-45 | every entry (c, k) of the seeded matrix holds the moment of (c, k) |
| Moments.FullInitSymmetric | src/mpmatrix_algorithm.hpp:43-45 | the fully seeded matrix equals its transpose, and its lower triangle equals the lower-triangle seeding of the other header |
| Moments.ReuseCol | src/mpmatrix_algorithm.hpp:16-30 | a size mismatch is refused; as written the copy loop is out of bounds exactly for the last column; otherwise entries below id come from the previous column shifted by one, and the rest are fresh moments |
| Moments.ReuseFrom | src/mpmatrix_algorithm.hpp:52-56 | the reuse loop from column i keeps the columns left of i, seeds every entry on or below the diagonal of the later columns with its moment, and with the corrected copy never faults |
| Moments.ReuseInitAsWritten | src/mpmatrix_algorithm.hpp:47-57 | as written, the reuse initialisation fails for the empty matrix and for every size from 2, and matches the full seeding only for size 1 |
| Moments.ReuseAsWrittenFailsOnTwoByTwo | src/mpmatrix_algorithm.hpp:47-57 | a concrete 2×2 input on which the written code reads past the previous column |
| Moments.ReuseColFixed | src/mpmatrix_algorithm.hpp:21-29 | with the copy bounded to id entries, the column is the previous column shifted by one above id and fresh moments from id |
| Moments.ReuseInit | src/mpmatrix_algorithm.hpp:47-57 | corrected, the reuse initialisation leaves every entry (c, k) holding the moment of (c, k) |
| Moments.ReuseFromSeeds | src/mpmatrix_algorithm.hpp:52-56 | starting from correctly seeded leading columns, the corrected reuse loop completes the full seeding |
| Moments.ReuseInitIsInit | src/mpmatrix_algorithm.hpp:43-57 | the corrected reuse initialisation produces exactly the same matrix as seeding every column directly |
| Moments.CholeskyDecomposeStub | src/mpmatrix_algorithm.hpp:59-61 | the placeholder decomposition in this header leaves the matrix unchanged |
| Moments.CholeskyUpdateStub | src/mpmatrix_algorithm.hpp:63-65 | the placeholder column update leaves the column unchanged |

## Left out

- Printing and logging are left out: `print_matrix`, the `DEBUG` progress messages, `operator<<` and the diagonal print in `inversion`. The one observable effect of the diagonal print is its out-of-bounds read on an empty matrix, and that is modelled as `OutOfBounds`.
- The program's `main` is left out. So are argument parsing, the eigenvalue solver hand-off and the conversion to doubles: they are I/O and calls into an external numerical library.
- OpenMP parallelism is left out. The `omp parallel for` over columns in `momentInit` is modelled as a sequential loop, because each column's update is independent of the others.
- GMP is left out. `mpz_class` is an unbounded `int`, and the library's internal algorithms are not modelled.
- Mixed shifts are left out: each matrix has one shift.
  - The element constructor's per-element `setshift` is not modelled; elements are taken at the matrix's shift.
  - `+=`, `-=` and `*=` between matrices of different shifts combine the raw values at the left operand's shift.
  - The left operand's shift is also the result's shift.
- Iterators, `begin`/`end`, the const `operator()` and the shift and dimension getters are left out. They are accessors with no behaviour beyond `Get`.
- `src/cholesky.cpp` is written against another revision of the container, with `fmpz`, `getScale` and `getDimension`. It is modelled on `FlatMatrix.MpMatrix`, with all arithmetic at the shift of `initial`.
- Rounding-error bounds are left out. The theorems in `LdltExact`, `UnitInverseExact` and `PartialInverseExact` are stated for exact real arithmetic. The fixed-point model only states how each operation rounds; it does not bound how far `L·D·Lᵗ` or the inverse block drifts from the exact value.
- `PartialInverseExact.InversionInverts` requires the input's upper triangle to be zero: each column holds zeros above its diagonal entry. Its conclusion is about the symmetric matrix built from the input's lower triangle. The driver never clears the upper triangle, so it stays in the factor that is reoriented and inverted. For other inputs the block is therefore the inverse of a different matrix.
- `PartialInverseExact.RowFactorIsLowerFactor` requires the same zero upper triangle, for the same reason.
- `PartialInverseExact.InversionBlockOfInverse` requires the same zero upper triangle, and speaks of the symmetric matrix built from the input's lower triangle.
- `Ldlt.Decompose` does not reject pivots that are merely non-positive. Only a zero pivot with rows below it faults, because that is all the code checks.
- `Numeric.FixedLaws` states only the laws the proofs need. It does not state associativity or distributivity, which floor-rounded multiplication does not have.

## Findings

| source | as written | input that shows it | evidently intended | confidence | as-written member | corrected member |
|---|---|---|---|---|---|---|
| src/mpmatrix_algorithm.hpp:21-24 | the copy loop runs `i` from 0 to `id` inclusive and reads `prev[i + 1]`, so for the last column it reads `prev[size]`, one past the end | any matrix of size 2 or more, e.g. the 2×2 zero matrix: column 1 reads `prev[2]` | copy only `i < id` (entry `id` is overwritten by the seeding loop anyway), so the result equals the direct seeding `momentInit` | high; not executed | Moments.ReuseInitAsWritten | Moments.ReuseInitIsInit |
| src/mpmatrix_algorithm.hpp:50 | `momentInitCol0(matrix[0])` runs before any size test, so an empty matrix is indexed at 0 | the 0×0 matrix | seed nothing for an empty matrix, as `momentInit` does | medium; not executed | Moments.ReuseInitAsWritten | Moments.ReuseInit |
