# lin-algebra-c: dense matrix library, modelled in Dafny

`src/matrix.c` is a small C library of dense `double` matrices passed as
`double**` row-pointer handles with caller-supplied dimensions. It has nine
public operations: `addMatrices`, `subtractMatrices`, `scalarMultiplyMatrix`,
`transposeMatrix`, `multiplyMatrices`, `identityMatrix`, `Determinant`,
`invertMatrix` and `matrixTrace`. They rest on an internal helper, `GetMatr`,
which copies a matrix without one row and one column. Every matrix-returning
operation allocates a fresh result. Errors go to `errno`: `EINVAL` for bad
arguments, `ENOMEM` for allocation failures.

The model has four modules:

- `MatrixSpec` (`matrix_spec.dfy`) defines what each operation computes, on
  values: a matrix is a `seq<seq<real>>` with a `Rect` shape predicate.
  - `Add`, `Sub`, `Scale`, `Transpose`, `Identity` and `MatMul` are
    defined entry by entry. The product's `Dot` accumulates from index 0
    upward.
  - `Diag` is the running diagonal sum the trace loop computes.
  - `Minor` deletes one row and one column.
  - `Det` is the cofactor expansion down column 0. A 1 x 1 matrix is its own
    entry; otherwise `Det` is the running sum of `Sign(i) * a[i][0] *
    Det(minor)`.
  - `Inverse` is the transpose of the cofactor matrix divided cell by cell by
    the determinant. Each cofactor is the signed determinant of its minor,
    where a minor of size 0 has "determinant" 0.0, as the C code reports it.
- `MatrixLib` (`matrix_lib.dfy`) holds the C functions as methods over
  `array2?<real>` handles.
  - Each method allocates a fresh array and fills it in the same nested
    loops as the C.
  - Each method's `ensures` ties the result to the `MatrixSpec` function and
    states exactly which inputs give which error code.
  - `Determinant` recurses through `GetMatr` as the C does, with `sign`
    flipping each iteration.
  - `invertMatrix` computes one minor determinant per cell and then
    transposes.
- `MatrixProps` (`matrix_props.dfy`) proves the shift rule of minor
  extraction and identities of the element-wise operations, the product
  and the trace.
- `DetProps` (`matrix_det.dfy`) proves:
  - the determinant is 0 for a zero row or column, and 1 for the identity;
  - the entry formula for the inverse;
  - the 2 x 2 inverse in closed form, and that it really inverts;
  - the 1 x 1 behaviour, where the inverse holds 0.0.
- `MatrixExamples` (`matrix_examples.dfy`) works A = [[1,2],[3,4]],
  B = [[5,6],[7,8]] and the singular [[1,2],[2,4]] through the
  specification.

A non-null C handle is a promise that the rows are at least as long as the
caller says. The model states that promise as the precondition `Fits`. No
method writes to its inputs: none has a `modifies` clause.

## Model

| member | source | states |
|---|---|---|
| MatrixLib.AddMatrices | src/matrix.c:30-71 | EINVAL exactly when a handle is null or a dimension is negative (zero is accepted); otherwise a fresh rows x cols array whose contents are `Add` of the inputs, entry (i, j) being A[i][j] + B[i][j] |
| MatrixLib.TransposeMatrix | src/matrix.c:105-142 | null handle gives EINVAL, non-positive dimensions give ENOMEM, otherwise always a fresh cols x rows array equal to `Transpose` of the input (t[j][i] = m[i][j]) |
| MatrixLib.MultiplyMatrices | src/matrix.c:156-202 | EINVAL exactly when colsA != rowsB, a handle is null or any dimension is non-positive (the inner-dimension test comes first); otherwise a fresh rowsA x colsB array whose (i, j) entry is the dot product accumulated from k = 0 upward |
| MatrixLib.ScalarMultiplyMatrix | src/matrix.c:214-246 | EINVAL exactly when the handle is null or a dimension is non-positive; otherwise a fresh array whose entries are m[i][j] * scalar |
| MatrixLib.SubtractMatrices | src/matrix.c:260-298 | EINVAL exactly when a handle is null or a dimension is non-positive; otherwise a fresh array whose entries are A[i][j] - B[i][j] |
| MatrixLib.IdentityMatrix | src/matrix.c:310-343 | EINVAL exactly when N < 0; otherwise a fresh N x N array, 1 on the diagonal and 0 elsewhere (N = 0 gives an empty matrix) |
| MatrixLib.GetMatr | src/matrix.c:353-377 | a null handle gives ENOMEM; otherwise a fresh (rows-1) x (cols-1) array equal to `Minor` of the input, filled with the di/dj shift flags |
| MatrixLib.ShiftedIsMinor | src/matrix.c:364-375 | an array filled by the di/dj shift rule holds exactly the minor without the given row and column |
| MatrixLib.Determinant | src/matrix.c:387-415 | 0.0 with EINVAL for a null handle or m < 1; otherwise the column-0 cofactor expansion `Det` with no error, using the single entry for m = 1 and ad - bc for m = 2 |
| MatrixLib.ExpansionTerm | src/matrix.c:403-409 | one loop pass of Determinant: the sign times entry (i, 0) times the determinant of the minor without row i and column 0 is term i of the expansion |
| MatrixLib.InvertMatrix | src/matrix.c:429-472 | EINVAL exactly when the handle is null, m <= 0 or the determinant is exactly 0.0; otherwise a fresh m x m array equal to `Inverse`, the transpose of the cofactor matrix over the determinant; the input is unchanged |
| MatrixLib.CofactorCell | src/matrix.c:456-464 | one cell of the cofactor loop: (-1)^(i+j) times the minor's determinant divided by det is cell (i, j) of the cofactor matrix |
| MatrixLib.MatrixTrace | src/matrix.c:486-496 | 0.0 with EINVAL for a null handle or size < 1; otherwise the sum of the first `size` diagonal entries, accumulated from index 0 (squareness is not checked) |
| MatrixSpec.Add | src/matrix.c:62-66 | the element-wise sum keeps the shape of its operands |
| MatrixSpec.Sub | src/matrix.c:290-293 | the element-wise difference keeps the shape of its operands |
| MatrixSpec.Scale | src/matrix.c:241-243 | the scaled matrix keeps the shape of its operand |
| MatrixSpec.Transpose | src/matrix.c:135-137 | the transpose of a rows x cols matrix is cols x rows |
| MatrixSpec.Identity | src/matrix.c:336-341 | the identity of size n is n x n |
| MatrixSpec.MatMul | src/matrix.c:192-197 | the product of n x p and p x q matrices is n x q |
| MatrixSpec.Minor | src/matrix.c:353-377 | deleting one row and one column of a rows x cols matrix leaves a (rows-1) x (cols-1) matrix |
| MatrixSpec.CofactorsOver | src/matrix.c:447-467 | the cofactor matrix over d is m x m |
| MatrixSpec.Inverse | src/matrix.c:469 | the inverse of an m x m matrix is m x m |
| MatrixProps.MinorEntry | src/matrix.c:365-374 | entry (i, j) of the minor is the input entry whose row index is i + 1 once i has reached the deleted row (else i) and whose column index is j + 1 once j has reached the deleted column (else j); the deleted row and column are never read |
| MatrixProps.DetTwo | src/matrix.c:398-399 | for m = 2 the column-0 expansion equals the closed form a[0][0]*a[1][1] - a[0][1]*a[1][0] that Determinant returns |
| MatrixProps.SignNext | src/matrix.c:410 | negating the sign moves it from (-1)^i to (-1)^(i+1) |
| MatrixProps.CofactorNext | src/matrix.c:464 | the sign picked by `(i + j) % 2`, times the minor's determinant, over det, is the cofactor-matrix cell |
| MatrixProps.TransposeTwice | src/matrix.c:135-137 | transposing twice gives back the original matrix |
| MatrixProps.AddCommutes | src/matrix.c:62-66 | add(A, B) == add(B, A) |
| MatrixProps.SubThenAdd | src/matrix.c:290-293 | add(subtract(A, B), B) == A |
| MatrixProps.ScaleOfAdd | src/matrix.c:241-243 | scaling distributes over addition |
| MatrixProps.SubIsAddNegated | src/matrix.c:290-293 | A - B == A + (-1) * B |
| MatrixProps.TransposeOfAdd | src/matrix.c:135-137 | the transpose of a sum is the sum of the transposes |
| MatrixProps.DotIdentityRight | src/matrix.c:194-196 | a partial dot product against an identity column is entry j once k > j, and 0 before |
| MatrixProps.MatMulIdentityRight | src/matrix.c:192-197 | multiply(A, identity(p)) == A for any n x p matrix A |
| MatrixProps.DotIdentityLeft | src/matrix.c:194-196 | a partial dot product of an identity row is entry (i, j) of B once k > i, and 0 before |
| MatrixProps.MatMulIdentityLeft | src/matrix.c:192-197 | multiply(identity(n), B) == B for any n x q matrix B |
| MatrixProps.DotTranspose | src/matrix.c:194-196 | row i of A against column j of B equals row j of B's transpose against column i of A's transpose, at every prefix length |
| MatrixProps.TransposeOfMatMul | src/matrix.c:192-197 | transpose(A B) == transpose(B) transpose(A) |
| MatrixProps.DiagIdentity | src/matrix.c:491-494 | the trace of identity(n) is n |
| MatrixProps.DiagOfAdd | src/matrix.c:491-494 | the trace of a sum is the sum of the traces |
| MatrixProps.DiagOfScale | src/matrix.c:491-494 | the trace of a scaled matrix is the scaled trace |
| MatrixProps.DiagOfTranspose | src/matrix.c:491-494 | a square matrix and its transpose have the same trace |
| DetProps.DetZeroRow | src/matrix.c:400-414 | a matrix with an all-zero row has determinant 0 |
| DetProps.ExpandZeroRow | src/matrix.c:402-412 | every partial column-0 expansion of a matrix with a zero row is 0 |
| DetProps.DetZeroColumn | src/matrix.c:400-414 | a matrix with an all-zero column (column 0 in particular) has determinant 0 |
| DetProps.ExpandZeroColumn | src/matrix.c:402-412 | every partial column-0 expansion of a matrix with a zero column is 0 |
| DetProps.ExpandOnlyFirst | src/matrix.c:402-412 | if column 0 is zero below row 0, the expansion is a[0][0] times the determinant of the (0, 0) minor |
| DetProps.MinorOfIdentity | src/matrix.c:353-377 | deleting row 0 and column 0 of identity(n) leaves identity(n-1) |
| DetProps.DetIdentity | src/matrix.c:387-415 | the determinant of identity(n) is 1 for every n >= 1 |
| DetProps.InverseEntry | src/matrix.c:455-469 | cell (i, j) of the inverse is the cofactor at the transposed position (j, i) over the determinant |
| DetProps.InverseOfOne | src/matrix.c:463-464 | for m = 1 the cofactor is the determinant of an empty minor, which Determinant reports as 0.0, so the inverse of [[a]] is [[0.0]] and A * inverse(A) is not the identity |
| DetProps.CofactorTwo | src/matrix.c:456-464 | the 2 x 2 cofactors are the opposite-corner entries, signed by position |
| DetProps.CofactorsOverTwo | src/matrix.c:447-467 | the 2 x 2 cofactor matrix over d, written out |
| DetProps.InverseTwo | src/matrix.c:429-472 | a non-singular 2 x 2 matrix's inverse is [[d, -b], [-c, a]] / (ad - bc) |
| DetProps.InverseTwoIsInverse | src/matrix.c:429-472 | for a non-singular 2 x 2 matrix, multiply(A, inverse(A)) and multiply(inverse(A), A) are both exactly the identity |
| MatrixExamples.SumAndProduct | src/matrix.c:30-71 | [[1,2],[3,4]] + [[5,6],[7,8]] == [[6,8],[10,12]] and their product is [[19,22],[43,50]] |
| MatrixExamples.DeterminantTraceInverse | src/matrix.c:387-399 | det [[1,2],[3,4]] == -2, its trace is 5, its inverse is [[-2,1],[1.5,-0.5]] |
| MatrixExamples.SingularExample | src/matrix.c:435-438 | det [[1,2],[2,4]] == 0, so invertMatrix refuses it with EINVAL |

## Left out

- Allocation failure is not modelled: every `malloc` succeeds. This covers
  the ENOMEM paths after a failed `malloc` and the `freeMatrix` cleanup
  (src/matrix.c:43-60, 84-91, 120-131, 178-189, 229-240, 275-289,
  319-332, 359-363, 441-460). Dafny is garbage-collected, so there is no
  leak-freedom to state.
  - `GetMatr` never checks its per-row `malloc` (src/matrix.c:369).
  - `Determinant` never sees the ENOMEM of a failed recursive call
    (src/matrix.c:404-409).
  - Because of these, Determinant's `if (!minor)` branch and invertMatrix's
    minor-failure branch cannot be taken in the model.
- Zero-size allocations: `malloc(0)` in `addMatrices` with 0 rows, in
  `identityMatrix(0)` and in `GetMatr` for a 1 x 1 input is
  implementation-defined in C. The model always returns an empty array.
- Floating point: `double` is modelled as exact `real`, with no rounding
  and no NaN or infinity. The singularity test `det == 0.0` is exact real
  equality. The 2 x 2 inverse is exactly the inverse over the reals, which
  IEEE arithmetic only approximates.
- `errno` is a process-wide global in C. The model returns the code instead:
  `Result` for the matrix-returning functions, and a value plus an
  `Option<Errno>` for `Determinant` and `matrixTrace`.
  - A code written to `errno` on a path that still succeeds is not kept. For
    m = 1, invertMatrix's inner `Determinant(minor, 0)` sets EINVAL, yet the
    inverse is returned.
- Integer width: dimensions are unbounded `int`s. The `rows * sizeof(double*)`
  size computations and the `(uint64_t)` loop casts cannot overflow or wrap
  on the non-negative dimensions that reach them.
- Row lengths: C trusts that a non-null handle has `rows` rows of `cols`
  entries. The model requires it (`Fits`) instead of checking it, and
  `matrixTrace` likewise requires `size` rows and columns.
- Error codes follow the code, not a finer taxonomy. A non-positive dimension
  in transposeMatrix is ENOMEM. Mismatched inner dimensions in
  multiplyMatrices and a singular matrix in invertMatrix are plain EINVAL.
  The add and subtract operations cannot see whether their two operands
  have the same shape: they share one pair of dimensions.
- DetProps.InverseTwoIsInverse: inverse correctness, A * inverse(A) =
  identity, is proved only for m = 2. For m >= 3 the model proves that the
  method computes `Inverse`, the transposed cofactor matrix over det, and
  gives its entry formula (`InverseEntry`). It does not prove that this
  matrix is the multiplicative inverse; that needs cofactor expansion along
  every row and column, which is not part of this model. For m = 1 the
  product is not the identity (`InverseOfOne`).
- include/matrix.h is not part of this model: it declares prototypes only.
  Line 497 of src/matrix.c is not code.
