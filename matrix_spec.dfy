/** Value-level specification of the dense-matrix library in src/matrix.c.
    A matrix is a sequence of rows; `double` entries are modelled as exact
    `real`s, so every operation is a precise index formula. */
module MatrixSpec {

  type Mat = seq<seq<real>>

  /** `a` has exactly `rows` rows of exactly `cols` entries each. */
  predicate Rect(a: Mat, rows: nat, cols: nat)
  {
    |a| == rows && forall i :: 0 <= i < rows ==> |a[i]| == cols
  }

  /** Element-wise sum of two equally shaped matrices. */
  function Add(a: Mat, b: Mat, rows: nat, cols: nat): (c: Mat)
    requires Rect(a, rows, cols) && Rect(b, rows, cols)
    ensures Rect(c, rows, cols)
  {
    seq(rows, i requires 0 <= i < rows => seq(cols, j requires 0 <= j < cols => a[i][j] + b[i][j]))
  }

  /** Element-wise difference a - b of two equally shaped matrices. */
  function Sub(a: Mat, b: Mat, rows: nat, cols: nat): (c: Mat)
    requires Rect(a, rows, cols) && Rect(b, rows, cols)
    ensures Rect(c, rows, cols)
  {
    seq(rows, i requires 0 <= i < rows => seq(cols, j requires 0 <= j < cols => a[i][j] - b[i][j]))
  }

  /** Every entry multiplied (on the right) by `s`. */
  function Scale(a: Mat, rows: nat, cols: nat, s: real): (c: Mat)
    requires Rect(a, rows, cols)
    ensures Rect(c, rows, cols)
  {
    seq(rows, i requires 0 <= i < rows => seq(cols, j requires 0 <= j < cols => a[i][j] * s))
  }

  /** The cols x rows matrix whose row j is column j of `a`. */
  function Transpose(a: Mat, rows: nat, cols: nat): (t: Mat)
    requires Rect(a, rows, cols)
    ensures Rect(t, cols, rows)
  {
    seq(cols, j requires 0 <= j < cols => seq(rows, i requires 0 <= i < rows => a[i][j]))
  }

  /** The n x n identity: 1 on the diagonal, 0 elsewhere. */
  function Identity(n: nat): (e: Mat)
    ensures Rect(e, n, n)
  {
    seq(n, i => seq(n, j => if i == j then 1.0 else 0.0))
  }

  /** The first `k` terms of the dot product of row i of `a` with column j
      of `b`, summed from 0 in increasing order of the inner index. */
  function Dot(a: Mat, b: Mat, i: nat, j: nat, k: nat): real
    requires i < |a| && k <= |a[i]| && k <= |b|
    requires forall t :: 0 <= t < k ==> j < |b[t]|
  {
    if k == 0 then 0.0 else Dot(a, b, i, j, k - 1) + a[i][k - 1] * b[k - 1][j]
  }

  /** The n x q product of an n x p matrix and a p x q matrix. */
  function MatMul(a: Mat, b: Mat, n: nat, p: nat, q: nat): (c: Mat)
    requires Rect(a, n, p) && Rect(b, p, q)
    ensures Rect(c, n, q)
  {
    seq(n, i requires 0 <= i < n => seq(q, j requires 0 <= j < q => Dot(a, b, i, j, p)))
  }

  /** Sum of the first `k` diagonal entries, accumulated from index 0. */
  function Diag(a: Mat, k: nat): real
    requires k <= |a| && forall i :: 0 <= i < k ==> k <= |a[i]|
  {
    if k == 0 then 0.0 else Diag(a, k - 1) + a[k - 1][k - 1]
  }

  /** A row with its entry at `col` deleted. */
  function DropAt(r: seq<real>, col: nat): (d: seq<real>)
    requires col < |r|
    ensures |d| == |r| - 1
  {
    r[..col] + r[col + 1..]
  }

  /** The (rows-1) x (cols-1) matrix left once row `row` and column `col`
      are deleted, the remaining rows and columns kept in order. */
  function Minor(a: Mat, rows: nat, cols: nat, row: nat, col: nat): (p: Mat)
    requires Rect(a, rows, cols) && row < rows && col < cols
    ensures Rect(p, rows - 1, cols - 1)
  {
    var kept := a[..row] + a[row + 1..];
    assert forall i :: 0 <= i < rows - 1 ==> kept[i] == a[if i < row then i else i + 1];
    seq(rows - 1, i requires 0 <= i < rows - 1 => DropAt(kept[i], col))
  }

  /** The alternating sign (-1)^k. */
  function Sign(k: nat): real
  {
    if k % 2 == 0 then 1.0 else -1.0
  }

  /** The determinant of an m x m matrix (m >= 1), by cofactor expansion
      down column 0: a 1 x 1 matrix is its own entry, and otherwise
      Det(a) is the sum over i of Sign(i) * a[i][0] * Det(minor at (i, 0)). */
  function Det(a: Mat, m: nat): real
    requires m >= 1 && Rect(a, m, m)
    decreases m, 2, 0
  {
    if m == 1 then a[0][0] else Expand(a, m, m)
  }

  /** The first `k` terms of the column-0 cofactor expansion of `a`,
      accumulated in increasing row order. */
  function Expand(a: Mat, m: nat, k: nat): real
    requires m >= 2 && Rect(a, m, m) && k <= m
    decreases m, 1, k
  {
    if k == 0 then 0.0 else Expand(a, m, k - 1) + Term(a, m, k - 1)
  }

  /** Term k of the column-0 expansion: the entry a[k][0] weighted by its
      signed minor determinant. */
  function Term(a: Mat, m: nat, k: nat): real
    requires m >= 2 && Rect(a, m, m) && k < m
    decreases m, 0, 0
  {
    Sign(k) * a[k][0] * Det(Minor(a, m, m, k, 0), m - 1)
  }

  /** The value Determinant returns for a non-null matrix of size m:
      0.0 for m < 1 (the error path), the determinant otherwise. */
  function DetOrZero(a: Mat, m: nat): real
    requires Rect(a, m, m)
  {
    if m == 0 then 0.0 else Det(a, m)
  }

  /** The signed minor determinant (-1)^(i+j) * det(minor at (i, j)) as the
      inverse computes it, the minor's determinant being that of a 0 x 0
      matrix, 0.0, when m == 1. */
  function Cofactor(a: Mat, m: nat, i: nat, j: nat): real
    requires m >= 1 && Rect(a, m, m) && i < m && j < m
  {
    Sign(i + j) * DetOrZero(Minor(a, m, m, i, j), m - 1)
  }

  /** The m x m matrix whose cell (i, j) is Cofactor(a, m, i, j) / d. */
  function CofactorsOver(a: Mat, m: nat, d: real): (c: Mat)
    requires m >= 1 && Rect(a, m, m) && d != 0.0
    ensures Rect(c, m, m)
  {
    seq(m, i requires 0 <= i < m => seq(m, j requires 0 <= j < m => Cofactor(a, m, i, j) / d))
  }

  /** The matrix invertMatrix returns for a non-singular input: the cofactor
      matrix divided entry by entry by the determinant, then transposed. */
  function Inverse(a: Mat, m: nat): (inv: Mat)
    requires m >= 1 && Rect(a, m, m) && Det(a, m) != 0.0
    ensures Rect(inv, m, m)
  {
    Transpose(CofactorsOver(a, m, Det(a, m)), m, m)
  }
}
