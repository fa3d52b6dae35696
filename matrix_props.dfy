/** Properties of the specification functions: what the minor keeps, the
    closed forms of small determinants, identities of the element-wise
    operations, of transposition and of the product. */
module MatrixProps {
  import opened MatrixSpec

  /** The shift rule of minor extraction: entry (i, j) of the minor is the
      entry of `a` whose row (column) index is one higher once i (j) has
      reached the deleted row (column). Deleted entries are never read. */
  lemma MinorEntry(a: Mat, rows: nat, cols: nat, row: nat, col: nat, i: nat, j: nat)
    requires Rect(a, rows, cols) && row < rows && col < cols
    requires i < rows - 1 && j < cols - 1
    ensures Minor(a, rows, cols, row, col)[i][j]
         == a[if i >= row then i + 1 else i][if j >= col then j + 1 else j]
  {
    var kept := a[..row] + a[row + 1..];
    assert kept[i] == a[if i >= row then i + 1 else i];
  }

  /** The column-0 expansion of a 2 x 2 matrix is the closed form ad - bc. */
  lemma DetTwo(a: Mat)
    requires Rect(a, 2, 2)
    ensures Det(a, 2) == a[0][0] * a[1][1] - a[0][1] * a[1][0]
  {
    MinorEntry(a, 2, 2, 0, 0, 0, 0);
    MinorEntry(a, 2, 2, 1, 0, 0, 0);
    assert Expand(a, 2, 1) == a[0][0] * a[1][1];
  }

  /** The alternating sign flips from one index to the next. */
  lemma SignNext(k: nat)
    ensures Sign(k + 1) == -Sign(k)
  {
  }

  /** A cell computed as the inverse does, from the sign it picks with
      `(i + j) % 2` and the value Determinant returns for the (i, j) minor,
      divided by `q`, is cell (i, j) of the cofactor matrix over `q`. */
  lemma CofactorNext(a: Mat, m: nat, i: nat, j: nat, s: real, d: real, q: real)
    requires m >= 1 && Rect(a, m, m) && i < m && j < m && q != 0.0
    requires s == (if (i + j) % 2 == 0 then 1.0 else -1.0)
    requires d == DetOrZero(Minor(a, m, m, i, j), m - 1)
    ensures s * d / q == CofactorsOver(a, m, q)[i][j]
  {
  }

  /** Two matrices of the same shape that agree entry by entry are equal. */
  lemma SameEntries(c: Mat, e: Mat, rows: nat, cols: nat)
    requires Rect(c, rows, cols) && Rect(e, rows, cols)
    requires forall i, j :: 0 <= i < rows && 0 <= j < cols ==> c[i][j] == e[i][j]
    ensures c == e
  {
    forall i | 0 <= i < rows
      ensures c[i] == e[i]
    {
    }
  }

  /** Transposing twice gives back the original matrix. */
  lemma TransposeTwice(a: Mat, rows: nat, cols: nat)
    requires Rect(a, rows, cols)
    ensures Transpose(Transpose(a, rows, cols), cols, rows) == a
  {
    var t := Transpose(Transpose(a, rows, cols), cols, rows);
    forall i | 0 <= i < rows
      ensures t[i] == a[i]
    {
    }
  }

  /** Addition commutes. */
  lemma AddCommutes(a: Mat, b: Mat, rows: nat, cols: nat)
    requires Rect(a, rows, cols) && Rect(b, rows, cols)
    ensures Add(a, b, rows, cols) == Add(b, a, rows, cols)
  {
    var l, r := Add(a, b, rows, cols), Add(b, a, rows, cols);
    forall i | 0 <= i < rows
      ensures l[i] == r[i]
    {
    }
  }

  /** Subtracting b and adding it back restores a. */
  lemma SubThenAdd(a: Mat, b: Mat, rows: nat, cols: nat)
    requires Rect(a, rows, cols) && Rect(b, rows, cols)
    ensures Add(Sub(a, b, rows, cols), b, rows, cols) == a
  {
    var c := Add(Sub(a, b, rows, cols), b, rows, cols);
    forall i | 0 <= i < rows
      ensures c[i] == a[i]
    {
    }
  }

  /** Scaling distributes over addition. */
  lemma ScaleOfAdd(a: Mat, b: Mat, rows: nat, cols: nat, s: real)
    requires Rect(a, rows, cols) && Rect(b, rows, cols)
    ensures Scale(Add(a, b, rows, cols), rows, cols, s)
         == Add(Scale(a, rows, cols, s), Scale(b, rows, cols, s), rows, cols)
  {
    var l := Scale(Add(a, b, rows, cols), rows, cols, s);
    var r := Add(Scale(a, rows, cols, s), Scale(b, rows, cols, s), rows, cols);
    forall i | 0 <= i < rows
      ensures l[i] == r[i]
    {
      forall j | 0 <= j < cols
        ensures l[i][j] == r[i][j]
      {
        assert l[i][j] == (a[i][j] + b[i][j]) * s;
      }
    }
  }

  /** Subtraction is addition of the subtrahend scaled by -1. */
  lemma SubIsAddNegated(a: Mat, b: Mat, rows: nat, cols: nat)
    requires Rect(a, rows, cols) && Rect(b, rows, cols)
    ensures Sub(a, b, rows, cols) == Add(a, Scale(b, rows, cols, -1.0), rows, cols)
  {
    var l, r := Sub(a, b, rows, cols), Add(a, Scale(b, rows, cols, -1.0), rows, cols);
    forall i | 0 <= i < rows
      ensures l[i] == r[i]
    {
    }
  }

  /** Transposition commutes with addition. */
  lemma TransposeOfAdd(a: Mat, b: Mat, rows: nat, cols: nat)
    requires Rect(a, rows, cols) && Rect(b, rows, cols)
    ensures Transpose(Add(a, b, rows, cols), rows, cols)
         == Add(Transpose(a, rows, cols), Transpose(b, rows, cols), cols, rows)
  {
    var l := Transpose(Add(a, b, rows, cols), rows, cols);
    var r := Add(Transpose(a, rows, cols), Transpose(b, rows, cols), cols, rows);
    forall j | 0 <= j < cols
      ensures l[j] == r[j]
    {
    }
  }

  /** A partial dot product against the identity picks out entry j once
      the inner index has passed j, and is zero before. */
  lemma {:induction false} DotIdentityRight(a: Mat, n: nat, p: nat, i: nat, j: nat, k: nat)
    requires Rect(a, n, p) && i < n && j < p && k <= p
    ensures Dot(a, Identity(p), i, j, k) == if j < k then a[i][j] else 0.0
  {
    if k > 0 {
      DotIdentityRight(a, n, p, i, j, k - 1);
    }
  }

  /** The identity is a right unit of the product. */
  lemma MatMulIdentityRight(a: Mat, n: nat, p: nat)
    requires Rect(a, n, p)
    ensures MatMul(a, Identity(p), n, p, p) == a
  {
    var c := MatMul(a, Identity(p), n, p, p);
    forall i | 0 <= i < n
      ensures c[i] == a[i]
    {
      forall j | 0 <= j < p
        ensures c[i][j] == a[i][j]
      {
        DotIdentityRight(a, n, p, i, j, p);
      }
    }
  }

  /** A partial dot product of an identity row picks out entry (i, j) of b
      once the inner index has passed i, and is zero before. */
  lemma {:induction false} DotIdentityLeft(b: Mat, n: nat, q: nat, i: nat, j: nat, k: nat)
    requires Rect(b, n, q) && i < n && j < q && k <= n
    ensures Dot(Identity(n), b, i, j, k) == if i < k then b[i][j] else 0.0
  {
    if k > 0 {
      DotIdentityLeft(b, n, q, i, j, k - 1);
    }
  }

  /** The identity is a left unit of the product. */
  lemma MatMulIdentityLeft(b: Mat, n: nat, q: nat)
    requires Rect(b, n, q)
    ensures MatMul(Identity(n), b, n, n, q) == b
  {
    var c := MatMul(Identity(n), b, n, n, q);
    forall i | 0 <= i < n
      ensures c[i] == b[i]
    {
      forall j | 0 <= j < q
        ensures c[i][j] == b[i][j]
      {
        DotIdentityLeft(b, n, q, i, j, n);
      }
    }
  }

  /** Row i of a against column j of b is row j of b's transpose against
      column i of a's transpose, term by term. */
  lemma {:induction false} DotTranspose(a: Mat, b: Mat, n: nat, p: nat, q: nat, i: nat, j: nat, k: nat)
    requires Rect(a, n, p) && Rect(b, p, q) && i < n && j < q && k <= p
    ensures Dot(a, b, i, j, k) == Dot(Transpose(b, p, q), Transpose(a, n, p), j, i, k)
  {
    if k > 0 {
      DotTranspose(a, b, n, p, q, i, j, k - 1);
      var tb, ta := Transpose(b, p, q), Transpose(a, n, p);
      assert tb[j][k - 1] * ta[k - 1][i] == a[i][k - 1] * b[k - 1][j];
    }
  }

  /** The transpose of a product is the product of the transposes in the
      opposite order. */
  lemma TransposeOfMatMul(a: Mat, b: Mat, n: nat, p: nat, q: nat)
    requires Rect(a, n, p) && Rect(b, p, q)
    ensures Transpose(MatMul(a, b, n, p, q), n, q)
         == MatMul(Transpose(b, p, q), Transpose(a, n, p), q, p, n)
  {
    var l := Transpose(MatMul(a, b, n, p, q), n, q);
    var r := MatMul(Transpose(b, p, q), Transpose(a, n, p), q, p, n);
    forall j | 0 <= j < q
      ensures l[j] == r[j]
    {
      forall i | 0 <= i < n
        ensures l[j][i] == r[j][i]
      {
        DotTranspose(a, b, n, p, q, i, j, p);
      }
    }
  }

  /** The trace of the n x n identity is n. */
  lemma {:induction false} DiagIdentity(n: nat, k: nat)
    requires k <= n
    ensures Diag(Identity(n), k) == k as real
  {
    if k > 0 {
      DiagIdentity(n, k - 1);
    }
  }

  /** The trace is additive. */
  lemma {:induction false} DiagOfAdd(a: Mat, b: Mat, n: nat, k: nat)
    requires Rect(a, n, n) && Rect(b, n, n) && k <= n
    ensures Diag(Add(a, b, n, n), k) == Diag(a, k) + Diag(b, k)
  {
    if k > 0 {
      DiagOfAdd(a, b, n, k - 1);
    }
  }

  /** The trace scales with the matrix. */
  lemma {:induction false} DiagOfScale(a: Mat, n: nat, s: real, k: nat)
    requires Rect(a, n, n) && k <= n
    ensures Diag(Scale(a, n, n, s), k) == Diag(a, k) * s
  {
    if k > 0 {
      DiagOfScale(a, n, s, k - 1);
    }
  }

  /** A matrix and its transpose have the same trace. */
  lemma {:induction false} DiagOfTranspose(a: Mat, n: nat, k: nat)
    requires Rect(a, n, n) && k <= n
    ensures Diag(Transpose(a, n, n), k) == Diag(a, k)
  {
    if k > 0 {
      DiagOfTranspose(a, n, k - 1);
    }
  }
}
