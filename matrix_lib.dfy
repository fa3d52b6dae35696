/** The public operations of src/matrix.c (and its internal minor helper
    GetMatr) as methods over heap-allocated two-dimensional arrays.

    A C matrix is a `double**` handle plus dimensions that the caller
    supplies; here it is an `array2?<real>` (null stays null) plus the same
    `int` dimensions. C trusts the caller that the rows really are that long;
    the model states that trust as a precondition (`Fits`). Every operation
    allocates a fresh result and never writes to its inputs (no method here
    has a `modifies` clause). `errno` becomes a returned error code. */
module MatrixLib {
  import opened MatrixSpec
  import opened MatrixProps

  /** The two codes the library stores in `errno`. */
  datatype Errno = EINVAL | ENOMEM

  /** A matrix-returning call: the fresh matrix, or NULL with `errno` set. */
  datatype Result<T> = Ok(value: T) | Err(errno: Errno)

  datatype Option<T> = None | Some(value: T)

  /** The caller's promise behind a non-null handle: it holds at least
      `rows` rows of at least `cols` entries. */
  predicate Fits(a: array2<real>, rows: int, cols: int)
  {
    0 <= rows <= a.Length0 && 0 <= cols <= a.Length1
  }

  /** The first n entries of row i of `a`, as a value. */
  ghost function RowOf(a: array2<real>, i: nat, n: nat): (r: seq<real>)
    requires i < a.Length0 && n <= a.Length1
    reads a
    ensures |r| == n
  {
    if n == 0 then [] else RowOf(a, i, n - 1) + [a[i, n - 1]]
  }

  /** The top-left rows x cols block of `a`, as a value. */
  ghost function Contents(a: array2<real>, rows: nat, cols: nat): (s: Mat)
    requires rows <= a.Length0 && cols <= a.Length1
    reads a
    ensures Rect(s, rows, cols)
  {
    if rows == 0 then [] else Contents(a, rows - 1, cols) + [RowOf(a, rows - 1, cols)]
  }

  lemma RowAt(a: array2<real>, i: nat, n: nat, j: nat)
    requires i < a.Length0 && n <= a.Length1 && j < n
    ensures RowOf(a, i, n)[j] == a[i, j]
  {
    if j < n - 1 {
      RowAt(a, i, n - 1, j);
    }
  }

  /** Entry (i, j) of the block is the array's entry (i, j). */
  lemma ContentsAt(a: array2<real>, rows: nat, cols: nat, i: nat, j: nat)
    requires rows <= a.Length0 && cols <= a.Length1 && i < rows && j < cols
    ensures Contents(a, rows, cols)[i][j] == a[i, j]
  {
    if i < rows - 1 {
      ContentsAt(a, rows - 1, cols, i, j);
    } else {
      RowAt(a, i, cols, j);
    }
  }

  /** Every entry of the block is the array's entry. */
  lemma ContentsEntries(a: array2<real>, rows: nat, cols: nat)
    requires rows <= a.Length0 && cols <= a.Length1
    ensures forall i, j :: 0 <= i < rows && 0 <= j < cols ==> Contents(a, rows, cols)[i][j] == a[i, j]
  {
    forall i, j | 0 <= i < rows && 0 <= j < cols
      ensures Contents(a, rows, cols)[i][j] == a[i, j]
    {
      ContentsAt(a, rows, cols, i, j);
    }
  }

  /** A value equals the array block once they agree entry by entry. */
  lemma ContentsAre(a: array2<real>, rows: nat, cols: nat, s: Mat)
    requires rows <= a.Length0 && cols <= a.Length1 && Rect(s, rows, cols)
    requires forall i, j :: 0 <= i < rows && 0 <= j < cols ==> a[i, j] == s[i][j]
    ensures Contents(a, rows, cols) == s
  {
    var c := Contents(a, rows, cols);
    forall i | 0 <= i < rows
      ensures c[i] == s[i]
    {
      forall j | 0 <= j < cols
        ensures c[i][j] == s[i][j]
      {
        ContentsAt(a, rows, cols, i, j);
      }
    }
  }

  /** An array filled by GetMatr's shift rule holds the minor. */
  lemma ShiftedIsMinor(matrix: array2<real>, p: array2<real>, rows: nat, cols: nat, row: nat, col: nat)
    requires row < rows && col < cols && Fits(matrix, rows, cols) && Fits(p, rows - 1, cols - 1)
    requires forall i', j' :: 0 <= i' < rows - 1 && 0 <= j' < cols - 1 ==>
      p[i', j'] == matrix[if i' >= row then i' + 1 else i', if j' >= col then j' + 1 else j']
    ensures Contents(p, rows - 1, cols - 1) == Minor(Contents(matrix, rows, cols), rows, cols, row, col)
  {
    var a := Contents(matrix, rows, cols);
    ContentsEntries(matrix, rows, cols);
    forall i', j' | 0 <= i' < rows - 1 && 0 <= j' < cols - 1
      ensures p[i', j'] == Minor(a, rows, cols, row, col)[i'][j']
    {
      MinorEntry(a, rows, cols, row, col, i', j');
    }
    ContentsAre(p, rows - 1, cols - 1, Minor(a, rows, cols, row, col));
  }

  /** addMatrices: element-wise A + B. Only negative dimensions are
      rejected, so a 0 x cols or rows x 0 sum is a valid empty result. */
  method AddMatrices(matrixA: array2?<real>, matrixB: array2?<real>, rows: int, cols: int)
    returns (r: Result<array2<real>>)
    requires matrixA != null && rows >= 0 && cols >= 0 ==> Fits(matrixA, rows, cols)
    requires matrixB != null && rows >= 0 && cols >= 0 ==> Fits(matrixB, rows, cols)
    ensures r.Err? <==> matrixA == null || matrixB == null || rows < 0 || cols < 0
    ensures r.Err? ==> r.errno == EINVAL
    ensures r.Ok? ==> (matrixA != null && matrixB != null && rows >= 0 && cols >= 0
      && fresh(r.value) && r.value.Length0 == rows && r.value.Length1 == cols
      && Contents(r.value, rows, cols)
         == Add(Contents(matrixA, rows, cols), Contents(matrixB, rows, cols), rows, cols))
  {
    if matrixA == null || matrixB == null {
      return Err(EINVAL);
    }
    if rows < 0 || cols < 0 {
      return Err(EINVAL);
    }
    var result := new real[rows, cols];
    for i := 0 to rows
      invariant forall i', j' :: 0 <= i' < i && 0 <= j' < cols ==>
        result[i', j'] == matrixA[i', j'] + matrixB[i', j']
    {
      for j := 0 to cols
        invariant forall i', j' :: 0 <= i' < i && 0 <= j' < cols ==>
          result[i', j'] == matrixA[i', j'] + matrixB[i', j']
        invariant forall j' :: 0 <= j' < j ==> result[i, j'] == matrixA[i, j'] + matrixB[i, j']
      {
        result[i, j] := matrixA[i, j] + matrixB[i, j];
      }
    }
    ContentsEntries(matrixA, rows, cols);
    ContentsEntries(matrixB, rows, cols);
    ContentsAre(result, rows, cols,
      Add(Contents(matrixA, rows, cols), Contents(matrixB, rows, cols), rows, cols));
    return Ok(result);
  }

  /** transposeMatrix: the cols x rows transpose. A null handle is EINVAL,
      but non-positive dimensions are reported as ENOMEM. */
  method TransposeMatrix(matrix: array2?<real>, rows: int, cols: int)
    returns (r: Result<array2<real>>)
    requires matrix != null && rows >= 0 && cols >= 0 ==> Fits(matrix, rows, cols)
    ensures matrix == null ==> r == Err(EINVAL)
    ensures matrix != null && (rows <= 0 || cols <= 0) ==> r == Err(ENOMEM)
    ensures r.Ok? ==> (matrix != null && rows > 0 && cols > 0
      && fresh(r.value) && r.value.Length0 == cols && r.value.Length1 == rows
      && Contents(r.value, cols, rows) == Transpose(Contents(matrix, rows, cols), rows, cols))
    ensures matrix != null && rows > 0 && cols > 0 ==> r.Ok?
  {
    if matrix == null {
      return Err(EINVAL);
    }
    if rows <= 0 || cols <= 0 {
      return Err(ENOMEM);
    }
    var transposed := new real[cols, rows];
    for i := 0 to rows
      invariant forall i', j' :: 0 <= i' < i && 0 <= j' < cols ==> transposed[j', i'] == matrix[i', j']
    {
      for j := 0 to cols
        invariant forall i', j' :: 0 <= i' < i && 0 <= j' < cols ==> transposed[j', i'] == matrix[i', j']
        invariant forall j' :: 0 <= j' < j ==> transposed[j', i] == matrix[i, j']
      {
        transposed[j, i] := matrix[i, j];
      }
    }
    ContentsEntries(matrix, rows, cols);
    ContentsAre(transposed, cols, rows, Transpose(Contents(matrix, rows, cols), rows, cols));
    return Ok(transposed);
  }

  /** multiplyMatrices: the rowsA x colsB product. The inner dimensions are
      compared first, before the handles and the dimensions' signs are
      looked at; every rejection is EINVAL. */
  method MultiplyMatrices(matrixA: array2?<real>, rowsA: int, colsA: int,
                          matrixB: array2?<real>, rowsB: int, colsB: int)
    returns (r: Result<array2<real>>)
    requires matrixA != null && rowsA >= 0 && colsA >= 0 ==> Fits(matrixA, rowsA, colsA)
    requires matrixB != null && rowsB >= 0 && colsB >= 0 ==> Fits(matrixB, rowsB, colsB)
    ensures r.Err? <==> colsA != rowsB || matrixA == null || matrixB == null
                        || rowsA <= 0 || colsA <= 0 || rowsB <= 0 || colsB <= 0
    ensures r.Err? ==> r.errno == EINVAL
    ensures r.Ok? ==> (matrixA != null && matrixB != null && rowsA > 0 && colsA > 0 && colsA == rowsB && colsB > 0
      && fresh(r.value) && r.value.Length0 == rowsA && r.value.Length1 == colsB
      && Contents(r.value, rowsA, colsB)
         == MatMul(Contents(matrixA, rowsA, colsA), Contents(matrixB, rowsB, colsB), rowsA, colsA, colsB))
  {
    if colsA != rowsB {
      return Err(EINVAL);
    }
    if matrixA == null || matrixB == null {
      return Err(EINVAL);
    }
    if rowsA <= 0 || colsA <= 0 || rowsB <= 0 || colsB <= 0 {
      return Err(EINVAL);
    }
    ghost var a := Contents(matrixA, rowsA, colsA);
    ghost var b := Contents(matrixB, rowsB, colsB);
    ContentsEntries(matrixA, rowsA, colsA);
    ContentsEntries(matrixB, rowsB, colsB);
    var result := new real[rowsA, colsB];
    for i := 0 to rowsA
      invariant forall i', j' :: 0 <= i' < i && 0 <= j' < colsB ==> result[i', j'] == Dot(a, b, i', j', colsA)
    {
      for j := 0 to colsB
        invariant forall i', j' :: 0 <= i' < i && 0 <= j' < colsB ==> result[i', j'] == Dot(a, b, i', j', colsA)
        invariant forall j' :: 0 <= j' < j ==> result[i, j'] == Dot(a, b, i, j', colsA)
      {
        result[i, j] := 0.0;
        for k := 0 to colsA
          invariant forall i', j' :: 0 <= i' < i && 0 <= j' < colsB ==> result[i', j'] == Dot(a, b, i', j', colsA)
          invariant forall j' :: 0 <= j' < j ==> result[i, j'] == Dot(a, b, i, j', colsA)
          invariant result[i, j] == Dot(a, b, i, j, k)
        {
          result[i, j] := result[i, j] + matrixA[i, k] * matrixB[k, j];
        }
      }
    }
    ContentsAre(result, rowsA, colsB, MatMul(a, b, rowsA, colsA, colsB));
    return Ok(result);
  }

  /** scalarMultiplyMatrix: every entry times `scalar`. A null handle and
      non-positive dimensions are EINVAL. */
  method ScalarMultiplyMatrix(matrix: array2?<real>, rows: int, cols: int, scalar: real)
    returns (r: Result<array2<real>>)
    requires matrix != null && rows >= 0 && cols >= 0 ==> Fits(matrix, rows, cols)
    ensures r.Err? <==> matrix == null || rows <= 0 || cols <= 0
    ensures r.Err? ==> r.errno == EINVAL
    ensures r.Ok? ==> (matrix != null && rows > 0 && cols > 0
      && fresh(r.value) && r.value.Length0 == rows && r.value.Length1 == cols
      && Contents(r.value, rows, cols) == Scale(Contents(matrix, rows, cols), rows, cols, scalar))
  {
    if matrix == null {
      return Err(EINVAL);
    }
    if rows <= 0 || cols <= 0 {
      return Err(EINVAL);
    }
    var result := new real[rows, cols];
    for i := 0 to rows
      invariant forall i', j' :: 0 <= i' < i && 0 <= j' < cols ==> result[i', j'] == matrix[i', j'] * scalar
    {
      for j := 0 to cols
        invariant forall i', j' :: 0 <= i' < i && 0 <= j' < cols ==> result[i', j'] == matrix[i', j'] * scalar
        invariant forall j' :: 0 <= j' < j ==> result[i, j'] == matrix[i, j'] * scalar
      {
        result[i, j] := matrix[i, j] * scalar;
      }
    }
    ContentsEntries(matrix, rows, cols);
    ContentsAre(result, rows, cols, Scale(Contents(matrix, rows, cols), rows, cols, scalar));
    return Ok(result);
  }

  /** subtractMatrices: element-wise A - B. Unlike addition, a zero
      dimension is rejected too; every rejection is EINVAL. */
  method SubtractMatrices(matrixA: array2?<real>, matrixB: array2?<real>, rows: int, cols: int)
    returns (r: Result<array2<real>>)
    requires matrixA != null && rows >= 0 && cols >= 0 ==> Fits(matrixA, rows, cols)
    requires matrixB != null && rows >= 0 && cols >= 0 ==> Fits(matrixB, rows, cols)
    ensures r.Err? <==> matrixA == null || matrixB == null || rows <= 0 || cols <= 0
    ensures r.Err? ==> r.errno == EINVAL
    ensures r.Ok? ==> (matrixA != null && matrixB != null && rows > 0 && cols > 0
      && fresh(r.value) && r.value.Length0 == rows && r.value.Length1 == cols
      && Contents(r.value, rows, cols)
         == Sub(Contents(matrixA, rows, cols), Contents(matrixB, rows, cols), rows, cols))
  {
    if matrixA == null || matrixB == null {
      return Err(EINVAL);
    }
    if rows <= 0 || cols <= 0 {
      return Err(EINVAL);
    }
    var result := new real[rows, cols];
    for i := 0 to rows
      invariant forall i', j' :: 0 <= i' < i && 0 <= j' < cols ==>
        result[i', j'] == matrixA[i', j'] - matrixB[i', j']
    {
      for j := 0 to cols
        invariant forall i', j' :: 0 <= i' < i && 0 <= j' < cols ==>
          result[i', j'] == matrixA[i', j'] - matrixB[i', j']
        invariant forall j' :: 0 <= j' < j ==> result[i, j'] == matrixA[i, j'] - matrixB[i, j']
      {
        result[i, j] := matrixA[i, j] - matrixB[i, j];
      }
    }
    ContentsEntries(matrixA, rows, cols);
    ContentsEntries(matrixB, rows, cols);
    ContentsAre(result, rows, cols,
      Sub(Contents(matrixA, rows, cols), Contents(matrixB, rows, cols), rows, cols));
    return Ok(result);
  }

  /** identityMatrix: the N x N identity; N == 0 gives an empty matrix and
      only a negative N is EINVAL. */
  method IdentityMatrix(n: int) returns (r: Result<array2<real>>)
    ensures r.Err? <==> n < 0
    ensures r.Err? ==> r.errno == EINVAL
    ensures r.Ok? ==> (n >= 0 && fresh(r.value) && r.value.Length0 == n && r.value.Length1 == n
      && Contents(r.value, n, n) == Identity(n))
  {
    if n < 0 {
      return Err(EINVAL);
    }
    var tempMatrix := new real[n, n];
    for i := 0 to n
      invariant forall i', j' :: 0 <= i' < i && 0 <= j' < n ==>
        tempMatrix[i', j'] == if i' == j' then 1.0 else 0.0
    {
      for j := 0 to n
        invariant forall i', j' :: 0 <= i' < i && 0 <= j' < n ==>
          tempMatrix[i', j'] == if i' == j' then 1.0 else 0.0
        invariant forall j' :: 0 <= j' < j ==> tempMatrix[i, j'] == if i == j' then 1.0 else 0.0
      {
        if i == j {
          tempMatrix[i, j] := 1.0;
        } else {
          tempMatrix[i, j] := 0.0;
        }
      }
    }
    ContentsAre(tempMatrix, n, n, Identity(n));
    return Ok(tempMatrix);
  }

  /** GetMatr: the matrix without row `row` and column `col`. The shift
      flags di and dj switch to 1 once the loop index reaches the deleted
      row or column. A null handle is ENOMEM; the indices are the callers'
      responsibility. */
  method GetMatr(matrix: array2?<real>, rows: int, cols: int, row: int, col: int)
    returns (r: Result<array2<real>>)
    requires matrix != null ==> 0 <= row < rows && 0 <= col < cols && Fits(matrix, rows, cols)
    ensures matrix == null ==> r == Err(ENOMEM)
    ensures matrix != null ==> (r.Ok?
      && fresh(r.value) && r.value.Length0 == rows - 1 && r.value.Length1 == cols - 1
      && Contents(r.value, rows - 1, cols - 1) == Minor(Contents(matrix, rows, cols), rows, cols, row, col))
  {
    if matrix == null {
      return Err(ENOMEM);
    }
    var p := new real[rows - 1, cols - 1];
    var di := 0;
    var i := 0;
    while i < rows - 1
      invariant 0 <= i <= rows - 1
      invariant di == if i > row then 1 else 0
      invariant forall i', j' :: 0 <= i' < i && 0 <= j' < cols - 1 ==>
        p[i', j'] == matrix[if i' >= row then i' + 1 else i', if j' >= col then j' + 1 else j']
    {
      if i == row {
        di := 1;
      }
      var dj := 0;
      var j := 0;
      while j < cols - 1
        invariant 0 <= j <= cols - 1
        invariant dj == if j > col then 1 else 0
        invariant forall i', j' :: 0 <= i' < i && 0 <= j' < cols - 1 ==>
          p[i', j'] == matrix[if i' >= row then i' + 1 else i', if j' >= col then j' + 1 else j']
        invariant forall j' :: 0 <= j' < j ==>
          p[i, j'] == matrix[if i >= row then i + 1 else i, if j' >= col then j' + 1 else j']
      {
        if j == col {
          dj := 1;
        }
        p[i, j] := matrix[i + di, j + dj];
        j := j + 1;
      }
      i := i + 1;
    }
    ShiftedIsMinor(matrix, p, rows, cols, row, col);
    return Ok(p);
  }

  /** Determinant: 0.0 with EINVAL for a null handle or m < 1; the single
      entry for m == 1; ad - bc for m == 2; otherwise the cofactor
      expansion down column 0, one temporary minor per row. */
  method Determinant(matrix: array2?<real>, m: int) returns (det: real, err: Option<Errno>)
    requires matrix != null && m >= 1 ==> Fits(matrix, m, m)
    ensures matrix == null || m < 1 ==> det == 0.0 && err == Some(EINVAL)
    ensures matrix != null && m >= 1 ==> det == Det(Contents(matrix, m, m), m) && err == None
    decreases if m < 0 then 0 else m, 1
  {
    if matrix == null {
      return 0.0, Some(EINVAL);
    }
    if m < 1 {
      return 0.0, Some(EINVAL);
    }
    ghost var a := Contents(matrix, m, m);
    if m == 1 {
      ContentsAt(matrix, 1, 1, 0, 0);
      return matrix[0, 0], None;
    }
    if m == 2 {
      DetTwo(a);
      ContentsAt(matrix, 2, 2, 0, 0);
      ContentsAt(matrix, 2, 2, 0, 1);
      ContentsAt(matrix, 2, 2, 1, 0);
      ContentsAt(matrix, 2, 2, 1, 1);
      return matrix[0, 0] * matrix[1, 1] - matrix[0, 1] * matrix[1, 0], None;
    }
    det := 0.0;
    var sign := 1;
    for i := 0 to m
      invariant sign as real == Sign(i)
      invariant det == Expand(a, m, i)
      invariant a == Contents(matrix, m, m)
    {
      var term := ExpansionTerm(matrix, m, i, sign);
      det := det + term;
      SignNext(i);
      sign := -sign;
    }
    return det, None;
  }

  /** One pass of Determinant's expansion loop: the minor without row i and
      column 0, its determinant, weighted by the sign and by entry (i, 0). */
  method ExpansionTerm(matrix: array2<real>, m: int, i: int, sign: int) returns (term: real)
    requires 2 <= m && Fits(matrix, m, m) && 0 <= i < m && sign as real == Sign(i)
    ensures term == Term(Contents(matrix, m, m), m, i)
    decreases m, 0
  {
    var minor := GetMatr(matrix, m, m, i, 0);
    var minorDet, _ := Determinant(minor.value, m - 1);
    ContentsAt(matrix, m, m, i, 0);
    term := (sign as real) * matrix[i, 0] * minorDet;
  }

  /** invertMatrix: EINVAL for a null handle, m <= 0 or an exactly zero
      determinant; otherwise each cell (i, j) of the cofactor matrix is the
      signed determinant of the (i, j) minor divided by det, and the result
      is the transpose of that matrix. The input is left unchanged. */
  method InvertMatrix(mas: array2?<real>, m: int) returns (r: Result<array2<real>>)
    requires mas != null && m >= 1 ==> Fits(mas, m, m)
    ensures r.Err? <==> mas == null || m <= 0 || Det(Contents(mas, m, m), m) == 0.0
    ensures r.Err? ==> r.errno == EINVAL
    ensures r.Ok? ==> (mas != null && m >= 1 && Det(Contents(mas, m, m), m) != 0.0
      && fresh(r.value) && r.value.Length0 == m && r.value.Length1 == m
      && Contents(r.value, m, m) == Inverse(Contents(mas, m, m), m))
  {
    if mas == null || m <= 0 {
      return Err(EINVAL);
    }
    var det, _ := Determinant(mas, m);
    if det == 0.0 {
      return Err(EINVAL);
    }
    ghost var a := Contents(mas, m, m);
    ghost var cof := CofactorsOver(a, m, det);
    var cofactors := new real[m, m];
    for i := 0 to m
      invariant a == Contents(mas, m, m)
      invariant forall i', j' :: 0 <= i' < i && 0 <= j' < m ==> cofactors[i', j'] == cof[i'][j']
    {
      for j := 0 to m
        invariant a == Contents(mas, m, m)
        invariant forall i', j' :: 0 <= i' < i && 0 <= j' < m ==> cofactors[i', j'] == cof[i'][j']
        invariant forall j' :: 0 <= j' < j ==> cofactors[i, j'] == cof[i][j']
      {
        cofactors[i, j] := CofactorCell(mas, m, i, j, det);
      }
    }
    ContentsAre(cofactors, m, m, cof);
    r := TransposeMatrix(cofactors, m, m);
  }

  /** One cell of invertMatrix's cofactor loop: the determinant of the
      minor without row i and column j, signed by the parity of i + j and
      divided by the whole determinant `det`. */
  method CofactorCell(mas: array2<real>, m: int, i: int, j: int, det: real) returns (cell: real)
    requires 1 <= m && Fits(mas, m, m) && 0 <= i < m && 0 <= j < m && det != 0.0
    ensures cell == CofactorsOver(Contents(mas, m, m), m, det)[i][j]
  {
    var minor := GetMatr(mas, m, m, i, j);
    var minorDet, _ := Determinant(minor.value, m - 1);
    var sign := if (i + j) % 2 == 0 then 1.0 else -1.0;
    CofactorNext(Contents(mas, m, m), m, i, j, sign, minorDet, det);
    cell := sign * minorDet / det;
  }

  /** matrixTrace: the sum of the first `size` diagonal entries, or 0.0
      with EINVAL for a null handle or size < 1. Squareness is not checked:
      the caller only promises size rows of at least size entries. */
  method MatrixTrace(matrix: array2?<real>, size: int) returns (result: real, err: Option<Errno>)
    requires matrix != null && size >= 1 ==> Fits(matrix, size, size)
    ensures matrix == null || size < 1 ==> result == 0.0 && err == Some(EINVAL)
    ensures matrix != null && size >= 1 ==> result == Diag(Contents(matrix, size, size), size) && err == None
  {
    if matrix == null || size < 1 {
      return 0.0, Some(EINVAL);
    }
    ghost var a := Contents(matrix, size, size);
    ContentsEntries(matrix, size, size);
    result := 0.0;
    for i := 0 to size
      invariant result == Diag(a, i)
    {
      result := result + matrix[i, i];
    }
    err := None;
  }
}
