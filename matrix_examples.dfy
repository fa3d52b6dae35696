/** A worked 2 x 2 example, A = [[1, 2], [3, 4]] and
    B = [[5, 6], [7, 8]], and the singular matrix [[1, 2], [2, 4]], worked
    through the specification functions. */
module MatrixExamples {
  import opened MatrixSpec
  import opened MatrixProps
  import opened DetProps

  function A(): (a: Mat)
    ensures Rect(a, 2, 2)
  {
    [[1.0, 2.0], [3.0, 4.0]]
  }

  function B(): (b: Mat)
    ensures Rect(b, 2, 2)
  {
    [[5.0, 6.0], [7.0, 8.0]]
  }

  /** A + B and A * B. */
  lemma SumAndProduct()
    ensures Add(A(), B(), 2, 2) == [[6.0, 8.0], [10.0, 12.0]]
    ensures MatMul(A(), B(), 2, 2, 2) == [[19.0, 22.0], [43.0, 50.0]]
  {
    var s := Add(A(), B(), 2, 2);
    assert s[0] == [6.0, 8.0];
    assert s[1] == [10.0, 12.0];
    EntryTwo(A(), B(), 0, 0);
    EntryTwo(A(), B(), 0, 1);
    EntryTwo(A(), B(), 1, 0);
    EntryTwo(A(), B(), 1, 1);
    SameEntries(MatMul(A(), B(), 2, 2, 2), [[19.0, 22.0], [43.0, 50.0]], 2, 2);
  }

  /** det A = -2, trace A = 5, and the inverse of A. */
  lemma DeterminantTraceInverse()
    ensures Det(A(), 2) == -2.0
    ensures Diag(A(), 2) == 5.0
    ensures Inverse(A(), 2) == [[-2.0, 1.0], [1.5, -0.5]]
  {
    DetTwo(A());
    InverseTwo(A());
  }

  /** [[1, 2], [2, 4]] is singular, so inverting it is refused. */
  lemma SingularExample()
    ensures Det([[1.0, 2.0], [2.0, 4.0]], 2) == 0.0
  {
    DetTwo([[1.0, 2.0], [2.0, 4.0]]);
  }
}
