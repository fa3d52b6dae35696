/** Properties of the determinant and of the inverse as src/matrix.c
    computes them: zero rows and columns, the identity, the 2 x 2
    inverse, and the 1 x 1 case in which the cofactor is the determinant
    of an empty minor. */
module DetProps {
  import opened MatrixSpec
  import opened MatrixProps

  /** A matrix with an all-zero row has determinant 0. */
  lemma {:induction false} DetZeroRow(a: Mat, m: nat, r: nat)
    requires m >= 1 && Rect(a, m, m) && r < m
    requires forall j :: 0 <= j < m ==> a[r][j] == 0.0
    ensures Det(a, m) == 0.0
    decreases m, 1, 0
  {
    if m >= 2 {
      ExpandZeroRow(a, m, r, m);
    }
  }

  /** Every partial column-0 expansion of a matrix with a zero row is 0: the
      term of that row has a zero factor, and every other term's minor keeps
      the zero row. */
  lemma {:induction false} ExpandZeroRow(a: Mat, m: nat, r: nat, k: nat)
    requires m >= 2 && Rect(a, m, m) && r < m && k <= m
    requires forall j :: 0 <= j < m ==> a[r][j] == 0.0
    ensures Expand(a, m, k) == 0.0
    decreases m, 0, k
  {
    if k > 0 {
      ExpandZeroRow(a, m, r, k - 1);
      if k - 1 != r {
        var mn := Minor(a, m, m, k - 1, 0);
        var r' := if r < k - 1 then r else r - 1;
        forall j | 0 <= j < m - 1
          ensures mn[r'][j] == 0.0
        {
          MinorEntry(a, m, m, k - 1, 0, r', j);
        }
        DetZeroRow(mn, m - 1, r');
      }
    }
  }

  /** A matrix with an all-zero column has determinant 0. */
  lemma {:induction false} DetZeroColumn(a: Mat, m: nat, c: nat)
    requires m >= 1 && Rect(a, m, m) && c < m
    requires forall i :: 0 <= i < m ==> a[i][c] == 0.0
    ensures Det(a, m) == 0.0
    decreases m, 1, 0
  {
    if m >= 2 {
      ExpandZeroColumn(a, m, c, m);
    }
  }

  /** Every partial column-0 expansion of a matrix with a zero column is 0:
      if that column is column 0 every term has a zero factor, otherwise
      every minor keeps the zero column. */
  lemma {:induction false} ExpandZeroColumn(a: Mat, m: nat, c: nat, k: nat)
    requires m >= 2 && Rect(a, m, m) && c < m && k <= m
    requires forall i :: 0 <= i < m ==> a[i][c] == 0.0
    ensures Expand(a, m, k) == 0.0
    decreases m, 0, k
  {
    if k > 0 {
      ExpandZeroColumn(a, m, c, k - 1);
      if c != 0 {
        var mn := Minor(a, m, m, k - 1, 0);
        forall i | 0 <= i < m - 1
          ensures mn[i][c - 1] == 0.0
        {
          MinorEntry(a, m, m, k - 1, 0, i, c - 1);
        }
        DetZeroColumn(mn, m - 1, c - 1);
      }
    }
  }

  /** When column 0 is zero below row 0, the expansion is its first term
      alone, however many rows it has covered. */
  lemma {:induction false} ExpandOnlyFirst(a: Mat, m: nat, k: nat)
    requires m >= 2 && Rect(a, m, m) && 1 <= k <= m
    requires forall i :: 1 <= i < m ==> a[i][0] == 0.0
    ensures Expand(a, m, k) == a[0][0] * Det(Minor(a, m, m, 0, 0), m - 1)
  {
    if k > 1 {
      ExpandOnlyFirst(a, m, k - 1);
    }
  }

  /** Deleting row 0 and column 0 of the identity leaves the identity. */
  lemma MinorOfIdentity(n: nat)
    requires n >= 1
    ensures Minor(Identity(n), n, n, 0, 0) == Identity(n - 1)
  {
    var mn := Minor(Identity(n), n, n, 0, 0);
    forall i | 0 <= i < n - 1
      ensures mn[i] == Identity(n - 1)[i]
    {
      forall j | 0 <= j < n - 1
        ensures mn[i][j] == Identity(n - 1)[i][j]
      {
        MinorEntry(Identity(n), n, n, 0, 0, i, j);
      }
    }
  }

  /** The identity has determinant 1 at every size. */
  lemma {:induction false} DetIdentity(n: nat)
    requires n >= 1
    ensures Det(Identity(n), n) == 1.0
  {
    if n >= 2 {
      ExpandOnlyFirst(Identity(n), n, n);
      MinorOfIdentity(n);
      DetIdentity(n - 1);
    }
  }

  /** Cell (i, j) of the inverse is the cofactor at the transposed position
      (j, i) divided by the determinant. */
  lemma InverseEntry(a: Mat, m: nat, i: nat, j: nat)
    requires m >= 1 && Rect(a, m, m) && Det(a, m) != 0.0 && i < m && j < m
    ensures Inverse(a, m)[i][j] == Cofactor(a, m, j, i) / Det(a, m)
  {
  }

  /** For m == 1 the inverse holds 0.0, whatever the (non-zero) entry: the
      one cofactor is the determinant of an empty minor, which
      Determinant reports as 0.0. The product with the input is therefore
      not the identity. */
  lemma InverseOfOne(a: Mat)
    requires Rect(a, 1, 1) && a[0][0] != 0.0
    ensures Det(a, 1) != 0.0
    ensures Inverse(a, 1) == [[0.0]]
    ensures MatMul(a, Inverse(a, 1), 1, 1, 1) != Identity(1)
  {
    var inv := Inverse(a, 1);
    InverseEntry(a, 1, 0, 0);
    assert inv[0][0] == 0.0;
    assert inv[0] == [0.0];
    var c := MatMul(a, inv, 1, 1, 1);
    assert c[0][0] == Dot(a, inv, 0, 0, 1) == a[0][0] * 0.0;
    assert c[0][0] != Identity(1)[0][0];
  }

  /** The cofactors of a 2 x 2 matrix are its entries at the opposite
      corner, signed by position. */
  lemma CofactorTwo(a: Mat, i: nat, j: nat)
    requires Rect(a, 2, 2) && i < 2 && j < 2
    ensures Cofactor(a, 2, i, j) == Sign(i + j) * a[1 - i][1 - j]
  {
    MinorEntry(a, 2, 2, i, j, 0, 0);
  }

  /** The 2 x 2 cofactor matrix over d, written out. */
  lemma CofactorsOverTwo(a: Mat, d: real)
    requires Rect(a, 2, 2) && d != 0.0
    ensures CofactorsOver(a, 2, d) == [[a[1][1] / d, -a[1][0] / d], [-a[0][1] / d, a[0][0] / d]]
  {
    var c := CofactorsOver(a, 2, d);
    CofactorTwo(a, 0, 0);
    CofactorTwo(a, 0, 1);
    CofactorTwo(a, 1, 0);
    CofactorTwo(a, 1, 1);
    assert c[0] == [a[1][1] / d, -a[1][0] / d];
    assert c[1] == [-a[0][1] / d, a[0][0] / d];
  }

  /** The 2 x 2 inverse in closed form: the swapped diagonal and the negated
      off-diagonal entries, each over ad - bc. */
  lemma InverseTwo(a: Mat)
    requires Rect(a, 2, 2) && Det(a, 2) != 0.0
    ensures Det(a, 2) == a[0][0] * a[1][1] - a[0][1] * a[1][0]
    ensures var d := Det(a, 2);
      Inverse(a, 2) == [[a[1][1] / d, -a[0][1] / d], [-a[1][0] / d, a[0][0] / d]]
  {
    DetTwo(a);
    var d := Det(a, 2);
    CofactorsOverTwo(a, d);
    TransposeTwo(CofactorsOver(a, 2, d));
  }

  /** A 2 x 2 transpose, written out. */
  lemma TransposeTwo(c: Mat)
    requires Rect(c, 2, 2)
    ensures Transpose(c, 2, 2) == [[c[0][0], c[1][0]], [c[0][1], c[1][1]]]
  {
    var t := Transpose(c, 2, 2);
    assert t[0] == [c[0][0], c[1][0]];
    assert t[1] == [c[0][1], c[1][1]];
  }

  /** An entry of a 2 x 2 product, written out. */
  lemma EntryTwo(a: Mat, b: Mat, i: nat, j: nat)
    requires Rect(a, 2, 2) && Rect(b, 2, 2) && i < 2 && j < 2
    ensures MatMul(a, b, 2, 2, 2)[i][j] == a[i][0] * b[0][j] + a[i][1] * b[1][j]
  {
    assert Dot(a, b, i, j, 1) == a[i][0] * b[0][j];
  }

  /** x * (u / d) + y * (v / d) is the combination x * u + y * v over d. */
  lemma OverDet(x: real, u: real, y: real, v: real, d: real)
    requires d != 0.0
    ensures x * (u / d) + y * (v / d) == (x * u + y * v) / d
  {
    var ud, vd := u / d, v / d;
    assert ud * d == u;
    assert vd * d == v;
    assert (x * ud + y * vd) * d == x * (ud * d) + y * (vd * d);
  }

  /** The eight entries of the two 2 x 2 products with the closed-form
      inverse, as real arithmetic. */
  lemma UnitTwo(p: real, q: real, r: real, s: real, d: real)
    requires d == p * s - q * r && d != 0.0
    ensures p * (s / d) + q * (-r / d) == 1.0 && p * (-q / d) + q * (p / d) == 0.0
    ensures r * (s / d) + s * (-r / d) == 0.0 && r * (-q / d) + s * (p / d) == 1.0
    ensures (s / d) * p + (-q / d) * r == 1.0 && (s / d) * q + (-q / d) * s == 0.0
    ensures (-r / d) * p + (p / d) * r == 0.0 && (-r / d) * q + (p / d) * s == 1.0
  {
    OverDet(p, s, q, -r, d);
    OverDet(p, -q, q, p, d);
    OverDet(r, s, s, -r, d);
    OverDet(r, -q, s, p, d);
    OverDet(p, s, r, -q, d);
    OverDet(q, s, s, -q, d);
    OverDet(p, -r, r, p, d);
    OverDet(q, -r, s, p, d);
  }

  /** A 2 x 2 matrix with ones on the diagonal and zeros off it is the
      identity. */
  lemma IdentityTwo(l: Mat)
    requires Rect(l, 2, 2)
    requires l[0][0] == 1.0 && l[0][1] == 0.0 && l[1][0] == 0.0 && l[1][1] == 1.0
    ensures l == Identity(2)
  {
    SameEntries(l, Identity(2), 2, 2);
  }

  /** The matrix times the closed-form inverse, entry by entry. */
  lemma ClosedInverseRight(a: Mat, d: real)
    requires Rect(a, 2, 2) && d == a[0][0] * a[1][1] - a[0][1] * a[1][0] && d != 0.0
    ensures var l := MatMul(a, [[a[1][1] / d, -a[0][1] / d], [-a[1][0] / d, a[0][0] / d]], 2, 2, 2);
      l[0][0] == 1.0 && l[0][1] == 0.0 && l[1][0] == 0.0 && l[1][1] == 1.0
  {
    var inv := [[a[1][1] / d, -a[0][1] / d], [-a[1][0] / d, a[0][0] / d]];
    UnitTwo(a[0][0], a[0][1], a[1][0], a[1][1], d);
    EntryTwo(a, inv, 0, 0);
    EntryTwo(a, inv, 0, 1);
    EntryTwo(a, inv, 1, 0);
    EntryTwo(a, inv, 1, 1);
  }

  /** The closed-form inverse times the matrix, entry by entry. */
  lemma ClosedInverseLeft(a: Mat, d: real)
    requires Rect(a, 2, 2) && d == a[0][0] * a[1][1] - a[0][1] * a[1][0] && d != 0.0
    ensures var u := MatMul([[a[1][1] / d, -a[0][1] / d], [-a[1][0] / d, a[0][0] / d]], a, 2, 2, 2);
      u[0][0] == 1.0 && u[0][1] == 0.0 && u[1][0] == 0.0 && u[1][1] == 1.0
  {
    var inv := [[a[1][1] / d, -a[0][1] / d], [-a[1][0] / d, a[0][0] / d]];
    UnitTwo(a[0][0], a[0][1], a[1][0], a[1][1], d);
    EntryTwo(inv, a, 0, 0);
    EntryTwo(inv, a, 0, 1);
    EntryTwo(inv, a, 1, 0);
    EntryTwo(inv, a, 1, 1);
  }

  /** A non-singular 2 x 2 matrix times its inverse, on either side, is the
      identity (exactly, over the reals). */
  lemma InverseTwoIsInverse(a: Mat)
    requires Rect(a, 2, 2) && Det(a, 2) != 0.0
    ensures MatMul(a, Inverse(a, 2), 2, 2, 2) == Identity(2)
    ensures MatMul(Inverse(a, 2), a, 2, 2, 2) == Identity(2)
  {
    InverseTwo(a);
    var inv := Inverse(a, 2);
    ClosedInverseRight(a, Det(a, 2));
    IdentityTwo(MatMul(a, inv, 2, 2, 2));
    ClosedInverseLeft(a, Det(a, 2));
    IdentityTwo(MatMul(inv, a, 2, 2, 2));
  }
}
