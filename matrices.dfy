/** 4x4 matrices of reals: the full matrix-vector product (w row and column
    included) and the transpose, which the original writes into an output
    array with two nested loops. */
module Matrices {

  import opened Vectors

  predicate Is4x4(m: seq<seq<real>>)
  {
    |m| == 4 && forall i :: 0 <= i < 4 ==> |m[i]| == 4
  }

  /** A matrix as a value: four rows of four entries, m[row][column]. */
  type Mat = m: seq<seq<real>> | Is4x4(m)
    witness [[0.0, 0.0, 0.0, 0.0], [0.0, 0.0, 0.0, 0.0], [0.0, 0.0, 0.0, 0.0], [0.0, 0.0, 0.0, 0.0]]

  /** One row of the product: the row dotted with all four coordinates. */
  function RowTimes(o: Vec, row: seq<real>): real
    requires |row| == 4
  {
    o.x * row[0] + o.y * row[1] + o.z * row[2] + o.w * row[3]
  }

  /** The product M * o of a matrix and a column vector, w row and column
      included. */
  function Mult(o: Vec, m: Mat): Vec
  {
    Vec(RowTimes(o, m[0]), RowTimes(o, m[1]), RowTimes(o, m[2]), RowTimes(o, m[3]))
  }

  function Transposed(m: Mat): (t: Mat)
    ensures forall i, j :: 0 <= i < 4 && 0 <= j < 4 ==> t[i][j] == m[j][i]
  {
    seq(4, i requires 0 <= i < 4 => seq(4, j requires 0 <= j < 4 => m[j][i]))
  }

  /** The value held by a 4x4 array. */
  ghost function Entries(a: array2<real>): (m: Mat)
    requires a.Length0 == 4 && a.Length1 == 4
    reads a
    ensures forall i, j :: 0 <= i < 4 && 0 <= j < 4 ==> m[i][j] == a[i, j]
  {
    seq(4, i requires 0 <= i < 4 reads a => seq(4, j requires 0 <= j < 4 reads a => a[i, j]))
  }

  /** Writes the transpose of `mat` into `out`; `mat` itself is not changed. */
  method Transpose(mat: array2<real>, out: array2<real>)
    requires mat.Length0 == 4 && mat.Length1 == 4
    requires out.Length0 == 4 && out.Length1 == 4
    requires mat != out
    modifies out
    ensures forall i, j :: 0 <= i < 4 && 0 <= j < 4 ==> out[i, j] == mat[j, i]
    ensures Entries(out) == Transposed(Entries(mat))
    ensures Entries(mat) == old(Entries(mat))
  {
    for i := 0 to 4
      invariant forall r, c :: 0 <= r < i && 0 <= c < 4 ==> out[r, c] == mat[c, r]
    {
      for j := 0 to 4
        invariant forall r, c :: 0 <= r < i && 0 <= c < 4 ==> out[r, c] == mat[c, r]
        invariant forall c :: 0 <= c < j ==> out[i, c] == mat[c, i]
      {
        out[i, j] := mat[j, i];
      }
    }
    SameEntries(Entries(out), Transposed(Entries(mat)));
  }

  // ---------------------------------------------------------------------
  // Lemmas

  lemma TransposedInvolution(m: Mat)
    ensures Transposed(Transposed(m)) == m
  {
    var t := Transposed(Transposed(m));
    forall i | 0 <= i < 4
      ensures t[i] == m[i]
    {
      assert forall j :: 0 <= j < 4 ==> t[i][j] == m[i][j];
    }
  }

  lemma SameEntries(m: Mat, n: Mat)
    requires forall i, j :: 0 <= i < 4 && 0 <= j < 4 ==> m[i][j] == n[i][j]
    ensures m == n
  {
    forall i | 0 <= i < 4
      ensures m[i] == n[i]
    {
      assert forall j :: 0 <= j < 4 ==> m[i][j] == n[i][j];
    }
  }

  lemma RowTimesAdditive(a: Vec, b: Vec, row: seq<real>)
    requires |row| == 4
    ensures RowTimes(Add(a, b), row) == RowTimes(a, row) + RowTimes(b, row)
  {
    assert (a.x + b.x) * row[0] == a.x * row[0] + b.x * row[0];
    assert (a.y + b.y) * row[1] == a.y * row[1] + b.y * row[1];
    assert (a.z + b.z) * row[2] == a.z * row[2] + b.z * row[2];
    assert (a.w + b.w) * row[3] == a.w * row[3] + b.w * row[3];
  }

  lemma RowTimesHomogeneous(a: Vec, s: real, row: seq<real>)
    requires |row| == 4
    ensures RowTimes(Scale(a, s), row) == s * RowTimes(a, row)
  {
    assert (s * a.x) * row[0] == s * (a.x * row[0]);
    assert (s * a.y) * row[1] == s * (a.y * row[1]);
    assert (s * a.z) * row[2] == s * (a.z * row[2]);
    assert (s * a.w) * row[3] == s * (a.w * row[3]);
  }

  lemma MultAdditive(a: Vec, b: Vec, m: Mat)
    ensures Mult(Add(a, b), m) == Add(Mult(a, m), Mult(b, m))
  {
    var l, r := Mult(Add(a, b), m), Add(Mult(a, m), Mult(b, m));
    assert l.x == r.x by { RowTimesAdditive(a, b, m[0]); }
    assert l.y == r.y by { RowTimesAdditive(a, b, m[1]); }
    assert l.z == r.z by { RowTimesAdditive(a, b, m[2]); }
    assert l.w == r.w by { RowTimesAdditive(a, b, m[3]); }
  }

  lemma MultHomogeneous(a: Vec, s: real, m: Mat)
    ensures Mult(Scale(a, s), m) == Scale(Mult(a, m), s)
  {
    var l, r := Mult(Scale(a, s), m), Scale(Mult(a, m), s);
    assert l.x == r.x by { RowTimesHomogeneous(a, s, m[0]); }
    assert l.y == r.y by { RowTimesHomogeneous(a, s, m[1]); }
    assert l.z == r.z by { RowTimesHomogeneous(a, s, m[2]); }
    assert l.w == r.w by { RowTimesHomogeneous(a, s, m[3]); }
  }

  /** Two matrices that agree everywhere except in column 3, the translation. */
  predicate SameButTranslation(m: Mat, n: Mat)
  {
    forall i, j :: 0 <= i < 4 && 0 <= j < 3 ==> m[i][j] == n[i][j]
  }

  /** Translation does not move a direction ... */
  lemma DirectionIgnoresTranslation(d: Vec, m: Mat, n: Mat)
    requires IsDirection(d)
    requires SameButTranslation(m, n)
    ensures Mult(d, m) == Mult(d, n)
  {
  }

  /** ... and moves a point by exactly the difference of the translations. */
  lemma PointFollowsTranslation(p: Vec, m: Mat, n: Mat)
    requires IsPoint(p)
    requires SameButTranslation(m, n)
    ensures Sub(Mult(p, m), Mult(p, n)) == Vec(m[0][3] - n[0][3], m[1][3] - n[1][3], m[2][3] - n[2][3], m[3][3] - n[3][3])
  {
  }

  /** An affine matrix: bottom row (0, 0, 0, 1). */
  predicate IsAffine(m: Mat)
  {
    m[3] == [0.0, 0.0, 0.0, 1.0]
  }

  /** An affine matrix maps points to points and directions to directions. */
  lemma AffineKeepsKind(v: Vec, m: Mat)
    requires IsAffine(m)
    ensures Mult(v, m).w == v.w
    ensures IsPoint(v) ==> IsPoint(Mult(v, m))
    ensures IsDirection(v) ==> IsDirection(Mult(v, m))
  {
  }
}
