/** Homogeneous 4-component vectors (x, y, z, w) and the free functions of the
    renderer that work on them: dot product, magnitude and normalisation.
    Points carry w = 1 and directions w = 0; nothing in the arithmetic enforces
    that discipline, so the lemmas below say when it is kept.

    Coordinates are reals: the single-precision storage of the original and its
    rounding are not modelled. The square root is not definable here, so every
    operation that needs one takes it as a parameter `sqrt`; the facts used
    about it are the predicates SqrtNonNegative and IsSqrt. */
module Vectors {

  import opened Reals

  datatype Vec = Vec(x: real, y: real, z: real, w: real)

  /** The default constructor: every coordinate 0, so a direction. */
  function Zero(): Vec
  {
    Vec(0.0, 0.0, 0.0, 0.0)
  }

  predicate IsPoint(v: Vec) { v.w == 1.0 }

  predicate IsDirection(v: Vec) { v.w == 0.0 }

  function Add(a: Vec, b: Vec): Vec
  {
    Vec(a.x + b.x, a.y + b.y, a.z + b.z, a.w + b.w)
  }

  function Sub(a: Vec, b: Vec): Vec
  {
    Vec(a.x - b.x, a.y - b.y, a.z - b.z, a.w - b.w)
  }

  /** Scalar multiplication: scales all four coordinates, w included. */
  function Scale(v: Vec, s: real): Vec
  {
    Vec(s * v.x, s * v.y, s * v.z, s * v.w)
  }

  /** Scalar division: divides all four coordinates, w included. */
  function Div(v: Vec, s: real): Vec
    requires s != 0.0
  {
    Vec(v.x / s, v.y / s, v.z / s, v.w / s)
  }

  /** Dot product over x, y and z only; w takes no part. */
  function Dot(a: Vec, b: Vec): real
  {
    a.x * b.x + a.y * b.y + a.z * b.z
  }

  /** What the model uses of the square root when it needs anything. */
  ghost predicate SqrtNonNegative(sqrt: real -> real)
  {
    forall x :: 0.0 <= x ==> 0.0 <= sqrt(x)
  }

  ghost predicate IsSqrt(sqrt: real -> real)
  {
    forall x :: 0.0 <= x ==> 0.0 <= sqrt(x) && sqrt(x) * sqrt(x) == x
  }

  function Mag(v: Vec, sqrt: real -> real): real
  {
    sqrt(Dot(v, v))
  }

  /** Divides by the magnitude. A vector of magnitude 0 is returned as it is
      (the original divides by zero there). */
  function Normalize(v: Vec, sqrt: real -> real): Vec
  {
    var m := Mag(v, sqrt);
    if m == 0.0 then v else Div(v, m)
  }

  // ---------------------------------------------------------------------
  // Algebra of the operators

  lemma SubUndoesAdd(a: Vec, b: Vec)
    ensures Sub(Add(a, b), b) == a
  {
  }

  lemma ScaleUndoesDiv(v: Vec, s: real)
    requires s != 0.0
    ensures Scale(Div(v, s), s) == v
  {
  }

  // ---------------------------------------------------------------------
  // Point / direction discipline

  lemma ZeroIsDirection()
    ensures IsDirection(Zero())
    ensures forall v :: Dot(Zero(), v) == 0.0 && Add(Zero(), v) == v
  {
  }

  lemma PointPlusDirection(p: Vec, d: Vec)
    requires IsPoint(p) && IsDirection(d)
    ensures IsPoint(Add(p, d)) && IsPoint(Add(d, p))
  {
  }

  lemma PointMinusPoint(p: Vec, q: Vec)
    requires IsPoint(p) && IsPoint(q)
    ensures IsDirection(Sub(p, q))
  {
  }

  lemma ScaledDirection(d: Vec, s: real)
    requires IsDirection(d)
    ensures IsDirection(Scale(d, s))
  {
  }

  /** Scaling a point by anything but 1 leaves the set of points. */
  lemma ScaledPoint(p: Vec, s: real)
    requires IsPoint(p)
    ensures IsPoint(Scale(p, s)) <==> s == 1.0
  {
  }

  // ---------------------------------------------------------------------
  // Dot product, magnitude, normalisation

  lemma DotIgnoresW(a: Vec, b: Vec, wa: real, wb: real)
    ensures Dot(a.(w := wa), b.(w := wb)) == Dot(a, b)
  {
  }

  lemma DotSymmetric(a: Vec, b: Vec)
    ensures Dot(a, b) == Dot(b, a)
  {
  }

  lemma DotSelfNonNegative(v: Vec)
    ensures Dot(v, v) >= 0.0
  {
    SquareNonNegative(v.x);
    SquareNonNegative(v.y);
    SquareNonNegative(v.z);
    PositiveSum(v.x * v.x, v.y * v.y, v.z * v.z);
  }

  /** dot(v, v) is never negative, so the magnitude is a square root of a
      non-negative number and is itself non-negative. */
  lemma MagNonNegative(v: Vec, sqrt: real -> real)
    requires SqrtNonNegative(sqrt)
    ensures Mag(v, sqrt) >= 0.0
  {
    DotSelfNonNegative(v);
  }

  lemma DotScale(a: Vec, b: Vec, s: real)
    ensures Dot(Scale(a, s), b) == s * Dot(a, b)
    ensures Dot(a, Scale(b, s)) == s * Dot(a, b)
  {
  }

  lemma DotAdd(a: Vec, b: Vec, c: Vec)
    ensures Dot(Add(a, b), c) == Dot(a, c) + Dot(b, c)
  {
  }

  /** With an exact square root, normalising a vector whose x, y, z are not
      all zero yields magnitude 1, and keeps a direction a direction. */
  lemma NormalizeUnit(v: Vec, sqrt: real -> real)
    requires IsSqrt(sqrt)
    requires Dot(v, v) != 0.0
    ensures Mag(Normalize(v, sqrt), sqrt) == 1.0
    ensures IsDirection(v) ==> IsDirection(Normalize(v, sqrt))
  {
    DotSelfNonNegative(v);
    var d := Dot(v, v);
    var m := sqrt(d);
    assert m * m == d && m >= 0.0;
    assert m != 0.0;
    var u := Div(v, m);
    assert Normalize(v, sqrt) == u;
    assert u == Scale(v, 1.0 / m);
    var k := 1.0 / m;
    DotScale(v, v, k);
    DotScale(v, Scale(v, k), k);
    assert Dot(u, u) == k * (k * d);
    assert k * m == 1.0;
    assert k * (k * (m * m)) == (k * m) * (k * m);
    assert Dot(u, u) == 1.0;
    SqrtOfOne(sqrt);
  }

  lemma SqrtOfOne(sqrt: real -> real)
    requires IsSqrt(sqrt)
    ensures sqrt(1.0) == 1.0
  {
    var r := sqrt(1.0);
    assert r >= 0.0 && r * r == 1.0;
    assert (r - 1.0) * (r + 1.0) == r * r - 1.0 == 0.0;
    CancelPositive(r - 1.0, r + 1.0);
  }
}
