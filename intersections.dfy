/** The closest-intersection search. The ray's origin is forced to be a point
    and its direction a direction; every sphere is then visited in order, the
    ray is carried into the sphere's canonical frame (the unit sphere at the
    origin) by the sphere's inverse matrix, the quadratic |O' + t V'|^2 = 1 is
    solved with a tolerance NEAR_ZERO on the discriminant, and the smallest
    positive root over all spheres wins, the earliest sphere on a tie.

    The search is given twice: as the function Search, a left fold of Step over
    the spheres, which the rest of the model reasons about; and as the method
    FindClosestIntersection, the loop of the original, proved to compute the
    same thing. */
module Intersections {

  import opened Wrappers
  import opened Vectors
  import opened Matrices
  import opened Scene
  import opened Reals

  const NEAR_ZERO: real := 0.0000000000003

  /** The largest finite double; the distance used for the placeholder point
      when nothing is hit. */
  const DBL_MAX: real := 179769313486231570814527423731704356798070567525844996598917476803157260780028538760589558632766878171540458953514382464234321326889464182768467546703537516986049910576551282076245490090389328944075868508455133942304583236903222948165808559332123348274797826204144723168738177180919299881250404026184124858368.0

  // ---------------------------------------------------------------------
  // One sphere: the quadratic and the choice of root

  /** A t^2 + 2 B t + C with A = V'.V', B = O'.V', C = O'.O' - 1. */
  datatype Quadratic = Quadratic(a: real, b: real, c: real)

  function Coefficients(oP: Vec, vP: Vec): Quadratic
  {
    Quadratic(Dot(vP, vP), Dot(oP, vP), Dot(oP, oP) - 1.0)
  }

  /** The reduced discriminant B^2 - A C ("prod" in the original). */
  function Discriminant(q: Quadratic): real
  {
    q.b * q.b - q.a * q.c
  }

  function QuadValue(q: Quadratic, t: real): real
  {
    q.a * t * t + 2.0 * q.b * t + q.c
  }

  /** The chosen distance along the ray, and whether the ray started inside
      the sphere (which makes the search reverse normals from then on). */
  datatype Root = Root(th: real, inside: bool)

  /** The two roots -B/A + s/A ("th1") and -B/A - s/A ("th2"), for a square
      root s of the discriminant. */
  function Larger(q: Quadratic, s: real): real
    requires q.a != 0.0
  {
    -q.b / q.a + s / q.a
  }

  function Smaller(q: Quadratic, s: real): real
    requires q.a != 0.0
  {
    -q.b / q.a - s / q.a
  }

  /** The root-selection policy: no root when the discriminant is at or below
      -NEAR_ZERO; the tangent root -B/A when it is within NEAR_ZERO of 0;
      otherwise the smaller root, unless the two roots lie on opposite sides
      of 0, in which case the larger one, flagged as "inside".
      When A = 0 the original computes -0/0 (B is then 0 as well), a NaN that
      fails every later comparison: the sphere yields no root. */
  function SelectRoot(q: Quadratic, sqrt: real -> real): Option<Root>
  {
    var prod := Discriminant(q);
    if !(prod > -NEAR_ZERO) || q.a == 0.0 then None
    else if prod < NEAR_ZERO then Some(Root(-q.b / q.a, false))
    else
      var th1 := Larger(q, sqrt(prod));
      var th2 := Smaller(q, sqrt(prod));
      if (th1 < 0.0 && th2 > 0.0) || (th1 > 0.0 && th2 < 0.0) then Some(Root(Max(th1, th2), true))
      else Some(Root(Min(th1, th2), false))
  }

  /** The root a sphere yields for the ray (o, v). */
  function RootAt(o: Vec, v: Vec, spheres: seq<Sphere>, i: nat, sqrt: real -> real): Option<Root>
    requires i < |spheres|
  {
    SelectRoot(Coefficients(Mult(o, spheres[i].inverse), Mult(v, spheres[i].inverse)), sqrt)
  }

  /** A root that is a candidate: strictly in front of the origin. */
  predicate Forward(r: Option<Root>)
  {
    r.Some? && r.value.th > 0.0
  }

  predicate Inside(r: Option<Root>)
  {
    r.Some? && r.value.inside
  }

  // ---------------------------------------------------------------------
  // The search over all spheres

  /** The loop state of the original: closest distance so far (None for the
      DBL_MAX sentinel), index of the closest sphere, its normal, and the
      reverseNormal flag, which is never reset once set. */
  datatype SearchState = SearchState(closest: Option<real>, sphere: Option<nat>, normal: Vec, reverseNormal: bool)

  function Start(): SearchState
  {
    SearchState(None, None, Zero(), false)
  }

  /** The candidate replaces the best so far: positive, and strictly smaller. */
  predicate Closer(th: real, closest: Option<real>)
  {
    th > 0.0 && (closest.None? || th < closest.value)
  }

  function Oriented(n: Vec, reverse: bool): Vec
  {
    if reverse then Scale(n, -1.0) else n
  }

  /** The world-space normal at distance th: the canonical-frame hit point,
      negated when reverse holds, carried back by the inverse transpose. */
  function NormalAt(o: Vec, v: Vec, sp: Sphere, th: real, reverse: bool): Vec
  {
    var oP := Mult(o, sp.inverse);
    var vP := Mult(v, sp.inverse);
    Mult(Oriented(Add(oP, Scale(vP, th)), reverse), sp.inverseTranspose)
  }

  /** One iteration of the loop, for sphere number i, given the root that
      sphere yields. */
  function Step(st: SearchState, o: Vec, v: Vec, sp: Sphere, root: Option<Root>, i: nat): SearchState
  {
    match root
    case None => st
    case Some(root) =>
      var reverse := st.reverseNormal || root.inside;
      if Closer(root.th, st.closest) then
        SearchState(Some(root.th), Some(i), NormalAt(o, v, sp, root.th, reverse), reverse)
      else
        st.(reverseNormal := reverse)
  }

  /** The root every sphere yields for the ray (o, v), in order. */
  function Roots(o: Vec, v: Vec, spheres: seq<Sphere>, sqrt: real -> real): (rs: seq<Option<Root>>)
    ensures |rs| == |spheres|
    ensures forall i :: 0 <= i < |spheres| ==> rs[i] == RootAt(o, v, spheres, i, sqrt)
  {
    seq(|spheres|, i requires 0 <= i < |spheres| => RootAt(o, v, spheres, i, sqrt))
  }

  /** The state after the first k spheres, rs[i] being the root of sphere i. */
  function Search(o: Vec, v: Vec, spheres: seq<Sphere>, rs: seq<Option<Root>>, k: nat): (st: SearchState)
    requires k <= |spheres| && k <= |rs|
    ensures st.closest.Some? <==> st.sphere.Some?
    ensures st.sphere.Some? ==> st.sphere.value < k
  {
    if k == 0 then Start()
    else Step(Search(o, v, spheres, rs, k - 1), o, v, spheres[k - 1], rs[k - 1], k - 1)
  }

  /** The query of the original: o.w forced to 1, v.w forced to 0, then the
      search; the point is o + v * closest (DBL_MAX when nothing was hit). */
  function ClosestIntersection(o: Vec, v: Vec, spheres: seq<Sphere>, sqrt: real -> real): (r: Intersection)
    ensures IsPoint(r.point)
    ensures r.intersecter == SphereHit <==> r.sphere.Some?
    ensures r.sphere.Some? ==> r.sphere.value < |spheres|
  {
    var o1 := o.(w := 1.0);
    var v1 := v.(w := 0.0);
    var st := Search(o1, v1, spheres, Roots(o1, v1, spheres, sqrt), |spheres|);
    var closest := if st.closest.Some? then st.closest.value else DBL_MAX;
    Intersection(Add(o1, Scale(v1, closest)), st.normal, st.sphere,
                 if st.sphere.Some? then SphereHit else NoHit)
  }

  /** The root computation inside the loop: the discriminant test, then the
      tangent root or the two roots and the choice between them. */
  method SolveQuadratic(q: Quadratic, sqrt: real -> real) returns (found: bool, th: real, inside: bool)
    ensures found <==> SelectRoot(q, sqrt).Some?
    ensures found ==> SelectRoot(q, sqrt) == Some(Root(th, inside))
  {
    var prod := q.b * q.b - q.a * q.c;
    assert prod == Discriminant(q);
    found, th, inside := false, 0.0, false;
    if prod > -NEAR_ZERO && q.a != 0.0 {
      found := true;
      if prod < NEAR_ZERO {
        th := -q.b / q.a;
      } else {
        var th1 := -q.b / q.a + sqrt(prod) / q.a;
        var th2 := -q.b / q.a - sqrt(prod) / q.a;
        assert th1 == Larger(q, sqrt(prod)) && th2 == Smaller(q, sqrt(prod));
        th := Min(th1, th2);
        if (th1 < 0.0 && th2 > 0.0) || (th1 > 0.0 && th2 < 0.0) {
          th := Max(th1, th2);
          inside := true;
        }
      }
    }
  }

  /** The loop of the original, step by step. */
  method FindClosestIntersection(o: Vec, v: Vec, world: World, sqrt: real -> real) returns (r: Intersection)
    ensures r == ClosestIntersection(o, v, world.spheres, sqrt)
  {
    var closest: Option<real> := None;
    var closestObject: Option<nat> := None;
    var origin := o.(w := 1.0);
    var direction := v.(w := 0.0);
    var closestNormal := Zero();
    var reverseNormal := false;
    ghost var rs := Roots(origin, direction, world.spheres, sqrt);

    var i := 0;
    while i < |world.spheres|
      invariant 0 <= i <= |world.spheres|
      invariant SearchState(closest, closestObject, closestNormal, reverseNormal)
             == Search(origin, direction, world.spheres, rs, i)
    {
      ghost var before := SearchState(closest, closestObject, closestNormal, reverseNormal);
      var sp := world.spheres[i];
      var oPrime := Mult(origin, sp.inverse);
      var vPrime := Mult(direction, sp.inverse);
      var q := Coefficients(oPrime, vPrime);
      var found, th, inside := SolveQuadratic(q, sqrt);
      assert rs[i] == SelectRoot(q, sqrt);
      if found {
        if inside {
          reverseNormal := true;
        }
        if (closest.None? || th < closest.value) && th > 0.0 {
          closest := Some(th);
          closestObject := Some(i);
          var transposedNormal := Add(oPrime, Scale(vPrime, th));
          if reverseNormal {
            transposedNormal := Scale(transposedNormal, -1.0);
          }
          closestNormal := Mult(transposedNormal, sp.inverseTranspose);
        }
      }
      i := i + 1;
    }

    var far := if closest.Some? then closest.value else DBL_MAX;
    var closestPoint := Add(origin, Scale(direction, far));
    var tag := NoHit;
    if closestObject.Some? {
      tag := SphereHit;
    }
    r := Intersection(closestPoint, closestNormal, closestObject, tag);
  }

  // ---------------------------------------------------------------------
  // The roots, in the sphere's canonical frame

  lemma SquareOfSum(o: real, v: real, t: real)
    ensures (o + t * v) * (o + t * v) == o * o + 2.0 * (o * v) * t + (v * v) * t * t
  {
  }

  /** Along the ray O' + t V', the squared distance from the centre is
      1 + A t^2 + 2 B t + C: the quadratic says "on the unit sphere". */
  lemma AlongRay(oP: Vec, vP: Vec, t: real)
    ensures Dot(Add(oP, Scale(vP, t)), Add(oP, Scale(vP, t))) == QuadValue(Coefficients(oP, vP), t) + 1.0
  {
    SquareOfSum(oP.x, vP.x, t);
    SquareOfSum(oP.y, vP.y, t);
    SquareOfSum(oP.z, vP.z, t);
    var a, b := Dot(vP, vP), Dot(oP, vP);
    assert a * t * t == (vP.x * vP.x) * t * t + (vP.y * vP.y) * t * t + (vP.z * vP.z) * t * t;
    assert 2.0 * b * t == 2.0 * (oP.x * vP.x) * t + 2.0 * (oP.y * vP.y) * t + 2.0 * (oP.z * vP.z) * t;
  }

  /** A times the quadratic factors through the two roots. */
  lemma Factored(q: Quadratic, s: real, t: real)
    requires s * s == Discriminant(q)
    ensures q.a * QuadValue(q, t) == (q.a * t + q.b - s) * (q.a * t + q.b + s)
  {
    var u := q.a * t + q.b;
    assert (u - s) * (u + s) == u * u - s * s;
    assert u * u == q.a * q.a * t * t + 2.0 * q.a * q.b * t + q.b * q.b;
    assert q.a * QuadValue(q, t) == q.a * q.a * t * t + 2.0 * q.a * q.b * t + q.a * q.c;
  }

  lemma RootsOrdered(q: Quadratic, s: real)
    requires q.a > 0.0 && s >= 0.0
    ensures Smaller(q, s) <= Larger(q, s)
  {
    var t1, t2 := Larger(q, s), Smaller(q, s);
    assert q.a * t1 == -q.b + s;
    assert q.a * t2 == -q.b - s;
    assert (t1 - t2) * q.a == 2.0 * s;
    SignKept(t1 - t2, q.a);
  }

  /** Both candidates solve the quadratic ... */
  lemma RootsSolve(q: Quadratic, s: real)
    requires q.a > 0.0 && s * s == Discriminant(q)
    ensures QuadValue(q, Larger(q, s)) == 0.0
    ensures QuadValue(q, Smaller(q, s)) == 0.0
  {
    var t1, t2 := Larger(q, s), Smaller(q, s);
    assert q.a * t1 == -q.b + s;
    assert q.a * t2 == -q.b - s;
    Factored(q, s, t1);
    Factored(q, s, t2);
    assert q.a * t1 + q.b - s == 0.0;
    assert q.a * t2 + q.b + s == 0.0;
    assert QuadValue(q, t1) * q.a == 0.0;
    assert QuadValue(q, t2) * q.a == 0.0;
    CancelPositive(QuadValue(q, t1), q.a);
    CancelPositive(QuadValue(q, t2), q.a);
  }

  /** ... and nothing else does. */
  lemma OnlyRoots(q: Quadratic, s: real, t: real)
    requires q.a > 0.0 && s * s == Discriminant(q)
    requires QuadValue(q, t) == 0.0
    ensures t == Larger(q, s) || t == Smaller(q, s)
  {
    var t1, t2 := Larger(q, s), Smaller(q, s);
    assert q.a * t1 == -q.b + s;
    assert q.a * t2 == -q.b - s;
    Factored(q, s, t);
    ZeroProduct(q.a * t + q.b - s, q.a * t + q.b + s);
    if q.a * t + q.b - s == 0.0 {
      assert (t - t1) * q.a == 0.0;
      CancelPositive(t - t1, q.a);
    } else {
      assert (t - t2) * q.a == 0.0;
      CancelPositive(t - t2, q.a);
    }
  }

  /** The roots lie on opposite sides of 0 exactly when C < 0, that is when
      the ray starts strictly inside the unit sphere. */
  lemma StraddleIffInside(q: Quadratic, s: real)
    requires q.a > 0.0 && s >= 0.0 && s * s == Discriminant(q)
    ensures (Smaller(q, s) < 0.0 < Larger(q, s)) <==> q.c < 0.0
  {
    var t1, t2 := Larger(q, s), Smaller(q, s);
    RootsOrdered(q, s);
    assert q.a * t1 == -q.b + s;
    assert q.a * t2 == -q.b - s;
    assert (q.a * t1) * (q.a * t2) == q.b * q.b - s * s;
    assert ((t1 * t2) * q.a - q.c) * q.a == 0.0;
    CancelPositive((t1 * t2) * q.a - q.c, q.a);
    SignKept(t1 * t2, q.a);
    if t2 < 0.0 < t1 {
      SignKept(-t2, t1);
      assert (-t2) * t1 == -(t1 * t2);
    } else if t2 >= 0.0 {
      if t1 > 0.0 {
        SignKept(t2, t1);
      } else {
        assert t1 == 0.0;
      }
    } else {
      SignKept(t1, -t2);
      assert t1 * (-t2) == -(t1 * t2);
    }
  }

  /** The point at distance t along the ray in the canonical frame lies on
      the unit sphere. */
  predicate OnUnitSphere(oP: Vec, vP: Vec, t: real)
  {
    Dot(Add(oP, Scale(vP, t)), Add(oP, Scale(vP, t))) == 1.0
  }

  /** At the tangent root -B/A the quadratic equals -prod/A; when prod is
      within NEAR_ZERO of 0, the value is within NEAR_ZERO/A of 0. */
  lemma TangentValue(q: Quadratic)
    requires q.a > 0.0
    ensures QuadValue(q, -q.b / q.a) == -(Discriminant(q) / q.a)
    ensures -NEAR_ZERO < Discriminant(q) < NEAR_ZERO ==>
              -NEAR_ZERO / q.a < QuadValue(q, -q.b / q.a) < NEAR_ZERO / q.a
  {
    var t := -q.b / q.a;
    assert q.a * t == -q.b;
    assert q.a * t * t == -q.b * t;
    assert QuadValue(q, t) * q.a == -Discriminant(q);
    assert (Discriminant(q) / q.a) * q.a == Discriminant(q);
    assert (QuadValue(q, t) + Discriminant(q) / q.a) * q.a == 0.0;
    CancelPositive(QuadValue(q, t) + Discriminant(q) / q.a, q.a);
    if -NEAR_ZERO < Discriminant(q) < NEAR_ZERO {
      DivMonotone(-NEAR_ZERO, Discriminant(q), q.a);
      DivMonotone(Discriminant(q), NEAR_ZERO, q.a);
      assert -NEAR_ZERO / q.a == -(NEAR_ZERO / q.a);
    }
  }

  /** The tangent branch never raises the "inside" flag: a discriminant
      strictly within NEAR_ZERO of 0 gives -B/A unflagged, whether or not the
      origin is inside the sphere (C < 0). */
  lemma TangentNeverFlags(q: Quadratic, sqrt: real -> real)
    requires q.a > 0.0 && -NEAR_ZERO < Discriminant(q) < NEAR_ZERO
    ensures SelectRoot(q, sqrt) == Some(Root(-q.b / q.a, false))
  {
  }

  /** In the canonical frame the selected distance lands on the unit sphere
      when two roots were found, and within NEAR_ZERO / A of it (squared
      distance 1 - prod / A) when the tangent root was taken. */
  lemma SelectedRootOnSphere(oP: Vec, vP: Vec, sqrt: real -> real)
    requires IsSqrt(sqrt)
    requires SelectRoot(Coefficients(oP, vP), sqrt).Some?
    ensures var q := Coefficients(oP, vP);
            var th := SelectRoot(q, sqrt).value.th;
            var p := Add(oP, Scale(vP, th));
            q.a > 0.0 &&
            (Discriminant(q) >= NEAR_ZERO ==> Dot(p, p) == 1.0) &&
            (Discriminant(q) < NEAR_ZERO ==> Dot(p, p) == 1.0 - Discriminant(q) / q.a)
  {
    var q := Coefficients(oP, vP);
    var th := SelectRoot(q, sqrt).value.th;
    DotSelfNonNegative(vP);
    assert q.a != 0.0;
    AlongRay(oP, vP, th);
    if Discriminant(q) >= NEAR_ZERO {
      var s := sqrt(Discriminant(q));
      assert s * s == Discriminant(q);
      RootsSolve(q, s);
      assert th == Larger(q, s) || th == Smaller(q, s);
      assert QuadValue(q, th) == 0.0;
    } else {
      assert th == -q.b / q.a;
      TangentValue(q);
    }
  }

  /** With two roots, the selected distance is the nearest point of the unit
      sphere strictly ahead of the origin; if it is not ahead, no point of the
      sphere is, except when the origin lies on the sphere itself (th = 0).
      The "inside" flag is raised exactly when the origin is strictly inside
      the unit sphere. */
  lemma {:induction false} NearestForwardRoot(oP: Vec, vP: Vec, sqrt: real -> real)
    requires IsSqrt(sqrt)
    requires Dot(vP, vP) != 0.0
    requires Discriminant(Coefficients(oP, vP)) >= NEAR_ZERO
    ensures SelectRoot(Coefficients(oP, vP), sqrt).Some?
    ensures OnUnitSphere(oP, vP, SelectRoot(Coefficients(oP, vP), sqrt).value.th)
    ensures Forward(SelectRoot(Coefficients(oP, vP), sqrt)) ==>
              forall t :: t > 0.0 && OnUnitSphere(oP, vP, t) ==> SelectRoot(Coefficients(oP, vP), sqrt).value.th <= t
    ensures !Forward(SelectRoot(Coefficients(oP, vP), sqrt)) ==>
              forall t :: t > 0.0 && OnUnitSphere(oP, vP, t) ==> SelectRoot(Coefficients(oP, vP), sqrt).value.th == 0.0
    ensures SelectRoot(Coefficients(oP, vP), sqrt).value.inside <==> Dot(oP, oP) < 1.0
  {
    var q := Coefficients(oP, vP);
    var s := sqrt(Discriminant(q));
    DotSelfNonNegative(vP);
    assert s >= 0.0 && s * s == Discriminant(q);
    RootsOrdered(q, s);
    RootsSolve(q, s);
    StraddleIffInside(q, s);
    var th := SelectRoot(q, sqrt).value.th;
    AlongRay(oP, vP, th);
    forall t | t > 0.0 && OnUnitSphere(oP, vP, t)
      ensures Forward(SelectRoot(q, sqrt)) ==> th <= t
      ensures !Forward(SelectRoot(q, sqrt)) ==> th == 0.0
    {
      AlongRay(oP, vP, t);
      OnlyRoots(q, s, t);
    }
  }

  // ---------------------------------------------------------------------
  // What the search computes

  /** After k spheres, (closest, sphere) is the nearest root ahead: no
      sphere found means none of the first k roots is ahead; a sphere j found
      means rs[j] is ahead, is the distance kept, is no larger than any root
      ahead, and is strictly smaller than those of the spheres before j. */
  ghost predicate IsNearest(rs: seq<Option<Root>>, k: nat, closest: Option<real>, sphere: Option<nat>)
    requires k <= |rs|
  {
    (sphere.None? ==> closest.None? && forall i :: 0 <= i < k ==> !Forward(rs[i])) &&
    (sphere.Some? ==>
      sphere.value < k && Forward(rs[sphere.value]) && closest == Some(rs[sphere.value].value.th) &&
      (forall i :: 0 <= i < k && Forward(rs[i]) ==> closest.value <= rs[i].value.th) &&
      (forall i :: 0 <= i < sphere.value && Forward(rs[i]) ==> closest.value < rs[i].value.th))
  }

  lemma {:induction false} SearchFindsNearest(o: Vec, v: Vec, spheres: seq<Sphere>, rs: seq<Option<Root>>, k: nat)
    requires k <= |spheres| && k <= |rs|
    ensures var st := Search(o, v, spheres, rs, k);
            IsNearest(rs, k, st.closest, st.sphere)
  {
    SearchKeepsBest(o, v, spheres, rs, k);
    BestIsNearest(rs, k);
  }

  /** The distance and index the search keeps, computed from the roots alone. */
  function Best(rs: seq<Option<Root>>, k: nat): (Option<real>, Option<nat>)
    requires k <= |rs|
  {
    if k == 0 then (None, None)
    else
      var prev := Best(rs, k - 1);
      var r := rs[k - 1];
      if r.Some? && Closer(r.value.th, prev.0) then (Some(r.value.th), Some(k - 1)) else prev
  }

  lemma {:induction false} SearchKeepsBest(o: Vec, v: Vec, spheres: seq<Sphere>, rs: seq<Option<Root>>, k: nat)
    requires k <= |spheres| && k <= |rs|
    ensures Best(rs, k) == (Search(o, v, spheres, rs, k).closest, Search(o, v, spheres, rs, k).sphere)
  {
    if k > 0 {
      SearchKeepsBest(o, v, spheres, rs, k - 1);
    }
  }

  lemma {:induction false} BestIsNearest(rs: seq<Option<Root>>, k: nat)
    requires k <= |rs|
    ensures IsNearest(rs, k, Best(rs, k).0, Best(rs, k).1)
  {
    if k > 0 {
      BestIsNearest(rs, k - 1);
    }
  }

  /** reverseNormal after k spheres holds exactly when one of them was
      entered from inside: it is never reset. */
  lemma {:induction false} SearchReverseNormal(o: Vec, v: Vec, spheres: seq<Sphere>, rs: seq<Option<Root>>, k: nat)
    requires k <= |spheres| && k <= |rs|
    ensures Search(o, v, spheres, rs, k).reverseNormal <==> exists i :: 0 <= i < k && Inside(rs[i])
  {
    if k > 0 {
      SearchReverseNormal(o, v, spheres, rs, k - 1);
    }
  }

  lemma ReverseNormalSticky(o: Vec, v: Vec, spheres: seq<Sphere>, rs: seq<Option<Root>>, k1: nat, k2: nat)
    requires k1 <= k2 <= |spheres| && k2 <= |rs|
    requires Search(o, v, spheres, rs, k1).reverseNormal
    ensures Search(o, v, spheres, rs, k2).reverseNormal
  {
    SearchReverseNormal(o, v, spheres, rs, k1);
    SearchReverseNormal(o, v, spheres, rs, k2);
  }

  /** The normal kept is the one computed for the winning sphere j, oriented
      by the flag as it stood after sphere j -- so a sphere before j that was
      entered from inside reverses j's normal too. */
  lemma {:induction false} SearchNormal(o: Vec, v: Vec, spheres: seq<Sphere>, rs: seq<Option<Root>>, k: nat)
    requires k <= |spheres| && k <= |rs|
    ensures var st := Search(o, v, spheres, rs, k);
            st.sphere.Some? ==>
              st.normal == NormalAt(o, v, spheres[st.sphere.value], st.closest.value,
                                    Search(o, v, spheres, rs, st.sphere.value + 1).reverseNormal)
  {
    if k > 0 {
      SearchNormal(o, v, spheres, rs, k - 1);
      StepKeepsOrTakes(Search(o, v, spheres, rs, k - 1), o, v, spheres[k - 1], rs[k - 1], k - 1);
    }
  }

  /** One step either takes sphere i, with its normal oriented by the new
      flag, or leaves the distance, index and normal as they were. */
  lemma StepKeepsOrTakes(st: SearchState, o: Vec, v: Vec, sp: Sphere, root: Option<Root>, i: nat)
    ensures var n := Step(st, o, v, sp, root, i);
            (n.sphere == Some(i) && n.closest.Some? && n.normal == NormalAt(o, v, sp, n.closest.value, n.reverseNormal)) ||
            (n.sphere == st.sphere && n.closest == st.closest && n.normal == st.normal)
  {
  }

  // ---------------------------------------------------------------------
  // What a query returns

  /** The query reports a sphere exactly when some sphere has a root strictly
      ahead of the origin (with o.w forced to 1 and v.w to 0). */
  lemma ClosestIntersectionHitIff(o: Vec, v: Vec, spheres: seq<Sphere>, sqrt: real -> real)
    ensures ClosestIntersection(o, v, spheres, sqrt).intersecter == SphereHit
        <==> exists i :: 0 <= i < |spheres| && Forward(RootAt(o.(w := 1.0), v.(w := 0.0), spheres, i, sqrt))
  {
    var o1, v1 := o.(w := 1.0), v.(w := 0.0);
    SearchFindsNearest(o1, v1, spheres, Roots(o1, v1, spheres, sqrt), |spheres|);
  }

  /** On a hit at sphere j with distance th: th is positive, no sphere has a
      nearer root ahead, the spheres before j have strictly farther ones (ties
      go to the earliest sphere), and the point is o + v th. */
  lemma ClosestIntersectionNearest(o: Vec, v: Vec, spheres: seq<Sphere>, sqrt: real -> real)
    requires ClosestIntersection(o, v, spheres, sqrt).intersecter == SphereHit
    ensures Forward(RootAt(o.(w := 1.0), v.(w := 0.0), spheres, ClosestIntersection(o, v, spheres, sqrt).sphere.value, sqrt))
    ensures var r := ClosestIntersection(o, v, spheres, sqrt);
            var o1, v1 := o.(w := 1.0), v.(w := 0.0);
            var j := r.sphere.value;
            var th := RootAt(o1, v1, spheres, j, sqrt).value.th;
            (forall i :: 0 <= i < |spheres| && Forward(RootAt(o1, v1, spheres, i, sqrt)) ==>
               th <= RootAt(o1, v1, spheres, i, sqrt).value.th) &&
            (forall i :: 0 <= i < j && Forward(RootAt(o1, v1, spheres, i, sqrt)) ==>
               th < RootAt(o1, v1, spheres, i, sqrt).value.th) &&
            r.point == Add(o1, Scale(v1, th))
  {
    var o1, v1 := o.(w := 1.0), v.(w := 0.0);
    SearchFindsNearest(o1, v1, spheres, Roots(o1, v1, spheres, sqrt), |spheres|);
  }

  /** The hit point, carried into the hit sphere's canonical frame, is
      O' + V' th: the point where the root was found. */
  lemma HitInCanonicalFrame(o: Vec, v: Vec, spheres: seq<Sphere>, sqrt: real -> real)
    requires ClosestIntersection(o, v, spheres, sqrt).intersecter == SphereHit
    ensures Forward(RootAt(o.(w := 1.0), v.(w := 0.0), spheres, ClosestIntersection(o, v, spheres, sqrt).sphere.value, sqrt))
    ensures var r := ClosestIntersection(o, v, spheres, sqrt);
            var o1, v1 := o.(w := 1.0), v.(w := 0.0);
            var inv := spheres[r.sphere.value].inverse;
            var th := RootAt(o1, v1, spheres, r.sphere.value, sqrt).value.th;
            Mult(r.point, inv) == Add(Mult(o1, inv), Scale(Mult(v1, inv), th))
  {
    ClosestIntersectionNearest(o, v, spheres, sqrt);
    var r := ClosestIntersection(o, v, spheres, sqrt);
    var o1, v1 := o.(w := 1.0), v.(w := 0.0);
    var inv := spheres[r.sphere.value].inverse;
    var th := RootAt(o1, v1, spheres, r.sphere.value, sqrt).value.th;
    MultAdditive(o1, Scale(v1, th), inv);
    MultHomogeneous(v1, th, inv);
  }

  /** The normal on a hit is sphere j's, reversed exactly when sphere j or
      one before it was entered from inside. */
  lemma HitNormal(o: Vec, v: Vec, spheres: seq<Sphere>, sqrt: real -> real)
    requires ClosestIntersection(o, v, spheres, sqrt).intersecter == SphereHit
    ensures Forward(RootAt(o.(w := 1.0), v.(w := 0.0), spheres, ClosestIntersection(o, v, spheres, sqrt).sphere.value, sqrt))
    ensures var r := ClosestIntersection(o, v, spheres, sqrt);
            var o1, v1 := o.(w := 1.0), v.(w := 0.0);
            var j := r.sphere.value;
            r.normal == NormalAt(o1, v1, spheres[j], RootAt(o1, v1, spheres, j, sqrt).value.th,
                                 exists i :: 0 <= i <= j && Inside(RootAt(o1, v1, spheres, i, sqrt)))
  {
    var o1, v1 := o.(w := 1.0), v.(w := 0.0);
    var rs := Roots(o1, v1, spheres, sqrt);
    var n := |spheres|;
    SearchFindsNearest(o1, v1, spheres, rs, n);
    SearchNormal(o1, v1, spheres, rs, n);
    SearchReverseNormal(o1, v1, spheres, rs, Search(o1, v1, spheres, rs, n).sphere.value + 1);
  }

  /** The flag is never reset: once a sphere before the winner was entered
      from inside, the winner's normal is reversed even if the ray meets the
      winner from outside. */
  lemma ReverseNormalLeaks(o: Vec, v: Vec, spheres: seq<Sphere>, sqrt: real -> real, i: nat)
    requires ClosestIntersection(o, v, spheres, sqrt).intersecter == SphereHit
    requires i <= ClosestIntersection(o, v, spheres, sqrt).sphere.value
    requires Inside(RootAt(o.(w := 1.0), v.(w := 0.0), spheres, i, sqrt))
    ensures Forward(RootAt(o.(w := 1.0), v.(w := 0.0), spheres, ClosestIntersection(o, v, spheres, sqrt).sphere.value, sqrt))
    ensures var r := ClosestIntersection(o, v, spheres, sqrt);
            var j := r.sphere.value;
            r.normal == NormalAt(o.(w := 1.0), v.(w := 0.0), spheres[j],
                                 RootAt(o.(w := 1.0), v.(w := 0.0), spheres, j, sqrt).value.th, true)
  {
    HitNormal(o, v, spheres, sqrt);
  }

  /** With no spheres nothing is hit, and the placeholder point lies DBL_MAX
      along the ray. */
  lemma EmptyWorldMisses(o: Vec, v: Vec, spheres: seq<Sphere>, sqrt: real -> real)
    requires spheres == []
    ensures ClosestIntersection(o, v, spheres, sqrt).intersecter == NoHit
    ensures ClosestIntersection(o, v, spheres, sqrt).point == Add(o.(w := 1.0), Scale(v.(w := 0.0), DBL_MAX))
  {
  }
}
