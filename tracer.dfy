/** The recursive tracer: local shading (ambient, plus the diffuse term of one
    light when it is not shadowed) and one mirror reflection per level, down to
    a depth budget, with the result clamped and tagged.

    Only light number 2 of the world is ever read: the light loop of the
    original runs exactly once, for that index. The specular term is computed
    there but never added, so it and the vectors only it uses are not part of
    this model. */
module Tracer {

  import opened Vectors
  import opened Matrices
  import opened Scene
  import opened Intersections
  import opened Reals
  import Colors

  const TINY_STEP: real := 0.1

  /** Opaque black: what an exhausted depth budget yields. */
  function Black(): Colors.Color
  {
    Colors.Color(0.0, 0.0, 0.0, 1.0)
  }

  /** The shadow test: a ray from just off p towards the light hits nothing,
      or hits something farther than the light (with TINY_STEP of slack). */
  predicate Lit(p: Vec, lightPoint: Vec, L: Vec, world: World, sqrt: real -> real)
  {
    var shadow := ClosestIntersection(Add(p, Scale(L, TINY_STEP)), L, world.spheres, sqrt);
    shadow.intersecter == NoHit || Mag(Sub(shadow.point, p), sqrt) > Mag(Sub(lightPoint, p), sqrt) + TINY_STEP
  }

  /** The diffuse term of light l at point p with unit normal N. */
  function Diffuse(l: Light, p: Vec, N: Vec, sphereColor: Colors.Color, kd: real, sqrt: real -> real): Colors.Color
  {
    var L := Normalize(Sub(Vec(l.x, l.y, l.z, 1.0), p), sqrt);
    var lightColor := Colors.Color(l.r, l.g, l.b, 1.0);
    Colors.Scale(Colors.Scale(Colors.Mul(lightColor, sphereColor), Max(Dot(L, N), 0.0)), kd)
  }

  /** One pass of the light loop: adds the diffuse term when l is not shadowed. */
  function ShadeLight(localColor: Colors.Color, l: Light, p: Vec, N: Vec, sphereColor: Colors.Color, kd: real,
                      world: World, sqrt: real -> real): Colors.Color
  {
    var lightPoint := Vec(l.x, l.y, l.z, 1.0);
    var L := Normalize(Sub(lightPoint, p), sqrt);
    if Lit(p, lightPoint, L, world, sqrt) then Colors.Add(localColor, Diffuse(l, p, N, sphereColor, kd, sqrt))
    else localColor
  }

  /** The ambient term as written: the ambient colour (alpha 1) scaled by Ka,
      times the surface colour, scaled by Ka again. */
  function Ambient(s: Sphere, ambient: Colors.Color): Colors.Color
  {
    var sphereColor := Colors.Color(s.r, s.g, s.b, 1.0);
    Colors.Scale(Colors.Mul(sphereColor, Colors.Scale(Colors.Color(ambient.r, ambient.g, ambient.b, 1.0), s.ka)), s.ka)
  }

  /** The colour of the hit surface before reflection: the ambient term and
      the contribution of light 2. */
  function LocalColor(hit: Intersection, world: World, sqrt: real -> real): Colors.Color
    requires hit.sphere.Some? && hit.sphere.value < |world.spheres|
    requires |world.lights| >= 3
  {
    var s := world.spheres[hit.sphere.value];
    var N := Normalize(hit.normal, sqrt);
    ShadeLight(Ambient(s, world.ambient), world.lights[2], hit.point, N, Colors.Color(s.r, s.g, s.b, 1.0), s.kd, world, sqrt)
  }

  /** The mirror direction of v about the unit normal N. */
  function Reflect(N: Vec, v: Vec): Vec
  {
    Add(Scale(Scale(N, -2.0), Dot(N, v)), v)
  }

  /** The result on a hit: the local colour plus the reflected colour scaled
      by Kr, clamped. A reflected ray that hit nothing contributes nothing,
      whatever colour it carries. */
  function Combine(localColor: Colors.Color, reflected: RaytraceResult, kr: real): (r: RaytraceResult)
    ensures r.intersecter == SphereHit && Colors.AtMostOne(r.color)
    ensures reflected.intersecter == NoHit ==> r.color == Colors.Clamp(localColor)
  {
    var reflectedColor := if reflected.intersecter != NoHit then reflected.color else Colors.Color(0.0, 0.0, 0.0, 0.0);
    RaytraceResult(Colors.Clamp(Colors.Add(localColor, Colors.Scale(reflectedColor, kr))), SphereHit)
  }

  /** Traces the ray from o along v with the given depth budget. Light 2 is
      read only when something is hit, so only then must it exist. */
  function Raytrace(depth: int, o: Vec, v: Vec, world: World, sqrt: real -> real): (r: RaytraceResult)
    requires depth <= 0 || ClosestIntersection(o, v, world.spheres, sqrt).intersecter == NoHit || |world.lights| >= 3
    ensures depth <= 0 ==> r == RaytraceResult(Black(), NoHit)
    ensures depth > 0 ==> (r.intersecter == SphereHit <==> ClosestIntersection(o, v, world.spheres, sqrt).intersecter == SphereHit)
    ensures depth > 0 && r.intersecter == NoHit ==> r.color == Colors.Default()
    ensures r.intersecter == SphereHit ==> Colors.AtMostOne(r.color)
    decreases depth
  {
    if depth <= 0 then RaytraceResult(Black(), NoHit)
    else
      var hit := ClosestIntersection(o, v, world.spheres, sqrt);
      if hit.intersecter == SphereHit then
        var reflectedDirection := Reflect(Normalize(hit.normal, sqrt), v);
        var reflected := Raytrace(depth - 1, Add(hit.point, Scale(reflectedDirection, TINY_STEP)), reflectedDirection, world, sqrt);
        Combine(LocalColor(hit, world, sqrt), reflected, world.spheres[hit.sphere.value].kr)
      else
        RaytraceResult(Colors.Default(), NoHit)
  }

  // ---------------------------------------------------------------------
  // Lemmas

  /** The mirror direction about a unit normal keeps the length of v and
      flips the sign of its component along the normal. */
  lemma ReflectIsMirror(N: Vec, v: Vec)
    requires Dot(N, N) == 1.0
    ensures Dot(Reflect(N, v), N) == -Dot(v, N)
    ensures Dot(Reflect(N, v), Reflect(N, v)) == Dot(v, v)
  {
    var d := Dot(N, v);
    var u := Scale(Scale(N, -2.0), d);
    var R := Reflect(N, v);
    DotAdd(u, v, N);
    AlongNormal(N, d, N);
    DotSymmetric(N, v);
    var e := Dot(R, N);
    assert e == -d;
    DotAdd(u, v, R);
    AlongNormal(N, d, R);
    DotSymmetric(N, R);
    DotSymmetric(v, R);
    DotAdd(u, v, v);
    AlongNormal(N, d, v);
    assert Dot(R, R) == -2.0 * d * e + (-2.0 * d * d + Dot(v, v));
  }

  lemma AlongNormal(N: Vec, d: real, X: Vec)
    ensures Dot(Scale(Scale(N, -2.0), d), X) == -2.0 * d * Dot(N, X)
  {
    DotScale(Scale(N, -2.0), X, d);
    DotScale(N, X, -2.0);
  }

  /** A shadowed light adds nothing. */
  lemma ShadowAddsNothing(localColor: Colors.Color, l: Light, p: Vec, N: Vec, sphereColor: Colors.Color, kd: real,
                          world: World, sqrt: real -> real)
    requires !Lit(p, Vec(l.x, l.y, l.z, 1.0), Normalize(Sub(Vec(l.x, l.y, l.z, 1.0), p), sqrt), world, sqrt)
    ensures ShadeLight(localColor, l, p, N, sphereColor, kd, world, sqrt) == localColor
  {
  }

  /** With non-negative light, surface colour and Kd, the diffuse term is
      non-negative in every channel: N.L is cut off at 0. */
  lemma DiffuseNonNegative(l: Light, p: Vec, N: Vec, sphereColor: Colors.Color, kd: real, sqrt: real -> real)
    requires l.r >= 0.0 && l.g >= 0.0 && l.b >= 0.0
    requires sphereColor.r >= 0.0 && sphereColor.g >= 0.0 && sphereColor.b >= 0.0
    requires kd >= 0.0
    ensures var d := Diffuse(l, p, N, sphereColor, kd, sqrt);
            d.r >= 0.0 && d.g >= 0.0 && d.b >= 0.0
  {
    var L := Normalize(Sub(Vec(l.x, l.y, l.z, 1.0), p), sqrt);
    var f := Max(Dot(L, N), 0.0);
    var m := Colors.Mul(Colors.Color(l.r, l.g, l.b, 1.0), sphereColor);
    MulNonNegative(l.r, sphereColor.r);
    MulNonNegative(l.g, sphereColor.g);
    MulNonNegative(l.b, sphereColor.b);
    MulNonNegative(f, m.r);
    MulNonNegative(f, m.g);
    MulNonNegative(f, m.b);
    MulNonNegative(kd, f * m.r);
    MulNonNegative(kd, f * m.g);
    MulNonNegative(kd, f * m.b);
  }

  /** Hence a light never darkens any channel, shadowed or not. */
  lemma LightNeverDarkens(localColor: Colors.Color, l: Light, p: Vec, N: Vec, sphereColor: Colors.Color, kd: real,
                          world: World, sqrt: real -> real)
    requires l.r >= 0.0 && l.g >= 0.0 && l.b >= 0.0
    requires sphereColor.r >= 0.0 && sphereColor.g >= 0.0 && sphereColor.b >= 0.0
    requires kd >= 0.0
    ensures var c := ShadeLight(localColor, l, p, N, sphereColor, kd, world, sqrt);
            c.r >= localColor.r && c.g >= localColor.g && c.b >= localColor.b
  {
    DiffuseNonNegative(l, p, N, sphereColor, kd, sqrt);
  }

  /** Ka enters the ambient term squared. */
  lemma AmbientKaSquared(s: Sphere, ambient: Colors.Color)
    ensures var c := Ambient(s, ambient);
            c.r == s.ka * s.ka * ambient.r * s.r &&
            c.g == s.ka * s.ka * ambient.g * s.g &&
            c.b == s.ka * s.ka * ambient.b * s.b &&
            c.a == s.ka * s.ka
  {
    assert s.ka * (s.r * (s.ka * ambient.r)) == s.ka * s.ka * ambient.r * s.r;
    assert s.ka * (s.g * (s.ka * ambient.g)) == s.ka * s.ka * ambient.g * s.g;
    assert s.ka * (s.b * (s.ka * ambient.b)) == s.ka * s.ka * ambient.b * s.b;
    assert s.ka * (1.0 * (s.ka * 1.0)) == s.ka * s.ka;
  }

  /** When light 2 is shadowed, the local colour is the ambient term alone. */
  lemma ShadowedIsAmbientOnly(hit: Intersection, world: World, sqrt: real -> real)
    requires hit.sphere.Some? && hit.sphere.value < |world.spheres|
    requires |world.lights| >= 3
    requires var l := world.lights[2];
             var lightPoint := Vec(l.x, l.y, l.z, 1.0);
             !Lit(hit.point, lightPoint, Normalize(Sub(lightPoint, hit.point), sqrt), world, sqrt)
    ensures LocalColor(hit, world, sqrt) == Ambient(world.spheres[hit.sphere.value], world.ambient)
  {
  }

  /** With one level of budget the reflection ray is not traced (its result
      is tagged as a miss), so the result is the clamped local colour. */
  lemma OneLevelIsLocal(o: Vec, v: Vec, world: World, sqrt: real -> real)
    requires ClosestIntersection(o, v, world.spheres, sqrt).intersecter == SphereHit
    requires |world.lights| >= 3
    ensures var hit := ClosestIntersection(o, v, world.spheres, sqrt);
            Raytrace(1, o, v, world, sqrt) == RaytraceResult(Colors.Clamp(LocalColor(hit, world, sqrt)), SphereHit)
  {
  }

  /** Spheres with Ka, Kd and Kr all zero render as transparent black
      wherever they are hit, at any depth. */
  lemma DarkSpheresRenderBlack(depth: int, o: Vec, v: Vec, world: World, sqrt: real -> real)
    requires depth > 0
    requires forall s :: s in world.spheres ==> s.ka == 0.0 && s.kd == 0.0 && s.kr == 0.0
    requires ClosestIntersection(o, v, world.spheres, sqrt).intersecter == SphereHit
    requires |world.lights| >= 3
    ensures Raytrace(depth, o, v, world, sqrt) == RaytraceResult(Colors.Color(0.0, 0.0, 0.0, 0.0), SphereHit)
  {
    var hit := ClosestIntersection(o, v, world.spheres, sqrt);
    ClosestIntersectionHitIff(o, v, world.spheres, sqrt);
    var s := world.spheres[hit.sphere.value];
    assert s in world.spheres;
  }

  /** Light number 2 is the only light read: two worlds with the same
      spheres, the same ambient colour and the same third light shade every
      hit alike, whatever their other lights. Raytrace reads the lights only
      through LocalColor. */
  lemma OnlyThirdLightMatters(hit: Intersection, w1: World, w2: World, sqrt: real -> real)
    requires w1.spheres == w2.spheres && w1.ambient == w2.ambient
    requires |w1.lights| >= 3 && |w2.lights| >= 3 && w1.lights[2] == w2.lights[2]
    requires hit.sphere.Some? && hit.sphere.value < |w1.spheres|
    ensures LocalColor(hit, w1, sqrt) == LocalColor(hit, w2, sqrt)
  {
  }

  /** One level of Raytrace on a hit: the local colour combined with the
      trace of the reflected ray rd, one level shallower. */
  lemma RaytraceOnHit(depth: int, o: Vec, v: Vec, w: World, sqrt: real -> real, hit: Intersection, rd: Vec)
    requires depth > 0 && |w.lights| >= 3
    requires hit == ClosestIntersection(o, v, w.spheres, sqrt) && hit.intersecter == SphereHit
    requires rd == Reflect(Normalize(hit.normal, sqrt), v)
    ensures hit.sphere.Some? && hit.sphere.value < |w.spheres|
    ensures Raytrace(depth, o, v, w, sqrt)
              == Combine(LocalColor(hit, w, sqrt), Raytrace(depth - 1, Add(hit.point, Scale(rd, TINY_STEP)), rd, w, sqrt),
                         w.spheres[hit.sphere.value].kr)
  {
  }

  /** Hence whole traces agree too: two such worlds give the same result for
      every ray and depth, reflections included. */
  lemma {:induction false} RaytraceOnlyThirdLight(depth: int, o: Vec, v: Vec, w1: World, w2: World, sqrt: real -> real)
    requires w1.spheres == w2.spheres && w1.ambient == w2.ambient
    requires |w1.lights| >= 3 && |w2.lights| >= 3 && w1.lights[2] == w2.lights[2]
    ensures Raytrace(depth, o, v, w1, sqrt) == Raytrace(depth, o, v, w2, sqrt)
    decreases depth
  {
    if depth > 0 {
      var hit := ClosestIntersection(o, v, w1.spheres, sqrt);
      if hit.intersecter == SphereHit {
        var rd := Reflect(Normalize(hit.normal, sqrt), v);
        RaytraceOnHit(depth, o, v, w1, sqrt, hit, rd);
        RaytraceOnHit(depth, o, v, w2, sqrt, hit, rd);
        OnlyThirdLightMatters(hit, w1, w2, sqrt);
        RaytraceOnlyThirdLight(depth - 1, Add(hit.point, Scale(rd, TINY_STEP)), rd, w1, w2, sqrt);
      }
    }
  }
}
