# Ray tracer core, modelled in Dafny

This project models the geometric and shading engine of a small C++ ray
tracer. The engine renders spheres, each placed by a 4x4 transform, lit by
point lights, with ambient and diffuse shading and mirror reflection up to a
depth bound. The model covers:

- `Vec`: a homogeneous (x, y, z, w) vector with component-wise `+` and `-`,
  and scalar `*` and `/`. Points have w = 1 and directions have w = 0.
  `dot`, `mag` and `normalize` are included.
- `Color`: (r, g, b, a) with component-wise `+` and `*`, scalar `*`, a
  divide by an integer that resets alpha, the "brighter than" comparison, and
  the upper-only `clamp`.
- `mult` and `transpose`: the full 4x4 matrix-vector product, w row and column
  included, and the transpose written into an output array.
- `closest_intersection`:
  - the ray is carried into each sphere's canonical frame (the unit sphere at
    the origin);
  - each sphere gets its quadratic and its choice of root;
  - the search keeps the nearest root strictly ahead of the origin;
  - the `reverseNormal` flag is never reset.
- `raytrace`: the depth-bounded recursion. It computes the ambient term, the
  diffuse term of light number 2 with a shadow ray, and a mirror reflection.
  It clamps the result and tags it NONE or SPHERE.

Numbers are Dafny `real`, an idealisation of the C++ `float` and `double`.
The square root is not definable over Dafny's reals, so every operation that
needs one takes it as a parameter `sqrt: real -> real`. Lemmas that depend on
its meaning require `SqrtNonNegative(sqrt)` or `IsSqrt(sqrt)`.

Files, one module each:

- `reals.dfy`: sign facts about products.
- `wrappers.dfy`: `Option`.
- `vectors.dfy`: `Vec.h` plus `dot`, `mag` and `normalize`.
- `colors.dfy`: `Color.h` plus `clamp`.
- `matrices.dfy`: `mult` and `transpose`.
- `scene.dfy`: the records `Sphere`, `Light`, `World`, `Intersection` and
  `RaytraceResult`.
- `intersections.dfy`: `closest_intersection`.
- `tracer.dfy`: `raytrace`.

Modelling choices:

- **Search.** `closest_intersection` appears twice. `Search` is a left fold
  of one loop step over the roots the spheres yield, and the lemmas reason
  about it. `FindClosestIntersection` is the loop itself, with its local
  variables, and is proved to return exactly `ClosestIntersection`.
- **DBL_MAX.** The `DBL_MAX` sentinel for "no candidate yet" is `None`. The
  placeholder point on a miss still lies `DBL_MAX` along the ray, with
  `DBL_MAX` written out exactly. That exact placeholder, and its w = 1, are an
  idealisation: the original multiplies by `DBL_MAX` through
  `Vec::operator*(float)`, which overflows, so there only a hit point is
  guaranteed w = 1.
- **Sphere pointer.** The pointer to the hit sphere is an optional index
  into `World.spheres`.
- **Tag names.** The tags NONE and SPHERE are named `NoHit` and `SphereHit`.
- **Light loop.** The light loop in `raytrace` runs once, for index 2. It is
  the function `ShadeLight` applied to `lights[2]`.

Where the code departs from the shading formula and the comments it
carries (RayTracer/RayTracer.cpp:121, 172), the model follows the code:

- The ambient term multiplies by Ka twice (RayTracer/RayTracer.cpp:175-176),
  so Ka enters squared (`Tracer.AmbientKaSquared`).
- Only light number 2 is read, whatever the number of lights.
- `reverseNormal` is set when the ray starts strictly inside a sphere whose
  discriminant is at least NEAR_ZERO; in the tangent branch it is left alone
  even when the origin is inside (`Intersections.TangentNeverFlags`). Once set
  it is never reset, so it also reverses the normal of any later sphere that
  wins the search, even one the ray meets from outside
  (`Intersections.ReverseNormalLeaks`).

## Model

| member | source | states |
|---|---|---|
| Reals.Min | RayTracer/RayTracer.cpp:118 | `std::min`: the second argument when it is strictly smaller, otherwise the first (no contract; it is used by `Colors.Clamp`, whose contract states the outcome, and by `Intersections.SelectRoot`) |
| Reals.Max | RayTracer/RayTracer.cpp:120 | `std::max`: the second argument when it is strictly larger, otherwise the first (no contract; used for the "inside" root and for the cut-off of N.L) |
| Vectors.Zero | RayTracer/Vec.h:7-12 | the default vector, all four coordinates 0 (no contract; `ZeroIsDirection` states its properties) |
| Vectors.Add | RayTracer/Vec.h:21-23 | the coordinate-wise sum, w included (no contract; `SubUndoesAdd` and `PointPlusDirection` state its properties) |
| Vectors.Sub | RayTracer/Vec.h:25-27 | the coordinate-wise difference, w included (no contract; `SubUndoesAdd` and `PointMinusPoint` state its properties) |
| Vectors.Scale | RayTracer/Vec.h:29-31 | all four coordinates multiplied by s (no contract; `ScaledDirection` and `ScaledPoint` state its properties) |
| Vectors.Div | RayTracer/Vec.h:33-35 | all four coordinates divided by a non-zero s (no contract; `ScaleUndoesDiv` states its property) |
| Vectors.Dot | RayTracer/RayTracer.cpp:52-54 | the sum of the products of x, y and z (no contract; the `Dot` lemmas below state its properties) |
| Vectors.Mag | RayTracer/RayTracer.cpp:59-61 | the square root of dot(v, v) (no contract; `MagNonNegative` states its property) |
| Vectors.Normalize | RayTracer/RayTracer.cpp:73-76 | v divided by its magnitude, or v itself when the magnitude is 0 (no contract; `NormalizeUnit` states its property) |
| Vectors.ZeroIsDirection | RayTracer/Vec.h:7-12 | the default vector is a direction (w = 0), the identity of `+`, and has dot product 0 with every vector |
| Vectors.SubUndoesAdd | RayTracer/Vec.h:21-27 | `+` and `-` act on all four coordinates and `(a + b) - b == a` |
| Vectors.PointPlusDirection | RayTracer/Vec.h:21-23 | a point plus a direction is a point |
| Vectors.PointMinusPoint | RayTracer/Vec.h:25-27 | the difference of two points is a direction |
| Vectors.ScaledDirection | RayTracer/Vec.h:29-31 | scalar `*` scales w too, so a scaled direction stays a direction for every s |
| Vectors.ScaledPoint | RayTracer/Vec.h:29-31 | a scaled point is a point exactly when s = 1 |
| Vectors.ScaleUndoesDiv | RayTracer/Vec.h:33-35 | for s != 0, `(v / s) * s == v` on all four coordinates |
| Vectors.DotIgnoresW | RayTracer/RayTracer.cpp:52-54 | `dot` does not depend on either w |
| Vectors.DotSymmetric | RayTracer/RayTracer.cpp:52-54 | `dot(a, b) == dot(b, a)` |
| Vectors.DotSelfNonNegative | RayTracer/RayTracer.cpp:52-54 | `dot(v, v) >= 0`, so `mag` takes the root of a non-negative number |
| Vectors.DotScale | RayTracer/RayTracer.cpp:52-54 | `dot` is homogeneous in each argument |
| Vectors.DotAdd | RayTracer/RayTracer.cpp:52-54 | `dot` distributes over `+` |
| Vectors.MagNonNegative | RayTracer/RayTracer.cpp:59-61 | with a non-negative square root, `mag(v) >= 0` |
| Vectors.NormalizeUnit | RayTracer/RayTracer.cpp:73-76 | with an exact square root, a vector whose x, y, z are not all zero normalises to magnitude 1, and a direction stays a direction |
| Vectors.SqrtOfOne | RayTracer/RayTracer.cpp:59-61 | an exact square root maps 1 to 1 (used to show that normalised vectors have `mag` 1) |
| Colors.Default | RayTracer/Color.h:7-12 | the default colour, all four channels 0 (no contract; `DefaultIsZero` states its properties) |
| Colors.Add | RayTracer/Color.h:21-23 | the channel-wise sum, alpha included (no contract; `AddCommutative` and `AddAssociative` state its properties) |
| Colors.Scale | RayTracer/Color.h:25-27 | all four channels multiplied by s (no contract; `ScaleDistributes` states its properties) |
| Colors.DivInt | RayTracer/Color.h:29-31 | r, g and b divided by a non-zero integer, alpha set to 1 (no contract; `DivIntResetsAlpha` states its properties) |
| Colors.Exceeds | RayTracer/Color.h:33-35 | the mean of r, g and b is above o (no contract; `ExceedsIgnoresAlpha` states its properties) |
| Colors.Mul | RayTracer/Color.h:37-39 | the channel-wise product, alpha included (no contract; `MulCommutative` states its property) |
| Colors.DefaultIsZero | RayTracer/Color.h:7-12 | the default colour has alpha 0 like the other channels, is the identity of `+`, and is absorbing for the colour product |
| Colors.AddCommutative | RayTracer/Color.h:21-23 | `+` is commutative on all four channels |
| Colors.AddAssociative | RayTracer/Color.h:21-23 | `+` is associative |
| Colors.ScaleDistributes | RayTracer/Color.h:25-27 | scalar `*` distributes over `+` and is the product with (s, s, s, s), so alpha is scaled too |
| Colors.DivIntResetsAlpha | RayTracer/Color.h:29-31 | `/ int` sets alpha to 1 whatever the input alpha, and scaling back by the divider restores r, g and b exactly (alpha becomes the divider) |
| Colors.ExceedsIgnoresAlpha | RayTracer/Color.h:33-35 | `> o` holds exactly when the mean of r, g, b exceeds o; alpha plays no part |
| Colors.MulCommutative | RayTracer/Color.h:37-39 | the colour product is component-wise on all four channels and commutative |
| Colors.Clamp | RayTracer/RayTracer.cpp:66-68 | every channel of the result is at most 1, channels at most 1 (negative ones included) are unchanged, and channels above 1 become exactly 1 |
| Colors.ClampIdempotent | RayTracer/RayTracer.cpp:66-68 | clamping twice is clamping once |
| Matrices.RowTimes | RayTracer/RayTracer.cpp:30-33 | one output coordinate of `mult`: the row's four entries times x, y, z and w, summed (no contract; `RowTimesAdditive` and `RowTimesHomogeneous` state its properties) |
| Matrices.Mult | RayTracer/RayTracer.cpp:28-35 | the four row products, w row and column included (no contract; the `Mult` lemmas below state its properties) |
| Matrices.Transposed | RayTracer/RayTracer.cpp:40-46 | entry (i, j) of the transpose is entry (j, i) of the matrix |
| Matrices.Transpose | RayTracer/RayTracer.cpp:40-46 | the nested loops leave `out[i][j] == mat[j][i]` for all i, j < 4, with the input array unchanged |
| Matrices.TransposedInvolution | RayTracer/RayTracer.cpp:40-46 | transposing twice gives the original matrix |
| Matrices.RowTimesAdditive | RayTracer/RayTracer.cpp:30-33 | one output coordinate of `mult` is additive in the vector |
| Matrices.RowTimesHomogeneous | RayTracer/RayTracer.cpp:30-33 | one output coordinate of `mult` is homogeneous in the vector |
| Matrices.MultAdditive | RayTracer/RayTracer.cpp:28-35 | `mult(a + b, M) == mult(a, M) + mult(b, M)` |
| Matrices.MultHomogeneous | RayTracer/RayTracer.cpp:28-35 | `mult(a * s, M) == mult(a, M) * s` |
| Matrices.DirectionIgnoresTranslation | RayTracer/RayTracer.cpp:28-35 | for w = 0, column 3 of the matrix (the translation) has no effect on the product |
| Matrices.PointFollowsTranslation | RayTracer/RayTracer.cpp:28-35 | for w = 1, changing column 3 moves the product by exactly the change in column 3 |
| Matrices.AffineKeepsKind | RayTracer/RayTracer.cpp:28-35 | a matrix with bottom row (0, 0, 0, 1) keeps w, so points stay points and directions stay directions |
| Intersections.Coefficients | RayTracer/RayTracer.cpp:99-101 | A = V'.V', B = O'.V', C = O'.O' - 1 (no contract; `AlongRay` states what they mean) |
| Intersections.Larger | RayTracer/RayTracer.cpp:116 | th1 = -B/A + s/A for a square root s of prod (no contract; `RootsSolve`, `OnlyRoots` and `RootsOrdered` state its properties) |
| Intersections.Smaller | RayTracer/RayTracer.cpp:117 | th2 = -B/A - s/A (no contract; the same lemmas state its properties) |
| Intersections.SelectRoot | RayTracer/RayTracer.cpp:103-123 | the root-selection policy as a value: no root for prod <= -NEAR_ZERO, the tangent root -B/A for prod < NEAR_ZERO, else min(th1, th2), or max(th1, th2) flagged "inside" when they straddle 0 (no contract; `SolveQuadratic` is proved to compute it, and `NearestForwardRoot` and `SelectedRootOnSphere` state its meaning) |
| Intersections.RootAt | RayTracer/RayTracer.cpp:92-123 | the root sphere i yields, after its inverse matrix carries the ray into the canonical frame (no contract) |
| Intersections.Roots | RayTracer/RayTracer.cpp:90-124 | one root per sphere, in order, entry i being the root sphere i yields |
| Intersections.NormalAt | RayTracer/RayTracer.cpp:129-133 | the canonical-frame hit point O' + V' th, negated when the flag is set, carried back by the inverse transpose (no contract; `SearchNormal` and `HitNormal` state where it ends up) |
| Intersections.Discriminant | RayTracer/RayTracer.cpp:103 | `prod` = B^2 - A C (no contract; `Factored`, `RootsSolve` and `TangentValue` state what it means) |
| Intersections.Start | RayTracer/RayTracer.cpp:82-88 | the state before the loop: no distance (DBL_MAX), no sphere, the zero normal, the flag false (no contract; `SearchFindsNearest` and `SearchReverseNormal` state it at k = 0) |
| Intersections.Closer | RayTracer/RayTracer.cpp:125 | the strict test `th < closest && th > 0`, which keeps the earliest sphere on a tie (no contract; `SearchFindsNearest` and `BestIsNearest` state its effect) |
| Intersections.Oriented | RayTracer/RayTracer.cpp:130-132 | the normal negated when the flag is set (no contract; `HitNormal` states its effect) |
| Intersections.TangentNeverFlags | RayTracer/RayTracer.cpp:108-113 | a discriminant strictly within NEAR_ZERO of 0 gives the root -B/A unflagged, even when C < 0 puts the origin inside the sphere |
| Intersections.Step | RayTracer/RayTracer.cpp:119-134 | one iteration of the loop (no contract; `StepKeepsOrTakes` states what it changes) |
| Intersections.Search | RayTracer/RayTracer.cpp:90-138 | after the first k spheres a distance is kept exactly when a sphere is, and the kept sphere is one of those k |
| Intersections.SolveQuadratic | RayTracer/RayTracer.cpp:103-123 | the discriminant test, tangent root and choice between the two roots yield a root exactly when the root-selection policy `SelectRoot` does, and yield the same root and "inside" flag |
| Intersections.AlongRay | RayTracer/RayTracer.cpp:98-101 | along O' + t V', the squared distance from the centre is A t^2 + 2 B t + C + 1 |
| Intersections.Factored | RayTracer/RayTracer.cpp:103-117 | A times the quadratic factors through the two roots -B/A ± sqrt(prod)/A |
| Intersections.RootsOrdered | RayTracer/RayTracer.cpp:116-117 | for A > 0, th2 <= th1 |
| Intersections.RootsSolve | RayTracer/RayTracer.cpp:116-117 | th1 and th2 are zeros of the quadratic |
| Intersections.OnlyRoots | RayTracer/RayTracer.cpp:116-117 | th1 and th2 are its only zeros |
| Intersections.StraddleIffInside | RayTracer/RayTracer.cpp:119-122 | the roots lie on opposite sides of 0 exactly when C < 0, i.e. the ray starts inside the sphere |
| Intersections.TangentValue | RayTracer/RayTracer.cpp:110-113 | at the tangent root -B/A the quadratic equals -prod/A, and when -NEAR_ZERO < prod < NEAR_ZERO it lies strictly within NEAR_ZERO/A of 0 |
| Intersections.SelectedRootOnSphere | RayTracer/RayTracer.cpp:108-123 | a selected root lies on the unit sphere with two roots, and in the tangent case at squared distance exactly 1 - prod/A from the centre |
| Intersections.NearestForwardRoot | RayTracer/RayTracer.cpp:108-123 | when prod >= NEAR_ZERO the chosen th is on the sphere, is the nearest root ahead if it is ahead, leaves no root ahead (apart from th = 0) if it is not, and is flagged "inside" exactly when O' lies inside the unit sphere |
| Intersections.SearchFindsNearest | RayTracer/RayTracer.cpp:125-128 | after k spheres the search keeps a sphere exactly when one has a root ahead; that sphere's root is the kept distance, is minimal among roots ahead, and is strictly below those of all earlier spheres |
| Intersections.SearchKeepsBest | RayTracer/RayTracer.cpp:125-128 | the distance and index the loop keeps equal an independent fold over the roots alone |
| Intersections.BestIsNearest | RayTracer/RayTracer.cpp:125-128 | that fold yields the nearest root ahead, earliest index on ties |
| Intersections.SearchReverseNormal | RayTracer/RayTracer.cpp:88-122 | after k spheres `reverseNormal` holds exactly when one of them was entered from inside |
| Intersections.ReverseNormalSticky | RayTracer/RayTracer.cpp:88-122 | once `reverseNormal` is true it stays true for every later sphere |
| Intersections.SearchNormal | RayTracer/RayTracer.cpp:125-134 | the kept normal is the winning sphere's, oriented by the flag as it stood after that sphere |
| Intersections.StepKeepsOrTakes | RayTracer/RayTracer.cpp:125-134 | one loop step either takes sphere i with its normal or leaves distance, index and normal unchanged |
| Intersections.ClosestIntersection | RayTracer/RayTracer.cpp:81-150 | the returned point is a point (w = 1), the tag is SPHERE exactly when a sphere is returned, and that sphere exists |
| Intersections.FindClosestIntersection | RayTracer/RayTracer.cpp:81-150 | the loop returns exactly `ClosestIntersection` |
| Intersections.ClosestIntersectionHitIff | RayTracer/RayTracer.cpp:142-147 | the tag is SPHERE exactly when some sphere yields a root strictly ahead, with o.w forced to 1 and v.w to 0 |
| Intersections.ClosestIntersectionNearest | RayTracer/RayTracer.cpp:125-140 | on a hit the root is ahead and is the minimum over all spheres; earlier spheres have strictly larger roots (earliest wins ties); the point is o + v th |
| Intersections.HitInCanonicalFrame | RayTracer/RayTracer.cpp:92-131 | the hit point carried by the sphere's inverse is O' + V' th |
| Intersections.HitNormal | RayTracer/RayTracer.cpp:122-134 | the normal is the hit sphere's, reversed exactly when that sphere or an earlier one was entered from inside |
| Intersections.ReverseNormalLeaks | RayTracer/RayTracer.cpp:88-134 | a sphere entered from inside, at or before the winner, reverses the winner's normal |
| Intersections.EmptyWorldMisses | RayTracer/RayTracer.cpp:82-147 | with no spheres the tag is NONE and the point lies DBL_MAX along the ray |
| Tracer.Black | RayTracer/RayTracer.cpp:159-161 | the colour (0, 0, 0, 1) of an exhausted depth budget (no contract; the first ensures of `Tracer.Raytrace` states where it is returned) |
| Tracer.Lit | RayTracer/RayTracer.cpp:188-189 | the shadow test: the ray from p + L TINY_STEP along L hits nothing, or hits farther than the light plus TINY_STEP (no contract; `ShadowAddsNothing` and `ShadowedIsAmbientOnly` use it) |
| Tracer.Diffuse | RayTracer/RayTracer.cpp:190-191 | light colour times surface colour times max(L.N, 0) times Kd (no contract; `DiffuseNonNegative` states its property) |
| Tracer.ShadeLight | RayTracer/RayTracer.cpp:180-197 | one pass of the light loop: the diffuse term added when the light is not shadowed (no contract; `ShadowAddsNothing` and `LightNeverDarkens` state its properties) |
| Tracer.Ambient | RayTracer/RayTracer.cpp:174-176 | the ambient term as computed (no contract; `AmbientKaSquared` states its value) |
| Tracer.LocalColor | RayTracer/RayTracer.cpp:165-198 | the colour before reflection: `ShadeLight` of light 2 on top of the ambient term (no contract; `ShadowedIsAmbientOnly` and `OnlyThirdLightMatters` state its properties) |
| Tracer.Reflect | RayTracer/RayTracer.cpp:201 | the mirror direction N (-2) (N.v) + v (no contract; `ReflectIsMirror` states its property) |
| Tracer.Raytrace | RayTracer/RayTracer.cpp:158-214 | depth <= 0 gives (0,0,0,1) tagged NONE; otherwise the tag is SPHERE exactly when the ray hits; a miss gives `Color()`; a hit gives a colour with every channel <= 1 |
| Tracer.Combine | RayTracer/RayTracer.cpp:203-209 | the result is tagged SPHERE and clamped; a reflected ray tagged NONE adds nothing |
| Tracer.ReflectIsMirror | RayTracer/RayTracer.cpp:201 | about a unit normal the reflected direction keeps the length of v and negates its component along N |
| Tracer.ShadowAddsNothing | RayTracer/RayTracer.cpp:188-197 | a shadowed light leaves the local colour unchanged |
| Tracer.DiffuseNonNegative | RayTracer/RayTracer.cpp:190-191 | with non-negative light, surface colour and Kd, the diffuse term is non-negative, because N.L is cut off at 0 |
| Tracer.LightNeverDarkens | RayTracer/RayTracer.cpp:188-197 | under the same conditions the light loop never lowers r, g or b |
| Tracer.AmbientKaSquared | RayTracer/RayTracer.cpp:174-176 | the ambient term is Ka^2 Ia O per channel, and its alpha is Ka^2 |
| Tracer.ShadowedIsAmbientOnly | RayTracer/RayTracer.cpp:174-197 | when light 2 is shadowed the local colour is the ambient term alone |
| Tracer.OneLevelIsLocal | RayTracer/RayTracer.cpp:201-209 | with depth 1 the reflected ray returns NONE, so the result is the clamped local colour |
| Tracer.DarkSpheresRenderBlack | RayTracer/RayTracer.cpp:174-209 | spheres with Ka = Kd = Kr = 0 render as (0,0,0,0) wherever hit, at any depth |
| Tracer.OnlyThirdLightMatters | RayTracer/RayTracer.cpp:178-180 | two worlds with the same spheres, ambient colour and third light shade every hit alike |
| Tracer.RaytraceOnHit | RayTracer/RayTracer.cpp:163-209 | on a hit at positive depth, the result is the local colour combined with the trace of the reflected ray one level shallower |
| Tracer.RaytraceOnlyThirdLight | RayTracer/RayTracer.cpp:178-202 | two worlds with the same spheres, ambient colour and third light give the same `raytrace` result for every ray and depth, reflections included |

## Left out

- `main`, the scene-file parser, console output, the pixel loop and the PPM
  writer: these are input/output around the engine.
- `repeating_spaces`: a parsing helper.
- `invert_matrix` and `invert.h`: a foreign call; invert.h is not part of this
  model. Each sphere's `inverse` and `inverse_transpose` are given fields.
  `Sphere.h` and `Light.h` are not part of this model either; their fields are
  inferred from use.
- Floating point: the `float` storage in `Vec` and in `Color`'s constructor,
  rounding and overflow are not modelled. Numbers are exact reals.
- `sqrt`: a parameter, not a definition. Its meaning enters only through the
  predicates `SqrtNonNegative` and `IsSqrt`.
- The specular term, `pow`, and the vectors `V` and `R` that only feed it
  (RayTracer/RayTracer.cpp:170, 185, 192-195): the result is never added to the
  colour.
- The unused `localColr` and the world's `background` colour (read only by
  `main`).
- Vectors.Normalize: a vector of magnitude 0 is returned unchanged, because
  the original divides by zero there, which gives NaN coordinates.
- Vectors.Div and Colors.DivInt require a non-zero divisor, because the
  original's division by zero gives infinities or NaN.
- Intersections.SelectRoot: A = 0 (a zero direction after the transform) gives
  no root. This matches the original, where B is then 0 as well, th = -0/0 is
  NaN, and every later comparison with it is false.
- Matrices.Transpose: requires the output array to be distinct from the input.
  With the same array the C++ loop would overwrite entries it has yet to read.
- Tracer.Raytrace: requires three lights only when the ray hits, which is when
  `lights[2]` is read. An out-of-range read is not modelled.
- The fixed capacities of `World` (15 spheres, 10 lights) are not enforced by
  the code and become unbounded sequences.
- tests/runner.py: a driver that runs the program on scene files.
