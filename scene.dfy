/** The records the engine passes around: spheres, lights, the world, the
    result of an intersection query and the result of a trace. */
module Scene {

  import opened Wrappers
  import opened Vectors
  import opened Matrices
  import Colors

  /** A sphere as the engine sees it: the inverse of its placement matrix and
      the transpose of that inverse (both computed when the scene is read),
      its colour and its material coefficients. */
  datatype Sphere = Sphere(
    inverse: Mat,
    inverseTranspose: Mat,
    r: real, g: real, b: real,
    ka: real, kd: real, ks: real, kr: real,
    n: real)

  /** A point light: position and colour. */
  datatype Light = Light(x: real, y: real, z: real, r: real, g: real, b: real)

  /** The scene, read-only while rendering. */
  datatype World = World(
    spheres: seq<Sphere>,
    lights: seq<Light>,
    background: Colors.Color,
    ambient: Colors.Color)

  /** Whether a query hit something (NONE and SPHERE in the original). */
  datatype IntersectionType = NoHit | SphereHit

  /** Result of a closest-intersection query. The hit sphere is given by its
      index in the world's sphere sequence. */
  datatype Intersection = Intersection(
    point: Vec,
    normal: Vec,
    sphere: Option<nat>,
    intersecter: IntersectionType)

  /** A colour together with the tag saying whether it comes from a hit, so
      that "hit nothing" is not confused with a black surface. */
  datatype RaytraceResult = RaytraceResult(color: Colors.Color, intersecter: IntersectionType)
}
