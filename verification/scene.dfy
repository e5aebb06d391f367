/**
  The scene of raycast.h: a tagged union of objects keyed by kind, and the rays cast
  through it. The C keeps the scene in a global array; here it is a sequence handed to
  every operation.
 */
module Scene {
  import opened Vec

  /** One entry of the object array, with the fields the parser fills in for its kind. */
  datatype Object =
    | Empty
    | Camera(width: real, height: real)
    | Sphere(position: Vec3, radius: real, diffuseColor: Vec3, specularColor: Vec3)
    | Plane(position: Vec3, normal: Vec3, diffuseColor: Vec3, specularColor: Vec3)
    | Light(position: Vec3, color: Vec3, theta: real,
            radialA0: real, radialA1: real, radialA2: real,
            angularA0: real, spotDirection: Vec3)

  /** The integer kind codes of raycast.h. */
  const NONE: int := 0
  const CAMERA: int := 1
  const SPHERE: int := 2
  const PLANE: int := 3
  const LIGHT: int := 4

  function Kind(o: Object): (k: int)
    ensures NONE <= k <= LIGHT
    ensures k == SPHERE <==> o.Sphere?
    ensures k == PLANE <==> o.Plane?
    ensures k == LIGHT <==> o.Light?
    ensures k == CAMERA <==> o.Camera?
  {
    match o
    case Empty => NONE
    case Camera(_, _) => CAMERA
    case Sphere(_, _, _, _) => SPHERE
    case Plane(_, _, _, _) => PLANE
    case Light(_, _, _, _, _, _, _, _) => LIGHT
  }

  /** A surface a ray can hit: the only kinds the nearest-hit search tests. */
  predicate IsSurface(o: Object) {
    o.Sphere? || o.Plane?
  }

  /**
    A ray: an origin and a direction. The program normalises the directions of primary
    and shadow rays in place, which in general does not make them unit vectors.
   */
  datatype Ray = Ray(origin: Vec3, direction: Vec3)

  /**
    A light whose radial attenuation `1 / (a0 + a1 d + (a2 d)^2)` is finite at every
    distance `d > 0`: no coefficient of the denominator pulls it down, and not all of
    them are zero. At `d = 0` the denominator is `a0`, so it may vanish there.
   */
  predicate WellFormedLight(light: Object) {
    light.Light? && light.radialA0 >= 0.0 && light.radialA1 >= 0.0
    && (light.radialA0 > 0.0 || light.radialA1 > 0.0 || light.radialA2 != 0.0)
  }

  /** Every light of the scene is well formed. */
  predicate LightsWellFormed(scene: seq<Object>) {
    forall i :: 0 <= i < |scene| && scene[i].Light? ==> WellFormedLight(scene[i])
  }
}
