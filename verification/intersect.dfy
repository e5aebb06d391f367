/**
  The two closed-form intersection routines of raycast.c. Both return a parameter `t`
  along the ray, or the sentinel -1 for "no hit".
 */
module Intersect {
  import opened Vec
  import opened Scene

  /** The value both routines return when the ray does not hit. */
  const NoHit: real := -1.0

  /** The point `origin + t * direction`. */
  function At(ray: Ray, t: real): Vec3 {
    Add(ray.origin, Scale(ray.direction, t))
  }

  // ---------------------------------------------------------------------------
  // Planes

  /** `p` lies on the plane through `plane.position` with normal `plane.normal`. */
  ghost predicate OnPlane(p: Vec3, plane: Object)
    requires plane.Plane?
  {
    Dot(plane.normal, Sub(p, plane.position)) == 0.0
  }

  /**
    The parameter getPlaneIntersection computes: `-(N.O + d) / (N.D)` with the offset
    `d` taken as `N.(O - P)`, where the plane equation wants `-N.P`.
   */
  function PlaneT(ray: Ray, plane: Object): (t: real)
    requires plane.Plane? && Dot(plane.normal, ray.direction) != 0.0
    ensures t * Dot(plane.normal, ray.direction)
         == Dot(plane.normal, plane.position) - 2.0 * Dot(plane.normal, ray.origin)
  {
    var d := Dot(plane.normal, Sub(ray.origin, plane.position));
    -((Dot(plane.normal, ray.origin) + d) / Dot(plane.normal, ray.direction))
  }

  /**
    getPlaneIntersection. A ray parallel to the plane (`N.D == 0`) is a miss: the C
    quotient is then +-infinity or NaN, so the C returns -1 (for -infinity), +infinity or
    NaN, none of which the nearest-hit search accepts.
   */
  function PlaneIntersection(ray: Ray, plane: Object): (t: real)
    requires plane.Plane?
    ensures t == NoHit || t >= 0.0
    ensures Dot(plane.normal, ray.direction) == 0.0 ==> t == NoHit
    ensures Dot(plane.normal, ray.direction) != 0.0 ==>
      (t == NoHit <==> PlaneT(ray, plane) < 0.0) &&
      (t != NoHit ==> t == PlaneT(ray, plane))
  {
    if Dot(plane.normal, ray.direction) == 0.0 then NoHit
    else
      var closestT := PlaneT(ray, plane);
      if closestT < 0.0 then NoHit else closestT
  }

  /**
    A plane behind the ray's origin is still reported: from `(0, 0, -1)` along `+z`, the
    plane `z = -1.5` gets parameter `0.5`, though no point ahead of the origin is on it.
   */
  lemma PlaneBehindReported()
    ensures var ray := Ray(Vec3(0.0, 0.0, -1.0), Vec3(0.0, 0.0, 1.0));
      var plane := Plane(Vec3(0.0, 0.0, -1.5), Vec3(0.0, 0.0, 1.0), Zero, Zero);
      && PlaneIntersection(ray, plane) == 0.5
      && forall t :: t > 0.0 ==> !OnPlane(At(ray, t), plane)
  {
  }

  /** The dot product of `n` with a point moved along a ray, expanded. */
  lemma DotAlongRay(n: Vec3, ray: Ray, p: Vec3, t: real)
    ensures Dot(n, Sub(At(ray, t), p))
         == Dot(n, ray.origin) + t * Dot(n, ray.direction) - Dot(n, p)
  {
    var o, d := ray.origin, ray.direction;
    assert Sub(At(ray, t), p) == Vec3(o.x + d.x * t - p.x, o.y + d.y * t - p.y, o.z + d.z * t - p.z);
    calc {
      Dot(n, Sub(At(ray, t), p));
      n.x * (o.x + d.x * t - p.x) + n.y * (o.y + d.y * t - p.y) + n.z * (o.z + d.z * t - p.z);
      (n.x * o.x + n.y * o.y + n.z * o.z) + t * (n.x * d.x + n.y * d.y + n.z * d.z)
        - (n.x * p.x + n.y * p.y + n.z * p.z);
    }
  }

  /**
    When `N.O == 0` (the camera at the origin in particular) a plane hit at `t >= 0` is
    exactly a point of the plane on the ray: the C offset is right in that case.
   */
  lemma PlaneHitFromOrigin(ray: Ray, plane: Object, t: real)
    requires plane.Plane? && Dot(plane.normal, ray.origin) == 0.0 && t >= 0.0
    requires Dot(plane.normal, ray.direction) != 0.0
    ensures PlaneIntersection(ray, plane) == t <==> OnPlane(At(ray, t), plane)
  {
    DotAlongRay(plane.normal, ray, plane.position, t);
    SameQuotient(PlaneT(ray, plane), t, Dot(plane.normal, ray.direction),
                 Dot(plane.normal, plane.position) - 2.0 * Dot(plane.normal, ray.origin));
  }

  /**
    The C parameter names a point of the plane exactly when `N.O == 0`: the point at
    `PlaneT` is off the plane by `-N.O` along the normal.
   */
  lemma PlaneTOnPlane(ray: Ray, plane: Object)
    requires plane.Plane? && Dot(plane.normal, ray.direction) != 0.0
    ensures Dot(plane.normal, Sub(At(ray, PlaneT(ray, plane)), plane.position))
         == -Dot(plane.normal, ray.origin)
    ensures OnPlane(At(ray, PlaneT(ray, plane)), plane) <==> Dot(plane.normal, ray.origin) == 0.0
  {
    DotAlongRay(plane.normal, ray, plane.position, PlaneT(ray, plane));
  }

  /** Two numbers that solve `x * d == e` for the same non-zero `d` are equal. */
  lemma SameQuotient(p: real, t: real, d: real, e: real)
    requires d != 0.0 && p * d == e
    ensures p == t <==> t * d == e
  {
    if t * d == e {
      assert (p - t) * d == 0.0;
    }
  }

  /**
    From any other origin the C parameter is off: the point of the plane on the ray
    lies `N.O / N.D` further along than `PlaneT`.
   */
  lemma PlaneOffsetFromAnyOrigin(ray: Ray, plane: Object)
    requires plane.Plane? && Dot(plane.normal, ray.direction) != 0.0
    ensures OnPlane(At(ray, PlaneT(ray, plane)
                           + Dot(plane.normal, ray.origin) / Dot(plane.normal, ray.direction)),
                    plane)
  {
    ShiftedQuotient(PlaneT(ray, plane), Dot(plane.normal, ray.direction),
                    Dot(plane.normal, plane.position), Dot(plane.normal, ray.origin));
    DotAlongRay(plane.normal, ray, plane.position,
                PlaneT(ray, plane) + Dot(plane.normal, ray.origin) / Dot(plane.normal, ray.direction));
  }

  /** If `p * d == e - 2o` then `p + o / d` solves `x * d == e - o`. */
  lemma ShiftedQuotient(p: real, d: real, e: real, o: real)
    requires d != 0.0 && p * d == e - 2.0 * o
    ensures (p + o / d) * d == e - o
  {
    assert (o / d) * d == o;
  }

  // ---------------------------------------------------------------------------
  // Spheres

  /** `p` lies on the surface of `sphere`. */
  ghost predicate OnSphere(p: Vec3, sphere: Object)
    requires sphere.Sphere?
  {
    SumOfSquares(Sub(p, sphere.position)) == Square(sphere.radius)
  }

  /** The coefficient `b` of `t^2 + b t + c` (the direction is taken to be unit, `a = 1`). */
  function SphereB(ray: Ray, sphere: Object): real
    requires sphere.Sphere?
  {
    2.0 * Dot(ray.direction, Sub(ray.origin, sphere.position))
  }

  /** The coefficient `c`: squared distance from origin to centre minus squared radius. */
  function SphereC(ray: Ray, sphere: Object): real
    requires sphere.Sphere?
  {
    SumOfSquares(Sub(ray.origin, sphere.position)) - Square(sphere.radius)
  }

  function Discriminant(ray: Ray, sphere: Object): real
    requires sphere.Sphere?
  {
    Square(SphereB(ray, sphere)) - 4.0 * 1.0 * SphereC(ray, sphere)
  }

  /** The two roots `t0 = (-b - sqrt(disc)) / 2a` and `t1 = (-b + sqrt(disc)) / 2a`. */
  function Roots(sqrt: real -> real, ray: Ray, sphere: Object): (r: (real, real))
    requires sphere.Sphere? && Discriminant(ray, sphere) >= 0.0
    ensures r.0 + r.1 == -SphereB(ray, sphere)
    ensures IsSqrt(sqrt) ==> r.0 <= r.1
  {
    var b, disc := SphereB(ray, sphere), Discriminant(ray, sphere);
    var r := ((-b - sqrt(disc)) / (2.0 * 1.0), (-b + sqrt(disc)) / (2.0 * 1.0));
    Vieta(sqrt, b, SphereC(ray, sphere), disc, r);
    r
  }

  /**
    The two roots sum to `-b`; with a true square root they are ordered and their
    product is `c`.
   */
  lemma Vieta(sqrt: real -> real, b: real, c: real, disc: real, r: (real, real))
    requires disc == Square(b) - 4.0 * 1.0 * c && disc >= 0.0
    requires r == ((-b - sqrt(disc)) / (2.0 * 1.0), (-b + sqrt(disc)) / (2.0 * 1.0))
    ensures r.0 + r.1 == -b
    ensures IsSqrt(sqrt) ==> r.0 <= r.1 && r.0 * r.1 == c
  {
    var q := sqrt(disc);
    if IsSqrt(sqrt) {
      assert q >= 0.0 && Square(q) == disc;
      var t0, t1 := (-b - q) / 2.0, (-b + q) / 2.0;
      assert 4.0 * (t0 * t1) == (-b - q) * (-b + q);
      assert (-b - q) * (-b + q) == b * b - q * q;
    }
  }

  /**
    getSphereIntersection: a miss when the discriminant is negative or both roots are
    at or behind the origin; the one positive root when there is one; the smaller root
    when both are positive.
   */
  function SphereIntersection(sqrt: real -> real, ray: Ray, sphere: Object): (t: real)
    requires sphere.Sphere?
    ensures t == NoHit || t > 0.0
    ensures Discriminant(ray, sphere) < 0.0 ==> t == NoHit
    ensures Discriminant(ray, sphere) >= 0.0 ==>
      var (t0, t1) := Roots(sqrt, ray, sphere);
      && (t0 <= 0.0 && t1 <= 0.0 ==> t == NoHit)
      && (t0 <= 0.0 < t1 ==> t == t1)
      && (t1 <= 0.0 < t0 ==> t == t0)
      && (t0 > 0.0 && t1 > 0.0 ==> t == t0 || t == t1)
      && (t0 > 0.0 && t1 > 0.0 ==> t <= t0 && t <= t1)
  {
    var discriminant := Discriminant(ray, sphere);
    if discriminant < 0.0 then NoHit
    else
      var (t0, t1) := Roots(sqrt, ray, sphere);
      if t0 <= 0.0 && t1 <= 0.0 then NoHit
      else if t0 <= 0.0 && t1 > 0.0 then t1
      else if t1 <= 0.0 && t0 > 0.0 then t0
      else if t0 < t1 then t0
      else t1
  }

  /** `t` solves `t^2 + b t + c == 0`. */
  ghost predicate IsRoot(ray: Ray, sphere: Object, t: real)
    requires sphere.Sphere?
  {
    SolvesQuadratic(SphereB(ray, sphere), SphereC(ray, sphere), t)
  }

  /** `t` solves `t^2 + b t + c == 0`. */
  ghost predicate SolvesQuadratic(b: real, c: real, t: real) {
    Square(t) + b * t + c == 0.0
  }

  lemma SquareOfProduct(p: real, q: real)
    ensures Square(p * q) == Square(p) * Square(q)
  {
    assert (p * q) * (p * q) == (p * p) * (q * q);
  }

  /** One component of `DotSelfAlong`. */
  lemma ProductAlong(u: real, v: real, t: real)
    ensures (u + v * t) * (u + v * t) == u * u + 2.0 * t * (v * u) + t * t * (v * v)
  {
  }

  /** The dot product of a point moving along `d` with itself, expanded in `t`. */
  lemma DotSelfAlong(w: Vec3, d: Vec3, t: real)
    ensures Dot(Add(w, Scale(d, t)), Add(w, Scale(d, t)))
         == Dot(w, w) + 2.0 * t * Dot(d, w) + t * t * Dot(d, d)
  {
    var p := Add(w, Scale(d, t));
    assert p == Vec3(w.x + d.x * t, w.y + d.y * t, w.z + d.z * t);
    ProductAlong(w.x, d.x, t);
    ProductAlong(w.y, d.y, t);
    ProductAlong(w.z, d.z, t);
  }

  /** Squared distance from a point moving along a direction `d`, expanded in `t`. */
  lemma SumOfSquaresAlong(w: Vec3, d: Vec3, t: real)
    ensures SumOfSquares(Add(w, Scale(d, t)))
         == SumOfSquares(w) + 2.0 * t * Dot(d, w) + Square(t) * SumOfSquares(d)
  {
    DotSelfAlong(w, d, t);
    SumOfSquaresIsDot(Add(w, Scale(d, t)));
    SumOfSquaresIsDot(w);
    SumOfSquaresIsDot(d);
  }

  /** Along a unit direction, the points of the sphere are the roots of the quadratic. */
  lemma OnSphereIffRoot(ray: Ray, sphere: Object, t: real)
    requires sphere.Sphere? && IsUnit(ray.direction)
    ensures OnSphere(At(ray, t), sphere) <==> IsRoot(ray, sphere, t)
  {
    assert Sub(At(ray, t), sphere.position)
        == Add(Sub(ray.origin, sphere.position), Scale(ray.direction, t));
    SumOfSquaresAlong(Sub(ray.origin, sphere.position), ray.direction, t);
    SumOfSquaresIsDot(ray.direction);
    DistanceIsQuadratic(SumOfSquares(Sub(ray.origin, sphere.position)),
                        Dot(ray.direction, Sub(ray.origin, sphere.position)),
                        SumOfSquares(ray.direction), Square(sphere.radius), t,
                        SumOfSquares(Sub(At(ray, t), sphere.position)));
  }

  /**
    `OnSphereIffRoot` in terms of scalars: a squared distance `sw + 2t dw + t^2 dd` with
    `dd = 1` equals `r2` exactly when `t` solves the quadratic with `b = 2 dw` and
    `c = sw - r2`.
   */
  lemma DistanceIsQuadratic(sw: real, dw: real, dd: real, r2: real, t: real, s: real)
    requires dd == 1.0 && s == sw + 2.0 * t * dw + Square(t) * dd
    ensures s == r2 <==> SolvesQuadratic(2.0 * dw, sw - r2, t)
  {
    assert (2.0 * dw) * t == 2.0 * t * dw;
  }

  /**
    The roots of `t^2 + b t + c` when `q` is a square root of the discriminant: the
    quadratic vanishes exactly at `(-b - q) / 2` and `(-b + q) / 2`, in that order.
   */
  lemma QuadraticRoots(b: real, c: real, q: real, t: real)
    requires q >= 0.0 && q * q == b * b - 4.0 * c
    ensures (-b - q) / 2.0 <= (-b + q) / 2.0
    ensures t * t + b * t + c == 0.0 <==> t == (-b - q) / 2.0 || t == (-b + q) / 2.0
  {
    var t0, t1 := (-b - q) / 2.0, (-b + q) / 2.0;
    assert t0 + t1 == -b;
    assert t0 * t1 == c by {
      assert 4.0 * (t0 * t1) == (-b - q) * (-b + q);
    }
    assert t * t + b * t + c == (t - t0) * (t - t1);
    if (t - t0) * (t - t1) == 0.0 {
      assert t - t0 == 0.0 || t - t1 == 0.0;
    }
  }

  /** With a non-negative discriminant the quadratic vanishes exactly at its two roots. */
  lemma Factorization(sqrt: real -> real, ray: Ray, sphere: Object, t: real)
    requires IsSqrt(sqrt) && sphere.Sphere? && Discriminant(ray, sphere) >= 0.0
    ensures Roots(sqrt, ray, sphere).0 <= Roots(sqrt, ray, sphere).1
    ensures IsRoot(ray, sphere, t) <==>
      t == Roots(sqrt, ray, sphere).0 || t == Roots(sqrt, ray, sphere).1
  {
    assert Discriminant(ray, sphere) == Square(SphereB(ray, sphere)) - 4.0 * 1.0 * SphereC(ray, sphere);
    FactorizationScalar(sqrt, SphereB(ray, sphere), SphereC(ray, sphere), t);
  }

  /** `Factorization` in terms of the coefficients alone. */
  lemma FactorizationScalar(sqrt: real -> real, b: real, c: real, t: real)
    requires IsSqrt(sqrt) && Square(b) - 4.0 * 1.0 * c >= 0.0
    ensures var q := sqrt(Square(b) - 4.0 * 1.0 * c);
      SolvesQuadratic(b, c, t) <==> t == (-b - q) / (2.0 * 1.0) || t == (-b + q) / (2.0 * 1.0)
  {
    var q := sqrt(Square(b) - 4.0 * 1.0 * c);
    assert q >= 0.0 && Square(q) == Square(b) - 4.0 * 1.0 * c;
    QuadraticRoots(b, c, q, t);
  }

  /** `t^2 + b t + c` has no real root when `b^2 - 4c` is negative. */
  lemma NoRealRoot(b: real, c: real, t: real)
    requires Square(b) - 4.0 * 1.0 * c < 0.0
    ensures !SolvesQuadratic(b, c, t)
  {
    var u := t + b / 2.0;
    assert t * t + b * t + c == u * u - (b * b - 4.0 * c) / 4.0;
    SquareNonNegative(u);
  }

  /**
    With a negative discriminant the quadratic `t^2 + bt + c` has no root. Only for a unit
    direction does that mean the ray misses the sphere (`NonUnitMissedHit`).
   */
  lemma NoRoot(ray: Ray, sphere: Object, t: real)
    requires sphere.Sphere? && Discriminant(ray, sphere) < 0.0
    ensures !IsRoot(ray, sphere, t)
    ensures IsUnit(ray.direction) ==> !OnSphere(At(ray, t), sphere)
  {
    assert Discriminant(ray, sphere) == Square(SphereB(ray, sphere)) - 4.0 * 1.0 * SphereC(ray, sphere);
    NoRealRoot(SphereB(ray, sphere), SphereC(ray, sphere), t);
    if IsUnit(ray.direction) {
      OnSphereIffRoot(ray, sphere, t);
    }
  }

  /**
    Along a unit direction, a hit is the nearest point of the sphere in front of the
    origin, and a miss means no point of the sphere lies in front of it.
   */
  lemma SphereHitIsNearest(sqrt: real -> real, ray: Ray, sphere: Object)
    requires IsSqrt(sqrt) && sphere.Sphere? && IsUnit(ray.direction)
    ensures var t := SphereIntersection(sqrt, ray, sphere);
      && (t != NoHit ==> OnSphere(At(ray, t), sphere))
      && (t != NoHit ==> forall s :: s > 0.0 && OnSphere(At(ray, s), sphere) ==> t <= s)
      && (t == NoHit ==> forall s :: s > 0.0 ==> !OnSphere(At(ray, s), sphere))
  {
    var t := SphereIntersection(sqrt, ray, sphere);
    forall s | s > 0.0 && OnSphere(At(ray, s), sphere)
      ensures t != NoHit && t <= s
    {
      OnSphereIffRoot(ray, sphere, s);
      if Discriminant(ray, sphere) < 0.0 {
        NoRoot(ray, sphere, s);
      } else {
        Factorization(sqrt, ray, sphere, s);
      }
    }
    if t != NoHit {
      Factorization(sqrt, ray, sphere, t);
      OnSphereIffRoot(ray, sphere, t);
    }
  }

  lemma CentreB(ray: Ray, sphere: Object)
    requires sphere.Sphere? && ray.origin == sphere.position
    ensures SphereB(ray, sphere) == 0.0
  {
    assert Sub(ray.origin, sphere.position) == Zero;
  }

  lemma CentreC(ray: Ray, sphere: Object)
    requires sphere.Sphere? && ray.origin == sphere.position
    ensures SphereC(ray, sphere) == -Square(sphere.radius)
  {
    assert Sub(ray.origin, sphere.position) == Zero;
  }

  /** From the centre, `b` vanishes and `c` is minus the squared radius. */
  lemma CentreCoefficients(ray: Ray, sphere: Object)
    requires sphere.Sphere? && ray.origin == sphere.position
    ensures SphereB(ray, sphere) == 0.0 && SphereC(ray, sphere) == -Square(sphere.radius)
  {
    CentreB(ray, sphere);
    CentreC(ray, sphere);
  }

  /** From the centre, the two roots are minus and plus the radius. */
  lemma CentreRoots(sqrt: real -> real, ray: Ray, sphere: Object)
    requires IsSqrt(sqrt) && sphere.Sphere? && sphere.radius > 0.0 && ray.origin == sphere.position
    ensures Discriminant(ray, sphere) >= 0.0
    ensures Roots(sqrt, ray, sphere) == (-sphere.radius, sphere.radius)
  {
    assert Discriminant(ray, sphere) == Square(SphereB(ray, sphere)) - 4.0 * 1.0 * SphereC(ray, sphere);
    CentreCoefficients(ray, sphere);
    CentreScalar(sqrt, SphereB(ray, sphere), SphereC(ray, sphere), sphere.radius);
  }

  /**
    With `b = 0` and `c = -r^2` the discriminant is the square of the diameter `2r`, and
    the two roots are `-r` and `r`.
   */
  lemma CentreScalar(sqrt: real -> real, b: real, c: real, r: real)
    requires IsSqrt(sqrt) && r > 0.0 && b == 0.0 && c == -Square(r)
    ensures Square(b) - 4.0 * 1.0 * c == Square(2.0 * r)
    ensures var q := sqrt(Square(b) - 4.0 * 1.0 * c);
      ((-b - q) / (2.0 * 1.0), (-b + q) / (2.0 * 1.0)) == (-r, r)
  {
    SquareOfProduct(2.0, r);
    SqrtOfSquare(sqrt, 2.0 * r);
  }

  /**
    A ray cast from the centre of a sphere, in any direction, is reported to meet it at
    parameter `radius`: from the centre `b = 0` and `c = -r^2` whatever the direction.
   */
  lemma SphereFromCentre(sqrt: real -> real, ray: Ray, sphere: Object)
    requires IsSqrt(sqrt) && sphere.Sphere? && sphere.radius > 0.0
    requires ray.origin == sphere.position
    ensures SphereIntersection(sqrt, ray, sphere) == sphere.radius
  {
    CentreRoots(sqrt, ray, sphere);
  }

  /**
    A ray whose line passes farther than `radius` from the centre misses: with `w` the
    vector from centre to origin, the squared distance of the line is
    `|w|^2 - (D.w)^2` for a unit direction `D`.
   */
  lemma SphereMiss(sqrt: real -> real, ray: Ray, sphere: Object)
    requires sphere.Sphere? && IsUnit(ray.direction)
    requires var w := Sub(ray.origin, sphere.position);
      SumOfSquares(w) - Square(Dot(ray.direction, w)) > Square(sphere.radius)
    ensures SphereIntersection(sqrt, ray, sphere) == NoHit
  {
    var w := Sub(ray.origin, sphere.position);
    SquareOfProduct(2.0, Dot(ray.direction, w));
    assert Discriminant(ray, sphere)
        == 4.0 * (Square(Dot(ray.direction, w)) - SumOfSquares(w) + Square(sphere.radius));
  }

  /**
    With a direction shorter than unit, `a = 1` makes the C miss a sphere the ray does
    meet: from the origin along `(0, 0, -0.5)` the sphere of radius 1 at `(0, 0, -5)` has
    discriminant `-71`, so no hit is reported, yet at `t = 8` the ray is at `(0, 0, -4)`,
    which is on the sphere (`UnitAboveCentre`).
   */
  lemma NonUnitMissedHit(sqrt: real -> real, ray: Ray, sphere: Object)
    requires ray == Ray(Zero, Vec3(0.0, 0.0, -0.5))
    requires sphere == Sphere(Vec3(0.0, 0.0, -5.0), 1.0, Zero, Zero)
    ensures Discriminant(ray, sphere) < 0.0
    ensures SphereIntersection(sqrt, ray, sphere) == NoHit
    ensures At(ray, 8.0) == Vec3(0.0, 0.0, -4.0)
  {
    var w := Sub(ray.origin, sphere.position);
    assert w == Vec3(0.0, 0.0, 5.0);
    assert Square(5.0) == 25.0 && Square(0.0) == 0.0 && Square(1.0) == 1.0;
    assert SphereB(ray, sphere) == -5.0;
    assert SphereC(ray, sphere) == 24.0;
    assert Square(-5.0) == 25.0;
    assert Discriminant(ray, sphere) == -71.0;
  }

  /** `(0, 0, -4)` is on the sphere of radius 1 about `(0, 0, -5)`. */
  lemma UnitAboveCentre(p: Vec3, sphere: Object)
    requires p == Vec3(0.0, 0.0, -4.0)
    requires sphere == Sphere(Vec3(0.0, 0.0, -5.0), 1.0, Zero, Zero)
    ensures OnSphere(p, sphere)
  {
    assert Sub(p, sphere.position) == Vec3(0.0, 0.0, 1.0);
    assert Square(1.0) == 1.0 && Square(0.0) == 0.0;
  }
}
