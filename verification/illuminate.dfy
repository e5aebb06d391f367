/**
  The shader of raycast.c (`illuminate`): for a point on the surface hit by a primary
  ray, the sum over the scene's lights of the radially attenuated diffuse term, each
  light gated by a shadow ray and by the angle between the surface normal and the
  direction to the light.

  The geometric part of one iteration of the light loop (the distance to the light, the
  shadow ray and `N.L`) is gathered in a `LightSample`; the loop itself is a fold of the
  colour arithmetic over one sample per object.
 */
module Illuminate {
  import opened Options
  import opened Vec
  import opened Scene
  import opened Intersect
  import Shoot

  /**
    The normal `illuminate` builds before normalising it: the plane's stored normal, the
    vector from the centre to the point for a sphere, and zero for any other kind.
   */
  function SurfaceNormal(o: Object, point: Vec3): (n: Vec3)
    ensures o.Sphere? ==> Add(o.position, n) == point
    ensures o.Plane? ==> n == o.normal
    ensures !IsSurface(o) ==> n == Zero
  {
    if o.Plane? then o.normal
    else if o.Sphere? then Sub(point, o.position)
    else Zero
  }

  /** The vector `L` from the point to the light, before normalisation. */
  function ToLight(light: Object, point: Vec3): Vec3
    requires light.Light?
  {
    Sub(light.position, point)
  }

  /**
    What one iteration of the light loop computes from the geometry: `lightDistance`,
    the parameter returned by the shadow ray, and `nDotL` (`None` where the C value is
    NaN, which happens when `L` or the normal is the zero vector).
   */
  datatype LightSample = LightSample(distance: real, shadowT: real, nDotL: Option<real>)

  /**
    What every sample satisfies: a distance of at least zero, and a defined `N.L` only
    off the light's position, where the distance is positive.
   */
  predicate WellFormedSample(s: LightSample) {
    s.distance >= 0.0 && (s.nDotL.Some? ==> s.distance > 0.0)
  }

  /** The sample the loop never computes, for objects that are not lights. */
  const Unlit: LightSample := LightSample(0.0, NoHit, None)

  /**
    The geometric part of iteration `lightInd`: `L` is normalised in place, the shadow
    ray is cast from the point along it with the hit object excluded, and a NaN
    direction yields no hit, since every comparison in `shoot` is then false.
   */
  function Sample(sqrt: real -> real, scene: seq<Object>, point: Vec3, closestObj: nat, lightInd: nat)
    : (s: LightSample)
    requires IsSqrt(sqrt) && closestObj < |scene| && lightInd < |scene| && scene[lightInd].Light?
    ensures s.distance >= 0.0
    ensures Square(s.distance) == SumOfSquares(ToLight(scene[lightInd], point))
    ensures s.distance == 0.0 <==> point == scene[lightInd].position
    ensures s.shadowT == NoHit || s.shadowT > 0.0
    ensures s.nDotL.Some? <==>
      point != scene[lightInd].position && SurfaceNormal(scene[closestObj], point) != Zero
    ensures WellFormedSample(s)
  {
    var lVec := ToLight(scene[lightInd], point);
    var l := NormalizeAliased(sqrt, lVec);
    var n := NormalizeAliased(sqrt, SurfaceNormal(scene[closestObj], point));
    SumOfSquaresIsDot(lVec);
    LightSample(
      Length(sqrt, lVec),
      if l.Some? then Shoot.Shoot(sqrt, scene, Ray(point, l.value), closestObj).t else NoHit,
      if l.Some? && n.Some? then Some(Dot(n.value, l.value)) else None)
  }

  /** One sample per object, `Unlit` for those that are not lights. */
  function Samples(sqrt: real -> real, scene: seq<Object>, point: Vec3, closestObj: nat)
    : (ss: seq<LightSample>)
    requires IsSqrt(sqrt) && closestObj < |scene|
    ensures |ss| == |scene|
    ensures forall i :: 0 <= i < |ss| ==> WellFormedSample(ss[i])
  {
    seq(|scene|, i requires 0 <= i < |scene| =>
      if scene[i].Light? then Sample(sqrt, scene, point, closestObj, i) else Unlit)
  }

  /** The test `t > 0 && t < lightDistance`: something lies between the point and the light. */
  predicate Blocked(s: LightSample) {
    s.shadowT > 0.0 && s.shadowT < s.distance
  }

  /** The denominator `a0 + a1 d + (a2 d)^2` of the radial attenuation. */
  function AttenuationDenominator(light: Object, d: real): real
    requires light.Light?
  {
    light.radialA0 + light.radialA1 * d + Square(light.radialA2 * d)
  }

  /**
    `radatt`: the reciprocal of the denominator, at a positive distance or, for a light
    with `a0 > 0`, at distance zero.
   */
  function RadialAttenuation(light: Object, d: real): (r: real)
    requires WellFormedLight(light) && d >= 0.0 && (d > 0.0 || light.radialA0 > 0.0)
    ensures r > 0.0
    ensures r * AttenuationDenominator(light, d) == 1.0
  {
    DenominatorPositive(light, d);
    1.0 / AttenuationDenominator(light, d)
  }

  /**
    The diffuse term of one light: `diffuseColor[i] * color[i] * N.L` per channel when
    `N.L` is defined and positive, zero otherwise. The C test `nDotL > 0` is false for a
    NaN `nDotL`.
   */
  function Diffuse(diffuseColor: Vec3, light: Object, nDotL: Option<real>): (r: Vec3)
    requires light.Light?
    ensures nDotL.None? || nDotL.value <= 0.0 ==> r == Zero
    ensures nDotL.Some? && nDotL.value > 0.0 ==>
      forall i :: 0 <= i < 3 ==>
        Get(r, i) == Get(diffuseColor, i) * Get(light.color, i) * nDotL.value
  {
    if nDotL.Some? && nDotL.value > 0.0 then
      var dc, lc, k := diffuseColor, light.color, nDotL.value;
      Vec3(dc.x * lc.x * k, dc.y * lc.y * k, dc.z * lc.z * k)
    else Zero
  }

  /**
    What one iteration of the light loop adds to `illuminationColor`, for a surface of
    colour `diffuseColor`: nothing for an object that is not a light, for a blocked
    light or where `N.L` is not positive (the diffuse term is then zero), otherwise the
    diffuse term scaled by the radial attenuation at the light's distance.
   */
  function Contribution(diffuseColor: Vec3, light: Object, s: LightSample): (c: Vec3)
    requires WellFormedSample(s)
    requires light.Light? ==> WellFormedLight(light)
    ensures !light.Light? || Blocked(s) ==> c == Zero
    ensures light.Light? && (s.nDotL.None? || s.nDotL.value <= 0.0) ==> c == Zero
    ensures light.Light? && !Blocked(s) && s.nDotL.Some? && s.nDotL.value > 0.0 ==>
      forall i :: 0 <= i < 3 ==>
        Get(c, i) == (Get(diffuseColor, i) * Get(light.color, i) * s.nDotL.value)
                     * RadialAttenuation(light, s.distance)
  {
    if !light.Light? || Blocked(s) then Zero
    else if s.nDotL.Some? && s.nDotL.value > 0.0 then
      var diffuse := Diffuse(diffuseColor, light, s.nDotL);
      var radatt := RadialAttenuation(light, s.distance);
      var c := Vec3(diffuse.x * radatt, diffuse.y * radatt, diffuse.z * radatt);
      assert forall i :: 0 <= i < 3 ==> Get(c, i) == Get(diffuse, i) * radatt;
      c
    else Zero
  }

  /** The samples a fold over `scene` may use: one well-formed sample per object. */
  predicate SamplesFit(scene: seq<Object>, samples: seq<LightSample>) {
    |samples| == |scene| && forall i :: 0 <= i < |samples| ==> WellFormedSample(samples[i])
  }

  /**
    `illuminationColor` after the first `n` iterations of the light loop, each adding
    its contribution channel by channel.
   */
  function Accumulate(diffuseColor: Vec3, scene: seq<Object>, samples: seq<LightSample>, n: nat)
    : (r: Vec3)
    requires LightsWellFormed(scene) && SamplesFit(scene, samples)
    requires n <= |scene|
    ensures (forall i :: 0 <= i < n && scene[i].Light? ==> Blocked(samples[i])) ==> r == Zero
    ensures NonNegative(diffuseColor) && (forall i :: 0 <= i < n && scene[i].Light? ==> NonNegative(scene[i].color))
            ==> NonNegative(r)
  {
    if n == 0 then Zero
    else
      var a := Accumulate(diffuseColor, scene, samples, n - 1);
      var b := Contribution(diffuseColor, scene[n - 1], samples[n - 1]);
      ContributionNonNegative(diffuseColor, scene[n - 1], samples[n - 1]);
      Vec3(a.x + b.x, a.y + b.y, a.z + b.z)
  }

  /**
    illuminate: the colour written to `color` for the point `R0` on object `closestObj`.
    A point every light of which is shadowed is black, and so is a point in a scene
    without lights; non-negative colours give a non-negative colour.
   */
  function Illuminate(sqrt: real -> real, scene: seq<Object>, point: Vec3, closestObj: nat): (r: Vec3)
    requires IsSqrt(sqrt) && LightsWellFormed(scene)
    requires closestObj < |scene| && IsSurface(scene[closestObj])
    ensures (forall i :: 0 <= i < |scene| && scene[i].Light? ==>
               Blocked(Sample(sqrt, scene, point, closestObj, i))) ==> r == Zero
    ensures NonNegative(scene[closestObj].diffuseColor) && LightColoursNonNegative(scene) ==> NonNegative(r)
  {
    Accumulate(scene[closestObj].diffuseColor, scene, Samples(sqrt, scene, point, closestObj), |scene|)
  }

  // ---------------------------------------------------------------------------
  // Lemmas

  lemma NonNegativeProduct(u: real, v: real)
    requires u >= 0.0 && v >= 0.0
    ensures u * v >= 0.0
  {
    if u > 0.0 && v > 0.0 {
      MulPositive(u, v);
    }
  }

  lemma ReciprocalBound(a: real, den: real)
    requires 0.0 < a <= den
    ensures 0.0 < 1.0 / den <= 1.0 / a
  {
    assert 1.0 / den * den == 1.0;
    assert 1.0 / a * a == 1.0;
  }

  /**
    The denominator is positive at every positive distance, and at distance zero when
    `a0 > 0`.
   */
  lemma DenominatorPositive(light: Object, d: real)
    requires WellFormedLight(light) && d >= 0.0 && (d > 0.0 || light.radialA0 > 0.0)
    ensures AttenuationDenominator(light, d) > 0.0
  {
    var a0, a1, a2 := light.radialA0, light.radialA1, light.radialA2;
    NonNegativeProduct(a1, d);
    SquareNonNegative(a2 * d);
    if a0 == 0.0 {
      if a1 > 0.0 {
        MulPositive(a1, d);
      } else {
        assert a2 != 0.0;
        assert a2 * d != 0.0;
        SquarePositive(a2 * d);
      }
    }
  }

  /** With `a0 > 0` the denominator is at least `a0`. */
  lemma DenominatorBound(light: Object, d: real)
    requires WellFormedLight(light) && d >= 0.0 && light.radialA0 > 0.0
    ensures AttenuationDenominator(light, d) >= light.radialA0 > 0.0
  {
    NonNegativeProduct(light.radialA1, d);
  }

  /**
    The attenuation is positive and at most its value `1 / a0` at distance zero: a light
    never contributes more than its diffuse term scaled by `1 / a0`.
   */
  lemma AttenuationBounds(light: Object, d: real)
    requires WellFormedLight(light) && d >= 0.0 && light.radialA0 > 0.0
    ensures 0.0 < RadialAttenuation(light, d) <= 1.0 / light.radialA0
    ensures RadialAttenuation(light, 0.0) == 1.0 / light.radialA0
  {
    DenominatorBound(light, d);
    ReciprocalBound(light.radialA0, AttenuationDenominator(light, d));
    assert AttenuationDenominator(light, 0.0) == light.radialA0 by {
      assert Square(light.radialA2 * 0.0) == 0.0;
    }
  }

  /** The attenuation falls off with distance. */
  lemma AttenuationDecreasing(light: Object, d1: real, d2: real)
    requires WellFormedLight(light) && 0.0 <= d1 <= d2 && (d1 > 0.0 || light.radialA0 > 0.0)
    ensures RadialAttenuation(light, d2) <= RadialAttenuation(light, d1)
  {
    DenominatorMonotone(light.radialA0, light.radialA1, light.radialA2, d1, d2);
    DenominatorPositive(light, d1);
    ReciprocalBound(AttenuationDenominator(light, d1), AttenuationDenominator(light, d2));
  }

  /** `a0 + a1 d + (a2 d)^2` grows with `d >= 0` when `a1 >= 0`. */
  lemma DenominatorMonotone(a0: real, a1: real, a2: real, d1: real, d2: real)
    requires a1 >= 0.0 && 0.0 <= d1 <= d2
    ensures a0 + a1 * d1 + Square(a2 * d1) <= a0 + a1 * d2 + Square(a2 * d2)
  {
    assert a1 * d1 <= a1 * d2 by {
      NonNegativeProduct(a1, d2 - d1);
    }
    SquareMonotone(a2, d1, d2);
  }

  lemma SquareMonotone(a: real, d1: real, d2: real)
    requires 0.0 <= d1 <= d2
    ensures Square(a * d1) <= Square(a * d2)
  {
    var aa := a * a;
    SquareNonNegative(a);
    assert Square(a * d1) == aa * (d1 * d1);
    assert Square(a * d2) == aa * (d2 * d2);
    NonNegativeProduct(d2 - d1, d2 + d1);
    NonNegativeProduct(aa, d2 * d2 - d1 * d1);
  }

  /**
    The shadow test in terms of the scene: a light is blocked exactly when some object
    other than the hit one has a computed parameter along the ray towards the light that
    is positive and below the light distance. That parameter is `PlaneT` or the
    quadratic's root, not necessarily where the ray meets the object
    (`PlaneBehindReported`, `NonUnitMissedHit`).
   */
  lemma BlockedIffOccluder(sqrt: real -> real, scene: seq<Object>, point: Vec3, closestObj: nat, lightInd: nat)
    requires IsSqrt(sqrt) && closestObj < |scene| && lightInd < |scene| && scene[lightInd].Light?
    requires point != scene[lightInd].position
    ensures var lVec := ToLight(scene[lightInd], point);
      NormalizeAliased(sqrt, lVec).Some? &&
      var ray := Ray(point, NormalizeAliased(sqrt, lVec).value);
      (Blocked(Sample(sqrt, scene, point, closestObj, lightInd)) <==>
        exists i: nat :: Shoot.Candidate(sqrt, scene, ray, closestObj, i)
                         && Shoot.HitT(sqrt, ray, scene[i]) < Length(sqrt, lVec))
  {
    var lVec := ToLight(scene[lightInd], point);
    assert lVec != Zero;
    var ray := Ray(point, NormalizeAliased(sqrt, lVec).value);
    var s := Sample(sqrt, scene, point, closestObj, lightInd);
    var r := Shoot.Shoot(sqrt, scene, ray, closestObj);
    assert s.shadowT == r.t && s.distance == Length(sqrt, lVec);
    if Blocked(s) {
      assert r.hitObject != -1;
      assert Shoot.Candidate(sqrt, scene, ray, closestObj, r.hitObject);
    }
    if exists i: nat :: Shoot.Candidate(sqrt, scene, ray, closestObj, i)
                       && Shoot.HitT(sqrt, ray, scene[i]) < Length(sqrt, lVec) {
      var i: nat :| Shoot.Candidate(sqrt, scene, ray, closestObj, i)
                    && Shoot.HitT(sqrt, ray, scene[i]) < Length(sqrt, lVec);
      assert r.hitObject != -1;
      assert r.t <= Shoot.HitT(sqrt, ray, scene[i]);
    }
  }

  /** Every component of `v` is at least zero. */
  ghost predicate NonNegative(v: Vec3) {
    v.x >= 0.0 && v.y >= 0.0 && v.z >= 0.0
  }

  /** Every light of the scene has a non-negative colour. */
  ghost predicate LightColoursNonNegative(scene: seq<Object>) {
    forall i :: 0 <= i < |scene| && scene[i].Light? ==> NonNegative(scene[i].color)
  }

  /** Every colour of the scene a pixel can take its value from is non-negative. */
  ghost predicate ColoursNonNegative(scene: seq<Object>) {
    LightColoursNonNegative(scene)
    && forall i :: 0 <= i < |scene| && IsSurface(scene[i]) ==> NonNegative(scene[i].diffuseColor)
  }

  /** Products of non-negative colours give a non-negative contribution. */
  lemma ContributionNonNegative(diffuseColor: Vec3, light: Object, s: LightSample)
    requires WellFormedSample(s)
    requires light.Light? ==> WellFormedLight(light)
    ensures NonNegative(diffuseColor) && (light.Light? ==> NonNegative(light.color)) ==>
      NonNegative(Contribution(diffuseColor, light, s))
  {
    var c := Contribution(diffuseColor, light, s);
    if NonNegative(diffuseColor) && light.Light? && NonNegative(light.color)
       && !Blocked(s) && s.nDotL.Some? && s.nDotL.value > 0.0 {
      var radatt := RadialAttenuation(light, s.distance);
      forall i | 0 <= i < 3
        ensures Get(c, i) >= 0.0
      {
        var dc, lc := Get(diffuseColor, i), Get(light.color, i);
        NonNegativeProduct(dc, lc);
        NonNegativeProduct(dc * lc, s.nDotL.value);
        NonNegativeProduct(dc * lc * s.nDotL.value, radatt);
      }
      assert c.x == Get(c, 0) && c.y == Get(c, 1) && c.z == Get(c, 2);
    }
  }

  /** `o` with its specular colour cleared. */
  function WithoutSpecular(o: Object): Object {
    match o
    case Sphere(p, r, dc, _) => Sphere(p, r, dc, Zero)
    case Plane(p, n, dc, _) => Plane(p, n, dc, Zero)
    case _ => o
  }

  /** Two scenes that differ at most in their specular colours. */
  ghost predicate SameButSpecular(a: seq<Object>, b: seq<Object>) {
    |a| == |b| && forall i :: 0 <= i < |a| ==> WithoutSpecular(a[i]) == WithoutSpecular(b[i])
  }

  /** Such scenes have the same lights in the same places. */
  lemma SameLights(a: seq<Object>, b: seq<Object>)
    requires SameButSpecular(a, b)
    ensures forall i :: 0 <= i < |a| && a[i].Light? ==> a[i] == b[i]
    ensures forall i :: 0 <= i < |a| ==> (a[i].Light? <==> b[i].Light?)
  {
    forall i | 0 <= i < |a|
      ensures (a[i].Light? <==> b[i].Light?) && (a[i].Light? ==> a[i] == b[i])
    {
      assert WithoutSpecular(a[i]) == WithoutSpecular(b[i]);
    }
  }

  lemma {:induction false} AccumulateSameLights(diffuseColor: Vec3, a: seq<Object>, b: seq<Object>,
                                                samples: seq<LightSample>, n: nat)
    requires LightsWellFormed(a) && LightsWellFormed(b) && SamplesFit(a, samples) && |a| == |b| && n <= |a|
    requires forall i :: 0 <= i < |a| && a[i].Light? ==> a[i] == b[i]
    requires forall i :: 0 <= i < |a| ==> (a[i].Light? <==> b[i].Light?)
    ensures Accumulate(diffuseColor, a, samples, n) == Accumulate(diffuseColor, b, samples, n)
  {
    if n > 0 {
      AccumulateSameLights(diffuseColor, a, b, samples, n - 1);
      if !a[n - 1].Light? {
        assert Contribution(diffuseColor, a[n - 1], samples[n - 1]) == Zero;
        assert Contribution(diffuseColor, b[n - 1], samples[n - 1]) == Zero;
      }
    }
  }

  lemma SpecularGeometry(a: seq<Object>, b: seq<Object>)
    requires SameButSpecular(a, b)
    ensures Shoot.SameGeometry(a, b)
  {
    forall i | 0 <= i < |a|
      ensures Shoot.Geometry(a[i]) == Shoot.Geometry(b[i])
    {
      assert WithoutSpecular(a[i]) == WithoutSpecular(b[i]);
    }
  }

  lemma SampleIgnoresSpecular(sqrt: real -> real, a: seq<Object>, b: seq<Object>, point: Vec3, closestObj: nat,
                              i: nat)
    requires IsSqrt(sqrt) && SameButSpecular(a, b) && closestObj < |a| && i < |a| && a[i].Light?
    requires a[i] == b[i] && SurfaceNormal(a[closestObj], point) == SurfaceNormal(b[closestObj], point)
    requires Shoot.SameGeometry(a, b)
    ensures Sample(sqrt, a, point, closestObj, i) == Sample(sqrt, b, point, closestObj, i)
  {
    var l := NormalizeAliased(sqrt, ToLight(a[i], point));
    if l.Some? {
      Shoot.ShootGeometryOnly(sqrt, a, b, Ray(point, l.value), closestObj);
    }
  }

  lemma SamplesIgnoreSpecular(sqrt: real -> real, a: seq<Object>, b: seq<Object>, point: Vec3, closestObj: nat)
    requires IsSqrt(sqrt) && SameButSpecular(a, b) && closestObj < |a|
    ensures Samples(sqrt, a, point, closestObj) == Samples(sqrt, b, point, closestObj)
  {
    SpecularGeometry(a, b);
    SameLights(a, b);
    assert WithoutSpecular(a[closestObj]) == WithoutSpecular(b[closestObj]);
    assert SurfaceNormal(a[closestObj], point) == SurfaceNormal(b[closestObj], point);
    var sa, sb := Samples(sqrt, a, point, closestObj), Samples(sqrt, b, point, closestObj);
    forall i | 0 <= i < |a|
      ensures sa[i] == sb[i]
    {
      if a[i].Light? {
        SampleIgnoresSpecular(sqrt, a, b, point, closestObj, i);
      }
    }
  }

  /**
    The specular term is computed but never added to the colour: two scenes that differ
    only in specular colours shade every point alike.
   */
  lemma IgnoresSpecular(sqrt: real -> real, a: seq<Object>, b: seq<Object>, point: Vec3, closestObj: nat)
    requires IsSqrt(sqrt) && SameButSpecular(a, b) && LightsWellFormed(a) && LightsWellFormed(b)
    requires closestObj < |a| && IsSurface(a[closestObj]) && IsSurface(b[closestObj])
    ensures Illuminate(sqrt, a, point, closestObj) == Illuminate(sqrt, b, point, closestObj)
  {
    SamplesIgnoreSpecular(sqrt, a, b, point, closestObj);
    SameLights(a, b);
    assert WithoutSpecular(a[closestObj]) == WithoutSpecular(b[closestObj]);
    AccumulateSameLights(a[closestObj].diffuseColor, a, b, Samples(sqrt, a, point, closestObj), |a|);
  }
}
