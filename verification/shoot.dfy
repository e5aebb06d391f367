/**
  The nearest-hit search of raycast.c (`shoot`): a linear scan of the object array for
  the smallest positive intersection parameter, skipping cameras and one excluded index.
 */
module Shoot {
  import opened Options
  import opened Vec
  import opened Scene
  import opened Intersect

  /**
    The parameter `shoot` obtains for one object: the sphere or plane routine for the
    two surface kinds, and no hit for every other kind (cameras, lights, empty slots).
   */
  function HitT(sqrt: real -> real, ray: Ray, o: Object): (t: real)
    ensures t == NoHit || t >= 0.0
    ensures !IsSurface(o) ==> t == NoHit
  {
    if o.Sphere? then SphereIntersection(sqrt, ray, o)
    else if o.Plane? then PlaneIntersection(ray, o)
    else NoHit
  }

  /** Object `i` takes part in the search and is hit in front of the origin. */
  predicate Candidate(sqrt: real -> real, scene: seq<Object>, ray: Ray, exclude: int, i: nat) {
    i < |scene| && i != exclude && HitT(sqrt, ray, scene[i]) > 0.0
  }

  /**
    `k` is the object `shoot` reports: a candidate whose parameter is no larger than any
    other candidate's, and strictly smaller than that of every earlier candidate.
   */
  ghost predicate IsNearest(sqrt: real -> real, scene: seq<Object>, ray: Ray, exclude: int, k: nat) {
    && Candidate(sqrt, scene, ray, exclude, k)
    && (forall i: nat :: Candidate(sqrt, scene, ray, exclude, i) ==>
          HitT(sqrt, ray, scene[k]) <= HitT(sqrt, ray, scene[i]))
    && (forall i: nat :: i < k && Candidate(sqrt, scene, ray, exclude, i) ==>
          HitT(sqrt, ray, scene[k]) < HitT(sqrt, ray, scene[i]))
  }

  /**
    The scan over the first `n` objects: the index the C loop holds in `*hitObject`
    after `n` iterations, or `None` while `closestT` is still `INFINITY`.
   */
  function Scan(sqrt: real -> real, scene: seq<Object>, ray: Ray, exclude: int, n: nat): (r: Option<nat>)
    requires n <= |scene|
    ensures r.Some? ==> r.value < n
  {
    if n == 0 then None
    else
      var previous := Scan(sqrt, scene, ray, exclude, n - 1);
      if Candidate(sqrt, scene, ray, exclude, n - 1)
         && (previous.None? || HitT(sqrt, ray, scene[n - 1]) < HitT(sqrt, ray, scene[previous.value]))
      then Some(n - 1)
      else previous
  }

  /**
    After `n` iterations the scan holds the nearest candidate among the first `n`
    objects, the earliest one on a tie, and nothing exactly when none of them is a
    candidate.
   */
  lemma {:induction false} ScanNearest(sqrt: real -> real, scene: seq<Object>, ray: Ray, exclude: int, n: nat)
    requires n <= |scene|
    ensures var r := Scan(sqrt, scene, ray, exclude, n);
      && (r.None? <==> forall i: nat :: i < n ==> !Candidate(sqrt, scene, ray, exclude, i))
      && (r.Some? ==> Candidate(sqrt, scene, ray, exclude, r.value))
      && (r.Some? ==> forall i: nat :: i < n && Candidate(sqrt, scene, ray, exclude, i) ==>
            HitT(sqrt, ray, scene[r.value]) <= HitT(sqrt, ray, scene[i]))
      && (r.Some? ==> forall i: nat :: i < r.value && Candidate(sqrt, scene, ray, exclude, i) ==>
            HitT(sqrt, ray, scene[r.value]) < HitT(sqrt, ray, scene[i]))
  {
    if n > 0 {
      ScanNearest(sqrt, scene, ray, exclude, n - 1);
    }
  }

  /** What `shoot` returns and what it stores through `hitObject`. */
  datatype ShootResult = ShootResult(t: real, hitObject: int)

  /**
    shoot: the parameter of the nearest hit and the index of the object hit, or -1 and
    -1 when no object is hit in front of the origin.
   */
  function Shoot(sqrt: real -> real, scene: seq<Object>, ray: Ray, exclude: int): (r: ShootResult)
    ensures r.hitObject == -1 <==> r.t == NoHit
    ensures r.hitObject == -1 <==>
      forall i: nat :: i < |scene| ==> !Candidate(sqrt, scene, ray, exclude, i)
    ensures r.hitObject != -1 ==>
      && 0 <= r.hitObject < |scene|
      && IsNearest(sqrt, scene, ray, exclude, r.hitObject)
      && r.t == HitT(sqrt, ray, scene[r.hitObject])
    ensures r.t == NoHit || r.t > 0.0
  {
    ScanNearest(sqrt, scene, ray, exclude, |scene|);
    match Scan(sqrt, scene, ray, exclude, |scene|)
    case None => ShootResult(NoHit, -1)
    case Some(k) => ShootResult(HitT(sqrt, ray, scene[k]), k)
  }

  /**
    shoot as the C loop: `closest` plays `closestT`, with `None` for `INFINITY`, and
    `hitObject` starts at -1.
   */
  method ShootLoop(sqrt: real -> real, scene: seq<Object>, ray: Ray, exclude: int)
    returns (t: real, hitObject: int)
    ensures hitObject == -1 <==> t == NoHit
    ensures hitObject == -1 ==>
      forall i: nat :: i < |scene| ==> !Candidate(sqrt, scene, ray, exclude, i)
    ensures hitObject != -1 ==>
      && 0 <= hitObject < |scene|
      && IsNearest(sqrt, scene, ray, exclude, hitObject)
      && t == HitT(sqrt, ray, scene[hitObject])
  {
    var closest: Option<real> := None;
    hitObject := -1;
    var objIndex := 0;
    while objIndex < |scene|
      invariant 0 <= objIndex <= |scene|
      invariant var s := Scan(sqrt, scene, ray, exclude, objIndex);
        && (s.None? ==> hitObject == -1 && closest.None?)
        && (s.Some? ==> hitObject == s.value
                        && closest == Some(HitT(sqrt, ray, scene[s.value])))
    {
      ScanNearest(sqrt, scene, ray, exclude, objIndex);
      var o := scene[objIndex];
      if o.Camera? || objIndex == exclude {
      } else if o.Sphere? || o.Plane? {
        var tObj := if o.Sphere? then SphereIntersection(sqrt, ray, o) else PlaneIntersection(ray, o);
        if tObj > 0.0 && (closest.None? || tObj < closest.value) {
          closest := Some(tObj);
          hitObject := objIndex;
        }
      }
      objIndex := objIndex + 1;
    }
    ScanNearest(sqrt, scene, ray, exclude, |scene|);
    if closest.None? {
      return NoHit, hitObject;
    }
    t := closest.value;
  }

  /** At most one object meets the description of the reported hit. */
  lemma NearestUnique(sqrt: real -> real, scene: seq<Object>, ray: Ray, exclude: int, j: nat, k: nat)
    requires IsNearest(sqrt, scene, ray, exclude, j)
    requires IsNearest(sqrt, scene, ray, exclude, k)
    ensures j == k
  {
  }

  /** The object a scan reports is the unique nearest object. */
  lemma ShootIsNearest(sqrt: real -> real, scene: seq<Object>, ray: Ray, exclude: int, k: nat)
    requires IsNearest(sqrt, scene, ray, exclude, k)
    ensures Shoot(sqrt, scene, ray, exclude) == ShootResult(HitT(sqrt, ray, scene[k]), k)
  {
    var r := Shoot(sqrt, scene, ray, exclude);
    assert Candidate(sqrt, scene, ray, exclude, k);
    NearestUnique(sqrt, scene, ray, exclude, r.hitObject, k);
  }

  /** The shape of an object as the search sees it: colours play no part. */
  function Geometry(o: Object): Object {
    match o
    case Sphere(p, r, _, _) => Sphere(p, r, Zero, Zero)
    case Plane(p, n, _, _) => Plane(p, n, Zero, Zero)
    case _ => Empty
  }

  /** Two scenes that agree object by object in everything the search looks at. */
  ghost predicate SameGeometry(a: seq<Object>, b: seq<Object>) {
    |a| == |b| && forall i :: 0 <= i < |a| ==> Geometry(a[i]) == Geometry(b[i])
  }

  lemma HitTGeometry(sqrt: real -> real, ray: Ray, a: Object, b: Object)
    requires Geometry(a) == Geometry(b)
    ensures HitT(sqrt, ray, a) == HitT(sqrt, ray, b)
  {
    if a.Sphere? {
      assert b.Sphere? && a.position == b.position && a.radius == b.radius;
    } else if a.Plane? {
      assert b.Plane? && a.position == b.position && a.normal == b.normal;
    } else {
      assert !b.Sphere? && !b.Plane?;
    }
  }

  /**
    The search depends only on geometry: colours, lights, cameras and empty slots can
    change freely without changing what a ray hits.
   */
  lemma ShootGeometryOnly(sqrt: real -> real, a: seq<Object>, b: seq<Object>, ray: Ray, exclude: int)
    requires SameGeometry(a, b)
    ensures Shoot(sqrt, a, ray, exclude) == Shoot(sqrt, b, ray, exclude)
  {
    forall i: nat | i < |a|
      ensures HitT(sqrt, ray, a[i]) == HitT(sqrt, ray, b[i])
    {
      HitTGeometry(sqrt, ray, a[i], b[i]);
    }
    ScanGeometryOnly(sqrt, a, b, ray, exclude, |a|);
  }

  lemma {:induction false} ScanGeometryOnly(sqrt: real -> real, a: seq<Object>, b: seq<Object>, ray: Ray,
                                            exclude: int, n: nat)
    requires |a| == |b| && n <= |a|
    requires forall i: nat :: i < |a| ==> HitT(sqrt, ray, a[i]) == HitT(sqrt, ray, b[i])
    ensures Scan(sqrt, a, ray, exclude, n) == Scan(sqrt, b, ray, exclude, n)
  {
    if n > 0 {
      ScanGeometryOnly(sqrt, a, b, ray, exclude, n - 1);
    }
  }

  /** Whatever sits at the excluded index never influences the result. */
  lemma ShootExcludedIrrelevant(sqrt: real -> real, scene: seq<Object>, ray: Ray, exclude: nat, o: Object)
    requires exclude < |scene|
    ensures Shoot(sqrt, scene[exclude := o], ray, exclude) == Shoot(sqrt, scene, ray, exclude)
  {
    var s := scene[exclude := o];
    forall i: nat | i < |scene|
      ensures Candidate(sqrt, s, ray, exclude, i) == Candidate(sqrt, scene, ray, exclude, i)
    {
    }
    ScanExcludedIrrelevant(sqrt, scene, s, ray, exclude, |scene|);
  }

  lemma {:induction false} ScanExcludedIrrelevant(sqrt: real -> real, a: seq<Object>, b: seq<Object>,
                                                  ray: Ray, exclude: nat, n: nat)
    requires |a| == |b| && n <= |a|
    requires forall i: nat :: i < |a| && i != exclude ==> a[i] == b[i]
    ensures Scan(sqrt, a, ray, exclude, n) == Scan(sqrt, b, ray, exclude, n)
  {
    if n > 0 {
      ScanExcludedIrrelevant(sqrt, a, b, ray, exclude, n - 1);
      ScanNearest(sqrt, a, ray, exclude, n - 1);
    }
  }
}
