/**
  Three-component vectors over the reals, standing in for the `float[3]` arrays of
  v3math.c. Each function here is the value a v3math routine writes into its `dst`
  argument when `dst` does not alias an input; the aliasing behaviours are modelled
  separately, on arrays, in module V3Arrays.
 */
module Vec {
  import opened Options

  datatype Vec3 = Vec3(x: real, y: real, z: real)

  const Zero: Vec3 := Vec3(0.0, 0.0, 0.0)

  /** Component `i` of `v`, in the order of the C arrays. */
  function Get(v: Vec3, i: nat): real
    requires i < 3
  {
    if i == 0 then v.x else if i == 1 then v.y else v.z
  }

  /**
    The second factor of `Square`. Keeping it a separate term makes the solver treat
    `Square(u)` as a product of two factors rather than as an even power.
   */
  function Factor(u: real): real { u }

  /** `pow(u, 2)`, as v3math.c and raycast.c write squares. */
  function Square(u: real): (r: real)
    ensures r >= 0.0
  {
    SquareNonNegative(u);
    u * Factor(u)
  }

  lemma SquareNonNegative(u: real)
    ensures u * Factor(u) >= 0.0
  {
    if u < 0.0 {
      MulPositive(-u, -Factor(u));
    } else if u > 0.0 {
      MulPositive(u, Factor(u));
    }
  }

  /** Only zero squares to zero. */
  lemma SquarePositive(u: real)
    requires u != 0.0
    ensures Square(u) > 0.0
  {
    if u > 0.0 {
      MulPositive(u, Factor(u));
    } else {
      MulPositive(-u, -Factor(u));
    }
  }

  /** `sqrt` behaves as the C library square root on non-negative arguments. */
  ghost predicate IsSqrt(sqrt: real -> real) {
    forall x: real :: x >= 0.0 ==> sqrt(x) >= 0.0 && Square(sqrt(x)) == x
  }

  /** The sum of the squared components, the argument v3_length hands to `sqrt`. */
  function SumOfSquares(a: Vec3): (r: real)
    ensures r >= 0.0
  {
    Square(a.x) + Square(a.y) + Square(a.z)
  }

  /** Only the zero vector has a zero sum of squares. */
  lemma SumOfSquaresZero(a: Vec3)
    ensures SumOfSquares(a) == 0.0 <==> a == Zero
  {
    if a.x != 0.0 {
      SquarePositive(a.x);
    } else if a.y != 0.0 {
      SquarePositive(a.y);
    } else if a.z != 0.0 {
      SquarePositive(a.z);
    }
  }

  /** The sum of squares is the dot product of a vector with itself. */
  lemma SumOfSquaresIsDot(a: Vec3)
    ensures SumOfSquares(a) == Dot(a, a)
  {
  }

  /** v3_add. */
  function Add(a: Vec3, b: Vec3): (r: Vec3)
    ensures Sub(r, b) == a
  {
    Vec3(a.x + b.x, a.y + b.y, a.z + b.z)
  }

  /** v3_subtract: `a - b`. */
  function Sub(a: Vec3, b: Vec3): (r: Vec3)
    ensures r == Zero <==> a == b
  {
    Vec3(a.x - b.x, a.y - b.y, a.z - b.z)
  }

  /** v3_from_points: the vector leading from `head` to `tail`. */
  function FromPoints(head: Vec3, tail: Vec3): (r: Vec3)
    ensures Add(head, r) == tail
    ensures r == Sub(tail, head)
  {
    Vec3(tail.x - head.x, tail.y - head.y, tail.z - head.z)
  }

  /** v3_scale, as a value: every component multiplied by `s`. */
  function Scale(v: Vec3, s: real): (r: Vec3)
    ensures s == 0.0 ==> r == Zero
    ensures s != 0.0 ==> Vec3(r.x / s, r.y / s, r.z / s) == v
  {
    Vec3(v.x * s, v.y * s, v.z * s)
  }

  /** v3_dot_product. */
  function Dot(a: Vec3, b: Vec3): real {
    a.x * b.x + a.y * b.y + a.z * b.z
  }

  /** v3_cross_product: a vector orthogonal to both arguments. */
  function Cross(a: Vec3, b: Vec3): (r: Vec3)
    ensures Dot(a, r) == 0.0
    ensures Dot(b, r) == 0.0
  {
    Vec3(a.y * b.z - a.z * b.y, a.z * b.x - a.x * b.z, a.x * b.y - a.y * b.x)
  }

  /** Component `k` of `b` lies within `tol` of component `k` of `a`. */
  ghost predicate WithinTolerance(a: Vec3, b: Vec3, tol: real, k: nat)
    requires k < 3
  {
    Get(a, k) - tol <= Get(b, k) <= Get(a, k) + tol
  }

  /**
    The loop of v3_equals from index `i` on: it gives up at the first component of `b`
    outside the box `[a[k] - tol, a[k] + tol]`.
   */
  function EqualsFrom(a: Vec3, b: Vec3, tol: real, i: nat): (r: bool)
    requires i <= 3
    ensures r <==> forall k :: i <= k < 3 ==> WithinTolerance(a, b, tol, k)
    decreases 3 - i
  {
    if i == 3 then true
    else if Get(b, i) < Get(a, i) - tol || Get(b, i) > Get(a, i) + tol then
      assert !WithinTolerance(a, b, tol, i);
      false
    else EqualsFrom(a, b, tol, i + 1)
  }

  /** v3_equals: a componentwise tolerance box, not a Euclidean ball. */
  function Equals(a: Vec3, b: Vec3, tol: real): (r: bool)
    ensures r <==> forall k :: 0 <= k < 3 ==> WithinTolerance(a, b, tol, k)
  {
    EqualsFrom(a, b, tol, 0)
  }

  /** v3_length: the Euclidean norm. */
  function Length(sqrt: real -> real, a: Vec3): (r: real)
    requires IsSqrt(sqrt)
    ensures r >= 0.0
    ensures Square(r) == Dot(a, a)
    ensures r == 0.0 <==> a == Zero
  {
    var s := SumOfSquares(a);
    SumOfSquaresZero(a);
    SumOfSquaresIsDot(a);
    SqrtZero(sqrt, s);
    sqrt(s)
  }

  /**
    v3_normalize with `dst` distinct from `a`: `a / |a|`. The C division by a zero
    length yields NaN in every component; that outcome is `None` here.
   */
  function Normalize(sqrt: real -> real, a: Vec3): (r: Option<Vec3>)
    requires IsSqrt(sqrt)
    ensures r.Some? <==> a != Zero
    ensures r.Some? ==> IsUnit(r.value)
    ensures r.Some? ==> Scale(r.value, Length(sqrt, a)) == a
  {
    if a == Zero then None
    else
      DivideByLength(sqrt, a);
      var l := Length(sqrt, a);
      Some(Vec3(a.x / l, a.y / l, a.z / l))
  }

  /** `v` with component `i` replaced by `value`. */
  function Set(v: Vec3, i: nat, value: real): Vec3
    requires i < 3
  {
    if i == 0 then v.(x := value) else if i == 1 then v.(y := value) else v.(z := value)
  }

  /**
    One statement of v3_normalize, `dst[i] = a[i] / v3_length(a)`, when `dst` and `a`
    are the same array `v`: component `i` is divided by the length of `v` as it is now.
   */
  function DivideAt(sqrt: real -> real, v: Vec3, i: nat): (r: Vec3)
    requires IsSqrt(sqrt) && v != Zero && i < 3
    ensures Get(r, i) == Get(v, i) / Length(sqrt, v)
    ensures IsQuotient(Get(r, i), Get(v, i), Length(sqrt, v))
    ensures forall k :: 0 <= k < 3 && k != i ==> Get(r, k) == Get(v, k)
    ensures forall k :: 0 <= k < 3 ==> SameSign(Get(r, k), Get(v, k))
    ensures r != Zero
  {
    var l := Length(sqrt, v);
    DivPositive(Get(v, i), l);
    DivideThenMultiply(Get(v, i) / l, Get(v, i), l);
    var r := Set(v, i, Get(v, i) / l);
    assert Get(r, i) == Get(v, i) / l;
    assert forall k :: 0 <= k < 3 && k != i ==> Get(r, k) == Get(v, k);
    assert r != Zero by {
      if Get(v, i) != 0.0 {
        assert Get(r, i) != 0.0;
      } else {
        assert v == Set(v, i, 0.0);
      }
    }
    r
  }

  /**
    v3_normalize called in place, `v3_normalize(a, a)`, as every caller in raycast.c
    does: each component is divided by the length of the array as it stands after the
    earlier components were overwritten.
   */
  function NormalizeAliased(sqrt: real -> real, a: Vec3): (r: Option<Vec3>)
    requires IsSqrt(sqrt)
    ensures r.Some? <==> a != Zero
    ensures r.Some? ==> forall i :: 0 <= i < 3 ==> SameSign(Get(r.value, i), Get(a, i))
    ensures r.Some? ==> DividedInPlace(sqrt, a, r.value)
  {
    if a == Zero then None
    else
      InPlaceSteps(sqrt, a);
      Some(InPlace(sqrt, a))
  }

  /**
    `v` is what the three in-place statements of v3_normalize leave in the array that held
    `a`: the first component is divided by the length of `a`, the second by the length of
    the array with the first already rewritten, the third by the length with the first two
    rewritten.
   */
  ghost predicate DividedInPlace(sqrt: real -> real, a: Vec3, v: Vec3)
    requires IsSqrt(sqrt) && a != Zero
  {
    && v.x == a.x / Length(sqrt, a)
    && IsQuotient(v.y, a.y, Length(sqrt, Vec3(v.x, a.y, a.z)))
    && IsQuotient(v.z, a.z, Length(sqrt, Vec3(v.x, v.y, a.z)))
  }

  /** `q` is `u / l`, stated as a product so that it needs no side condition on `l`. */
  ghost predicate IsQuotient(q: real, u: real, l: real) {
    q * l == u
  }

  /** The three statements of v3_normalize run on one array, in order. */
  function InPlace(sqrt: real -> real, a: Vec3): Vec3
    requires IsSqrt(sqrt) && a != Zero
  {
    DivideAt(sqrt, DivideAt(sqrt, DivideAt(sqrt, a, 0), 1), 2)
  }

  /** The first in-place step of v3_normalize divides the first component by the length of `a`. */
  lemma InPlaceFirst(sqrt: real -> real, a: Vec3)
    requires IsSqrt(sqrt) && a != Zero
    ensures InPlace(sqrt, a).x == a.x / Length(sqrt, a)
    ensures DivideAt(sqrt, a, 0) == Vec3(InPlace(sqrt, a).x, a.y, a.z)
  {
    var v0 := DivideAt(sqrt, a, 0);
    var v1 := DivideAt(sqrt, v0, 1);
    assert Get(v0, 1) == Get(a, 1) && Get(v0, 2) == Get(a, 2);
    assert Get(v1, 0) == Get(v0, 0) && Get(DivideAt(sqrt, v1, 2), 0) == Get(v1, 0);
  }

  /**
    The second in-place step divides the second component by the length of the array
    whose first component is already rewritten.
   */
  lemma InPlaceSecond(sqrt: real -> real, a: Vec3)
    requires IsSqrt(sqrt) && a != Zero
    ensures IsQuotient(InPlace(sqrt, a).y, a.y, Length(sqrt, Vec3(InPlace(sqrt, a).x, a.y, a.z)))
  {
    InPlaceFirst(sqrt, a);
    var v0 := DivideAt(sqrt, a, 0);
    var v1 := DivideAt(sqrt, v0, 1);
    assert IsQuotient(Get(v1, 1), a.y, Length(sqrt, v0));
    assert Get(DivideAt(sqrt, v1, 2), 1) == Get(v1, 1);
  }

  /**
    The third in-place step divides the third component by the length of the array
    whose first two components are already rewritten.
   */
  lemma InPlaceThird(sqrt: real -> real, a: Vec3)
    requires IsSqrt(sqrt) && a != Zero
    ensures IsQuotient(InPlace(sqrt, a).z, a.z, Length(sqrt, Vec3(InPlace(sqrt, a).x, InPlace(sqrt, a).y, a.z)))
  {
    var v0 := DivideAt(sqrt, a, 0);
    var v1 := DivideAt(sqrt, v0, 1);
    var v2 := DivideAt(sqrt, v1, 2);
    assert v1 == Vec3(v2.x, v2.y, a.z) by {
      assert Get(v0, 2) == Get(a, 2) && Get(v1, 2) == Get(v0, 2);
      assert Get(v1, 0) == Get(v0, 0) && Get(v2, 0) == Get(v1, 0);
      assert Get(v2, 1) == Get(v1, 1);
    }
    assert IsQuotient(Get(v2, 2), a.z, Length(sqrt, v1));
  }

  /** The three in-place steps together. */
  lemma InPlaceSteps(sqrt: real -> real, a: Vec3)
    requires IsSqrt(sqrt) && a != Zero
    ensures DividedInPlace(sqrt, a, InPlace(sqrt, a))
    ensures forall i :: 0 <= i < 3 ==> SameSign(Get(InPlace(sqrt, a), i), Get(a, i))
  {
    InPlaceFirst(sqrt, a);
    InPlaceSecond(sqrt, a);
    InPlaceThird(sqrt, a);
    InPlaceSigns(sqrt, a);
  }

  /** Every in-place step keeps the sign of each component. */
  lemma InPlaceSigns(sqrt: real -> real, a: Vec3)
    requires IsSqrt(sqrt) && a != Zero
    ensures forall i :: 0 <= i < 3 ==> SameSign(Get(InPlace(sqrt, a), i), Get(a, i))
  {
    var v0 := DivideAt(sqrt, a, 0);
    var v1 := DivideAt(sqrt, v0, 1);
    var v2 := DivideAt(sqrt, v1, 2);
    SameSignChain(Get(v2, 0), Get(v1, 0), Get(v0, 0), Get(a, 0));
    SameSignChain(Get(v2, 1), Get(v1, 1), Get(v0, 1), Get(a, 1));
    SameSignChain(Get(v2, 2), Get(v1, 2), Get(v0, 2), Get(a, 2));
  }

  lemma DivideThenMultiply(q: real, u: real, l: real)
    requires l != 0.0 && q == u / l
    ensures q * l == u
  {
  }

  lemma SameSignChain(u3: real, u2: real, u1: real, u0: real)
    requires SameSign(u3, u2) && SameSign(u2, u1) && SameSign(u1, u0)
    ensures SameSign(u3, u0)
  {
  }

  /** `v` has length one. */
  ghost predicate IsUnit(v: Vec3) {
    Dot(v, v) == 1.0
  }

  /** `u` is positive, zero or negative exactly when `v` is. */
  ghost predicate SameSign(u: real, v: real) {
    (u > 0.0 <==> v > 0.0) && (u == 0.0 <==> v == 0.0)
  }

  /** Every component of `u` has the sign of the same component of `v`. */
  ghost predicate SameSigns(u: Vec3, v: Vec3) {
    forall i :: 0 <= i < 3 ==> SameSign(Get(u, i), Get(v, i))
  }

  /**
    v3_reflect, as the value it leaves in `dst`: `v - 2(v.n)n`, the mirror image of `v`
    in the plane with normal `n`.
   */
  function Reflect(v: Vec3, n: Vec3): (r: Vec3)
    ensures Dot(n, n) == 1.0 ==> Dot(r, n) == -Dot(v, n)
    ensures Dot(n, n) == 1.0 ==> Dot(r, r) == Dot(v, v)
  {
    var k := 2.0 * Dot(v, n);
    var r := Sub(v, Scale(n, k));
    if Dot(n, n) == 1.0 then ReflectUnit(v, n, k); r else r
  }

  // ---------------------------------------------------------------------------
  // Lemmas

  lemma MulPositive(u: real, v: real)
    requires u > 0.0 && v > 0.0
    ensures u * v > 0.0
  {
  }

  lemma DivPositive(u: real, l: real)
    requires l > 0.0
    ensures SameSign(u / l, u)
  {
    if u > 0.0 { assert u / l > 0.0; }
    else if u < 0.0 { assert u / l < 0.0; }
  }

  /** Dividing a vector by its length leaves a unit vector that scales back to it. */
  lemma DivideByLength(sqrt: real -> real, a: Vec3)
    requires IsSqrt(sqrt) && a != Zero
    ensures Length(sqrt, a) > 0.0
    ensures IsUnit(Vec3(a.x / Length(sqrt, a), a.y / Length(sqrt, a), a.z / Length(sqrt, a)))
    ensures Scale(Vec3(a.x / Length(sqrt, a), a.y / Length(sqrt, a), a.z / Length(sqrt, a)),
                  Length(sqrt, a)) == a
  {
    var l := Length(sqrt, a);
    SumOfSquaresIsDot(a);
    DivideBySquareRoot(a, l);
  }

  /** `a / l` has unit length when `l * l` is the sum of the squares of `a`. */
  lemma DivideBySquareRoot(a: Vec3, l: real)
    requires l > 0.0 && Square(l) == SumOfSquares(a)
    ensures IsUnit(Vec3(a.x / l, a.y / l, a.z / l))
    ensures Scale(Vec3(a.x / l, a.y / l, a.z / l), l) == a
  {
    var n := Vec3(a.x / l, a.y / l, a.z / l);
    QuotientSquare(a.x, l);
    QuotientSquare(a.y, l);
    QuotientSquare(a.z, l);
    var q := Square(n.x) + Square(n.y) + Square(n.z);
    var s := Square(l);
    calc {
      q * s;
      { Distribute3(Square(n.x), Square(n.y), Square(n.z), s); }
      Square(n.x) * s + Square(n.y) * s + Square(n.z) * s;
      Square(a.x) + Square(a.y) + Square(a.z);
      s;
    }
    assert q == Dot(n, n) by { SumOfSquaresIsDot(n); }
    CancelPositive(q, s);
    ScaleQuotient(a, l);
  }

  /** Scaling the quotient `a / l` back by `l` gives `a`. */
  lemma ScaleQuotient(a: Vec3, l: real)
    requires l != 0.0
    ensures Scale(Vec3(a.x / l, a.y / l, a.z / l), l) == a
  {
    DivideThenMultiply(a.x / l, a.x, l);
    DivideThenMultiply(a.y / l, a.y, l);
    DivideThenMultiply(a.z / l, a.z, l);
  }

  lemma Distribute3(u: real, v: real, w: real, s: real)
    ensures (u + v + w) * s == u * s + v * s + w * s
  {
  }

  lemma QuotientSquare(u: real, l: real)
    requires l != 0.0
    ensures Square(u / l) * Square(l) == Square(u)
    ensures (u / l) * l == u
  {
    var w := u / l;
    assert w * l == u;
    calc {
      Square(w) * Square(l);
      (w * w) * (l * l);
      (w * l) * (w * l);
      u * u;
    }
  }

  lemma CancelPositive(q: real, s: real)
    requires s > 0.0 && q * s == s
    ensures q == 1.0
  {
    assert (q - 1.0) * s == 0.0;
  }

  lemma ReflectUnit(v: Vec3, n: Vec3, k: real)
    requires Dot(n, n) == 1.0 && k == 2.0 * Dot(v, n)
    ensures Dot(Sub(v, Scale(n, k)), n) == -Dot(v, n)
    ensures Dot(Sub(v, Scale(n, k)), Sub(v, Scale(n, k))) == Dot(v, v)
  {
    var r := Vec3(v.x - n.x * k, v.y - n.y * k, v.z - n.z * k);
    assert Sub(v, Scale(n, k)) == r;
    SubScaleComponent(v.x, n.x, k);
    SubScaleComponent(v.y, n.y, k);
    SubScaleComponent(v.z, n.z, k);
    assert Dot(r, n) == Dot(v, n) - k * Dot(n, n);
    assert Dot(r, r) == Dot(v, v) - 2.0 * k * Dot(v, n) + k * k * Dot(n, n);
  }

  /** One component of `v - k n`, multiplied by `n` and by itself. */
  lemma SubScaleComponent(a: real, b: real, k: real)
    ensures (a - b * k) * b == a * b - k * (b * b)
    ensures (a - b * k) * (a - b * k) == a * a - 2.0 * k * (a * b) + k * k * (b * b)
  {
  }

  lemma DotSymmetric(a: Vec3, b: Vec3)
    ensures Dot(a, b) == Dot(b, a)
  {
  }

  lemma DotAddLeft(a: Vec3, b: Vec3, c: Vec3)
    ensures Dot(Add(a, b), c) == Dot(a, c) + Dot(b, c)
  {
  }

  lemma DotAddRight(a: Vec3, b: Vec3, c: Vec3)
    ensures Dot(a, Add(b, c)) == Dot(a, b) + Dot(a, c)
  {
  }

  lemma DotScaleLeft(a: Vec3, s: real, c: Vec3)
    ensures Dot(Scale(a, s), c) == s * Dot(a, c)
  {
  }

  lemma DotScaleRight(a: Vec3, b: Vec3, s: real)
    ensures Dot(a, Scale(b, s)) == s * Dot(a, b)
  {
  }

  lemma EqualsReflexive(a: Vec3, tol: real)
    requires tol >= 0.0
    ensures Equals(a, a, tol)
  {
  }

  lemma EqualsSymmetric(a: Vec3, b: Vec3, tol: real)
    ensures Equals(a, b, tol) <==> Equals(b, a, tol)
  {
  }

  /** Reflecting twice about the same unit normal gives back the original vector. */
  lemma ReflectInvolution(v: Vec3, n: Vec3)
    requires IsUnit(n)
    ensures Reflect(Reflect(v, n), n) == v
  {
    var r := Reflect(v, n);
    var k := 2.0 * Dot(v, n);
    var k' := 2.0 * Dot(r, n);
    assert k' == -k;
    assert r == Sub(v, Scale(n, k));
    assert Reflect(r, n) == Sub(r, Scale(n, k'));
    assert Scale(n, k') == Vec3(-(n.x * k), -(n.y * k), -(n.z * k));
  }

  /** The square root vanishes exactly at zero. */
  lemma SqrtZero(sqrt: real -> real, s: real)
    requires IsSqrt(sqrt) && s >= 0.0
    ensures sqrt(s) == 0.0 <==> s == 0.0
  {
    if sqrt(s) != 0.0 {
      SquarePositive(sqrt(s));
    }
  }

  /** The library square root of `u * u` is `u` itself, for non-negative `u`. */
  lemma SqrtOfSquare(sqrt: real -> real, u: real)
    requires IsSqrt(sqrt) && u >= 0.0
    ensures sqrt(Square(u)) == u
  {
    var s := sqrt(Square(u));
    assert s >= 0.0 && Square(s) == Square(u);
    if s < u {
      SquareIncreasing(s, u);
    } else if u < s {
      SquareIncreasing(u, s);
    }
  }

  /** Squaring is strictly increasing on the non-negative reals. */
  lemma SquareIncreasing(p: real, q: real)
    requires 0.0 <= p < q
    ensures Square(p) < Square(q)
  {
    MulPositive(q, q - p);
    assert q * Factor(q) - p * q == q * (q - p);
    if p > 0.0 {
      MulPositive(p, q - p);
      assert p * q - p * Factor(p) == p * (q - p);
    }
  }

  /** On a vector that already has length one, the in-place normalisation is harmless. */
  lemma NormalizeAliasedOfUnit(sqrt: real -> real, a: Vec3)
    requires IsSqrt(sqrt) && IsUnit(a)
    ensures NormalizeAliased(sqrt, a) == Normalize(sqrt, a) == Some(a)
  {
    assert SumOfSquares(a) == 1.0;
    assert Square(1.0) == 1.0;
    SqrtOfSquare(sqrt, 1.0);
    assert Length(sqrt, a) == 1.0;
    var v0 := DivideAt(sqrt, a, 0);
    assert v0 == a by { assert Get(v0, 0) == Get(a, 0); }
    var v1 := DivideAt(sqrt, v0, 1);
    assert v1 == a by { assert Get(v1, 1) == Get(a, 1); }
    var v2 := DivideAt(sqrt, v1, 2);
    assert v2 == a by { assert Get(v2, 2) == Get(a, 2); }
  }

  /**
    In general the in-place normalisation does not produce a unit vector:
    for (0, 3, 4) it leaves (0, 3/5, 4/sqrt(16.36)), whose squared length is
    0.36 + 16/16.36.
   */
  lemma NormalizeAliasedNotUnit(sqrt: real -> real)
    requires IsSqrt(sqrt)
    ensures NormalizeAliased(sqrt, Vec3(0.0, 3.0, 4.0)).Some?
    ensures !IsUnit(NormalizeAliased(sqrt, Vec3(0.0, 3.0, 4.0)).value)
  {
    var a := Vec3(0.0, 3.0, 4.0);
    assert SumOfSquares(a) == Square(5.0);
    SqrtOfSquare(sqrt, 5.0);
    assert Length(sqrt, a) == 5.0;
    var v0 := DivideAt(sqrt, a, 0);
    assert v0 == a by { assert Get(v0, 0) == 0.0; }
    var v1 := DivideAt(sqrt, v0, 1);
    assert v1 == Vec3(0.0, 0.6, 4.0) by { assert Get(v1, 1) == 3.0 / 5.0; }
    var l2 := Length(sqrt, v1);
    assert Square(l2) == 16.36 by { assert SumOfSquares(v1) == 16.36; }
    var v2 := DivideAt(sqrt, v1, 2);
    assert v2 == Vec3(0.0, 0.6, 4.0 / l2) by { assert Get(v2, 2) == 4.0 / l2; }
    QuotientSquare(4.0, l2);
    var q := Square(4.0 / l2);
    assert q * 16.36 == 16.0;
    assert Dot(v2, v2) == 0.36 + q by { SumOfSquaresIsDot(v2); }
  }
}
