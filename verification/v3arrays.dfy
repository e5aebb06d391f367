/**
  The v3math.c routines on `float[3]` arrays, statement by statement, where the
  difference from the value functions of module Vec matters: the routines that write
  into an argument that may alias another one.
 */
module V3Arrays {
  import opened Options
  import opened Vec

  /** The vector held by a three-element array. */
  function ToVec(a: array<real>): Vec3
    requires a.Length == 3
    reads a
  {
    Vec3(a[0], a[1], a[2])
  }

  /** v3_length. */
  method V3Length(sqrt: real -> real, a: array<real>) returns (length: real)
    requires IsSqrt(sqrt) && a.Length == 3
    ensures length == Length(sqrt, ToVec(a))
  {
    length := sqrt(Square(a[0]) + Square(a[1]) + Square(a[2]));
  }

  /** v3_scale: multiplies `dst` by `s` in place and touches nothing else. */
  method V3Scale(dst: array<real>, s: real)
    requires dst.Length == 3
    modifies dst
    ensures ToVec(dst) == Scale(old(ToVec(dst)), s)
  {
    dst[0] := dst[0] * s;
    dst[1] := dst[1] * s;
    dst[2] := dst[2] * s;
  }

  /** v3_subtract; each component is read before it is written, so any aliasing is harmless. */
  method V3Subtract(dst: array<real>, a: array<real>, b: array<real>)
    requires dst.Length == 3 && a.Length == 3 && b.Length == 3
    modifies dst
    ensures ToVec(dst) == Sub(old(ToVec(a)), old(ToVec(b)))
  {
    dst[0] := a[0] - b[0];
    dst[1] := a[1] - b[1];
    dst[2] := a[2] - b[2];
  }

  /**
    v3_normalize. With distinct arrays it writes `a / |a|`; called in place it divides
    each component by the length of the partly rewritten array.
   */
  method V3Normalize(sqrt: real -> real, dst: array<real>, a: array<real>)
    requires IsSqrt(sqrt) && dst.Length == 3 && a.Length == 3
    requires ToVec(a) != Zero
    modifies dst
    ensures dst == a ==> Some(ToVec(dst)) == NormalizeAliased(sqrt, old(ToVec(a)))
    ensures dst != a ==> Some(ToVec(dst)) == Normalize(sqrt, old(ToVec(a)))
  {
    ghost var a0 := ToVec(a);
    var length := V3Length(sqrt, a);
    dst[0] := a[0] / length;
    if dst == a {
      ghost var v0 := DivideAt(sqrt, a0, 0);
      assert ToVec(a) == v0;
      length := V3Length(sqrt, a);
      dst[1] := a[1] / length;
      ghost var v1 := DivideAt(sqrt, v0, 1);
      assert ToVec(a) == v1;
      length := V3Length(sqrt, a);
      dst[2] := a[2] / length;
      assert ToVec(dst) == DivideAt(sqrt, v1, 2);
    } else {
      length := V3Length(sqrt, a);
      dst[1] := a[1] / length;
      length := V3Length(sqrt, a);
      dst[2] := a[2] / length;
      assert ToVec(a) == a0;
    }
  }

  /**
    v3_reflect. `dst` receives `v - 2(v.n)n`, but on the way `n` itself is scaled by
    `2(v.n)`: the routine's `temp2` is the caller's `n`, not a copy.
   */
  method V3Reflect(dst: array<real>, v: array<real>, n: array<real>)
    requires dst.Length == 3 && v.Length == 3 && n.Length == 3
    requires v != n
    modifies dst, n
    ensures ToVec(dst) == Reflect(old(ToVec(v)), old(ToVec(n)))
    ensures dst != n ==> ToVec(n) == Scale(old(ToVec(n)), 2.0 * Dot(old(ToVec(v)), old(ToVec(n))))
  {
    var temp := 2.0 * Dot(ToVec(v), ToVec(n));
    var temp2 := n;
    V3Scale(temp2, temp);
    V3Subtract(dst, v, temp2);
  }
}
