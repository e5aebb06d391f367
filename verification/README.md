# Ray caster model

A Dafny model of the core of a small C ray caster: the three-component vector library
(`v3math.c`) and the rendering part of `raycast.c`. A camera sits at the origin looking
down the negative z axis. For every pixel, a primary ray goes through the pixel's point on
the view plane `z = -1`.

- `shoot` finds the nearest sphere or plane the ray hits.
- `illuminate` sums the diffuse light of every light that is not shadowed.
- Each colour channel is clamped to `[0, 1]`, scaled by 255 and stored as a `uint8_t`,
  three slots per pixel.

Modules, in dependency order:

- `Options`: `Option`, which stands for a NaN result.
- `Vec`: `v3math.c` on immutable `Vec3` values.
- `V3Arrays`: the same operations on three-element arrays, including what they do when
  the destination aliases an argument.
- `Scene`: the object kinds of `raycast.h`, and rays.
- `Intersect`: `getPlaneIntersection` and `getSphereIntersection`.
- `Shoot`: `shoot`.
- `Illuminate`: `illuminate`.
- `Render`: `clamp` and the pixel loop.

Modelling choices:

- **Floats are `real`.**
- **`sqrt` is a parameter.** It is any function satisfying `IsSqrt`: non-negative, and its
  square gives back its argument.
- **Undefined results are `Option`.** Normalising the zero vector, which divides by zero in
  C, gives `None`.
- **No hit is `-1.0` (`NoHit`).**

The model follows the code as written, including its quirks.

- `getPlaneIntersection` computes the offset `d` as `N·(O − P)` and then adds `N·O` again.
  So its parameter names a point of the plane exactly when `N·O = 0`, for example for rays
  from the origin, which is where primary rays start. Shadow rays start on a surface, and
  for them the parameter is off by `N·O / N·D` (`PlaneTOnPlane`, `PlaneHitFromOrigin`,
  `PlaneOffsetFromAnyOrigin`).
- `v3_normalize(v, v)` updates `v` one component at a time. Later components are therefore
  divided by the length of an already modified vector, and the result is generally not a
  unit vector (`NormalizeAliased`, `NormalizeAliasedNotUnit`). Every direction in the
  pixel loop and in `illuminate` is normalised that way.
- `getSphereIntersection` takes `a = 1`, which is right only for a unit direction. The
  directions it is given are normalised in place and so are in general not unit vectors.
  The lemmas that assume a unit direction (`OnSphereIffRoot`, `SphereHitIsNearest`,
  `SphereMiss`, and the miss half of `NoRoot`) therefore do not cover the rays the
  program actually casts. For those rays the roots are in general not the parameters where the ray meets
  the sphere. From the centre the coefficients do not depend on the direction, so
  `SphereFromCentre` holds for every direction. A shorter-than-unit direction can make
  the discriminant negative for a sphere the ray does meet (`NonUnitMissedHit`,
  `UnitAboveCentre`). Directions normalised in place can be shorter than unit: `(0, 0.3,
  0.4)` normalised in place has `D·D` about 0.67.
- The shadow test skips a light when some candidate's computed parameter is positive and
  below the light distance. The parameters are those of the two quirks above, so the test
  can report a plane behind the point (`PlaneBehindReported`) and miss a sphere in front
  of it (`NonUnitMissedHit`).
- The diffuse gate `N·L > 0` is taken on `N` and `L` normalised in place, so its sign can
  differ from that of the true `N·L`. For `n = (1, −0.9, 0)` and `l = (1, 1, 0)` the true
  `N·L` is `0.1`, but after normalising in place it is about `−0.10`.
- Primary rays exclude object index 0, because `closestObjIndex` is never changed from 0
  (`ObjectZeroNeverHit`).
- The pixel loop visits columns `imgWidth` down to 1, so its first sample lies outside the
  view window (`ViewPointBeyondEdge`, `ViewPointInside`).
- The specular term is computed but never added to the colour (`IgnoresSpecular`).

## Model

| member | source | states |
|---|---|---|
| Vec.Square | v3math.c:60 | `pow(u, 2)` is never negative |
| Vec.SquarePositive | v3math.c:60 | the square of a non-zero value is positive |
| Vec.SumOfSquares | v3math.c:59-62 | the radicand of `v3_length` is non-negative |
| Vec.SumOfSquaresZero | v3math.c:59-62 | the radicand is zero exactly for the zero vector |
| Vec.SumOfSquaresIsDot | v3math.c:59-62 | the radicand equals the vector's dot product with itself |
| Vec.Add | v3math.c:8-12 | subtracting `b` from `a + b` gives back `a` |
| Vec.Sub | v3math.c:83-87 | the difference is zero exactly when the two vectors are equal |
| Vec.FromPoints | v3math.c:53-57 | the vector from `head` to `tail` added to `head` reaches `tail` |
| Vec.Scale | v3math.c:77-81 | scaling by 0 gives zero; scaling by a non-zero `s` is undone by dividing by `s` |
| Vec.Cross | v3math.c:29-33 | the cross product is orthogonal to both arguments |
| Vec.DotSymmetric | v3math.c:35-38 | the dot product is symmetric |
| Vec.DotAddLeft | v3math.c:35-38 | the dot product distributes over a sum on the left |
| Vec.DotAddRight | v3math.c:35-38 | the dot product distributes over a sum on the right |
| Vec.DotScaleLeft | v3math.c:35-38 | scaling the left argument scales the dot product |
| Vec.DotScaleRight | v3math.c:35-38 | scaling the right argument scales the dot product |
| Vec.EqualsFrom | v3math.c:45-50 | the loop from index `i` succeeds exactly when every remaining component of `b` is within the tolerance of `a` |
| Vec.Equals | v3math.c:42-51 | `v3_equals` holds exactly when every component of `b` lies in `[a - tol, a + tol]` |
| Vec.EqualsReflexive | v3math.c:42-51 | with a non-negative tolerance, every vector equals itself |
| Vec.EqualsSymmetric | v3math.c:42-51 | the tolerance comparison is symmetric |
| Vec.Length | v3math.c:59-62 | the length is non-negative, its square is the dot product of the vector with itself, and it is zero only for the zero vector |
| Vec.SqrtZero | v3math.c:60 | the square root is zero exactly for zero |
| Vec.SqrtOfSquare | v3math.c:60 | the square root of the square of a non-negative value is that value |
| Vec.Normalize | v3math.c:64-68 | into a separate destination: defined exactly for non-zero vectors, the result is a unit vector, and scaling it by the length gives back the input |
| Vec.DivideByLength | v3math.c:64-68 | dividing a non-zero vector by its length gives a unit vector that scales back to the input |
| Vec.DivideBySquareRoot | v3math.c:64-68 | dividing by any positive root of the radicand gives a unit vector that scales back to the input |
| Vec.DivideAt | v3math.c:65-67 | one in-place step divides component `i` by the current length, leaves the others alone, keeps every sign, and keeps the vector non-zero |
| Vec.NormalizeAliased | v3math.c:64-68 | in place: defined exactly for non-zero vectors; every component keeps its sign; the first component is the input's divided by the input's length, the second times the length of the array with the first already rewritten gives back the input's second, and the third likewise with the first two rewritten |
| Vec.InPlaceSteps | v3math.c:65-67 | the three statements run one after the other on one array divide each component by the length of the array as the earlier statements left it, and keep every sign |
| Vec.NormalizeAliasedOfUnit | v3math.c:64-68 | on a unit vector both forms of normalisation return the vector unchanged |
| Vec.NormalizeAliasedNotUnit | v3math.c:64-68 | normalising `(0, 3, 4)` in place does not give a unit vector |
| Vec.Reflect | v3math.c:70-75 | for a unit normal, the reflection negates the component along the normal and keeps the squared length |
| Vec.ReflectUnit | v3math.c:70-75 | `v - 2(v·n)n` has these two properties for every unit `n` |
| Vec.ReflectInvolution | v3math.c:70-75 | reflecting twice in a unit normal gives back the original vector |
| V3Arrays.V3Length | v3math.c:59-62 | the array routine returns the modelled length of the array's contents |
| V3Arrays.V3Scale | v3math.c:77-81 | the destination afterwards holds its old contents scaled |
| V3Arrays.V3Subtract | v3math.c:83-87 | the destination holds the difference of the old arguments, even when it aliases one of them |
| V3Arrays.V3Normalize | v3math.c:64-68 | with a separate destination the result is `Normalize`; with `dst == a` it is `NormalizeAliased` |
| V3Arrays.V3Reflect | v3math.c:70-75 | the destination holds the reflection; unless it aliases `n`, the array `n` is left scaled by `2(v·n)` |
| Scene.Kind | raycast.h:5-9 | each object kind maps to its `#define` code, and back |
| Intersect.PlaneIntersection | raycast.c:94-113 | no hit when the ray is parallel to the plane; otherwise the computed parameter if it is non-negative, and no hit if it is negative |
| Intersect.PlaneT | raycast.c:99-103 | the computed parameter solves `t (N·D) = N·P − 2 N·O`, where the plane equation asks for `N·P − N·O` |
| Intersect.PlaneTOnPlane | raycast.c:99-103 | the point at the computed parameter is off the plane by `−N·O` along the normal, so it is on the plane exactly when `N·O = 0` |
| Intersect.PlaneBehindReported | raycast.c:94-113 | from `(0, 0, −1)` along `+z`, the plane `z = −1.5` behind the origin is reported at parameter `0.5`, though no point ahead of the origin is on it |
| Intersect.PlaneHitFromOrigin | raycast.c:94-113 | when `N·O = 0` (a ray from the origin in particular), the result is `t` exactly when the point at `t` lies on the plane |
| Intersect.PlaneOffsetFromAnyOrigin | raycast.c:99-103 | from any origin, the point on the plane is at the computed parameter plus `N·O / N·D` |
| Intersect.DotAlongRay | raycast.c:102-103 | `N·(O + tD − P)` is affine in `t` |
| Intersect.SphereIntersection | raycast.c:116-171 | no hit when the discriminant is negative or both roots are non-positive; otherwise the smaller positive root |
| Intersect.Roots | raycast.c:143-144 | the two roots sum to `−b`, and with a true square root `t0 <= t1` |
| Intersect.Vieta | raycast.c:143-144 | the two roots sum to `−b`; with a true square root they are ordered and multiply to `c` |
| Intersect.OnSphereIffRoot | raycast.c:128-137 | for a unit direction, the point at `t` is on the sphere exactly when `t` solves `t² + bt + c = 0` |
| Intersect.SumOfSquaresAlong | raycast.c:132-135 | the squared distance along the ray is a quadratic in `t` |
| Intersect.QuadraticRoots | raycast.c:143-144 | the two roots are ordered and are the only solutions |
| Intersect.Factorization | raycast.c:137-144 | with a non-negative discriminant, `t` is a root exactly when it is `t0` or `t1`, and `t0 <= t1` |
| Intersect.NoRoot | raycast.c:137-140 | with a negative discriminant `t² + bt + c` has no root; for a unit direction the ray then never meets the sphere |
| Intersect.SphereHitIsNearest | raycast.c:116-171 | for a unit direction, a reported hit is on the sphere and no positive parameter is nearer; no hit means no positive parameter is on the sphere |
| Intersect.CentreCoefficients | raycast.c:129-135 | from the centre, `b` is 0 and `c` is minus the squared radius |
| Intersect.CentreScalar | raycast.c:137-144 | with `b = 0` and `c = −r²` the discriminant is `(2r)²` and the two roots are `−r` and `r` |
| Intersect.CentreRoots | raycast.c:128-144 | from the centre of a sphere of positive radius, the discriminant is non-negative and the roots are minus and plus the radius |
| Intersect.SphereFromCentre | raycast.c:116-171 | a ray from the centre, in any direction, hits at exactly the radius |
| Intersect.SphereMiss | raycast.c:137-140 | for a unit direction, a ray whose line passes farther from the centre than the radius misses |
| Intersect.NonUnitMissedHit | raycast.c:128-140 | with the shorter-than-unit direction `(0, 0, −0.5)` from the origin, the sphere of radius 1 at `(0, 0, −5)` has a negative discriminant and no hit is reported, although the ray is at the sphere point `(0, 0, −4)` at `t = 8` |
| Shoot.Scan | raycast.c:312-349 | after `n` iterations, the held index is one of the first `n` objects |
| Shoot.HitT | raycast.c:323-347 | the parameter of an object is `-1` or non-negative, and `-1` for anything that is not a sphere or a plane |
| Shoot.ScanNearest | raycast.c:312-349 | after `n` iterations the scan holds the nearest candidate among the first `n`, the earliest on a tie, and nothing exactly when none is a candidate |
| Shoot.Shoot | raycast.c:305-356 | `-1`/`-1` exactly when no object other than cameras and the excluded one is hit ahead; otherwise the unique nearest object and its parameter |
| Shoot.ShootLoop | raycast.c:305-356 | the loop with `closestT` starting at infinity returns the nearest candidate, or -1 and -1 when there is none |
| Shoot.NearestUnique | raycast.c:331-346 | at most one object is nearest under the strict `t < closestT` update |
| Shoot.ShootIsNearest | raycast.c:305-356 | whichever object is nearest is the one `shoot` reports |
| Shoot.HitTGeometry | raycast.c:323-347 | the parameter of an object depends only on its shape |
| Shoot.ShootGeometryOnly | raycast.c:305-356 | scenes with the same shapes give the same hit, whatever their colours, lights and cameras |
| Shoot.ScanGeometryOnly | raycast.c:312-349 | the scan depends only on the parameters of the objects |
| Shoot.ShootExcludedIrrelevant | raycast.c:318-321 | replacing the excluded object with anything never changes the result |
| Shoot.ScanExcludedIrrelevant | raycast.c:318-321 | the scan never looks at the excluded index |
| Illuminate.Sample | raycast.c:187-222 | the light distance is non-negative, squares to the squared length of `L` and is zero exactly at the light; the shadow parameter is a hit or -1; `N·L` exists exactly when the point is not at the light and the surface normal is non-zero |
| Illuminate.Samples | raycast.c:180-222 | one sample per object, each with a non-negative distance that is positive wherever `N·L` exists |
| Illuminate.SurfaceNormal | raycast.c:209-219 | for a sphere the normal leads from the centre to the point; for a plane it is the plane's normal; otherwise it is zero |
| Illuminate.BlockedIffOccluder | raycast.c:196-207 | a light is skipped exactly when some non-excluded candidate's computed parameter along the shadow ray is positive and below the light distance |
| Illuminate.Diffuse | raycast.c:222-235 | zero unless `N·L > 0`; otherwise each channel is surface diffuse times light colour times `N·L` |
| Illuminate.Contribution | raycast.c:184-293 | zero for non-lights, shadowed lights and `N·L <= 0`; otherwise the diffuse term times the radial attenuation, channel by channel |
| Illuminate.RadialAttenuation | raycast.c:259-261 | the attenuation is positive and is the reciprocal of `a0 + a1 d + (a2 d)²` |
| Illuminate.DenominatorPositive | raycast.c:259-261 | for a light with `a0, a1 >= 0` and some coefficient non-zero, the denominator is positive at every positive distance, and at distance 0 when `a0 > 0` |
| Illuminate.Accumulate | raycast.c:290-293 | the running sum stays zero while every light so far is shadowed, and stays non-negative under non-negative colours |
| Illuminate.Illuminate | raycast.c:174-301 | the colour is black when every light is shadowed (so also when there is no light), and non-negative when the surface and light colours are |
| Illuminate.DenominatorBound | raycast.c:259-261 | for a light with `a0 > 0`, the denominator is at least `a0` at every non-negative distance |
| Illuminate.AttenuationBounds | raycast.c:259-261 | for a light with `a0 > 0`, the attenuation lies in `(0, 1/a0]` and equals `1/a0` at distance 0 |
| Illuminate.AttenuationDecreasing | raycast.c:259-261 | the attenuation never increases with distance |
| Illuminate.ContributionNonNegative | raycast.c:224-235 | non-negative colours give a non-negative contribution |
| Illuminate.SameLights | raycast.c:184 | scenes differing only in specular colours have the same lights at the same indices |
| Illuminate.SpecularGeometry | raycast.c:237-255 | specular colours do not change any shape `shoot` sees |
| Illuminate.SampleIgnoresSpecular | raycast.c:187-222 | a light's sample does not depend on specular colours |
| Illuminate.SamplesIgnoreSpecular | raycast.c:180-222 | neither does any sample |
| Illuminate.AccumulateSameLights | raycast.c:290-293 | the sum depends only on the lights and the samples |
| Illuminate.IgnoresSpecular | raycast.c:244-293 | changing specular colours never changes the illuminated colour, because the specular term is not added |
| Render.Clamp | raycast.c:17-21 | the result lies in `[0, 1]`, is the identity inside it, and saturates to 1 above and 0 below |
| Render.ClampIdempotent | raycast.c:17-21 | clamping twice is clamping once |
| Render.ClampMonotone | raycast.c:17-21 | clamping preserves order |
| Render.Channel | raycast.c:877-879 | the stored byte is the integer part of `clamp(v) * 255`: 0 for `v <= 0` and 255 for `v >= 1` |
| Render.Bytes | raycast.c:876-881 | a pixel is three consecutive channels in x, y, z order |
| Render.PrimaryRay | raycast.c:837-845 | the primary ray starts at the origin and points into `z < 0`; its direction is the pixel's view point normalised in place (each component divided by the length of the array as the earlier statements left it), with every component's sign kept |
| Render.ViewPoint | raycast.c:837-839 | the sampled point is on the plane `z = −1`, at `(imgX + 0.5) / imgWidth` of the view width from its left edge and `(imgY + 0.5) / imgHeight` of its height from its bottom edge |
| Render.CandidateIsSurface | raycast.c:856-862 | the object `shoot` reports is a sphere or a plane, as `illuminate` needs |
| Render.PixelColor | raycast.c:850-874 | black when `shoot` reports no positive parameter; non-negative when every surface and light colour is |
| Render.BlackWhenMiss | raycast.c:850-879 | a pixel whose `shoot` result is not positive is stored as `(0, 0, 0)` |
| Render.ObjectZeroNeverHit | raycast.c:850 | a primary ray never reports object 0 |
| Render.Row | raycast.c:835-882 | after `k` iterations of the inner loop the row holds `3k` slots |
| Render.Rows | raycast.c:833-883 | after `rows` iterations of the outer loop the buffer holds `3 · imgWidth · rows` slots |
| Render.Fill | raycast.c:833-883 | the loop writes exactly `3 · imgWidth · imgHeight` slots, row by row, right to left |
| Render.Render | raycast.c:833-883 | the buffer has `imgWidth · imgHeight · 3` slots, filled with the shaded pixels in loop order |
| Render.RowSlot | raycast.c:876-881 | slot `3j` of a row holds the pixel of column `imgWidth - j` |
| Render.RowsSlot | raycast.c:833-883 | slots `3(imgY · imgWidth + j)` to `+2` hold the pixel `(imgWidth - j, imgY)`, and lie inside the buffer |
| Render.ViewPointBeyondEdge | raycast.c:835-837 | the first column the loop samples, `imgX = imgWidth`, lies beyond the right edge of the view window |
| Render.ViewPointInside | raycast.c:837 | every column from 0 to `imgWidth - 1` samples strictly inside the view window |

## Left out

- Scene-file parsing (raycast.c:459-808), argument checks and `help` (raycast.c:29-46, 385-402) and `displayObjects` (raycast.c:48-91): input handling. The scene is a parameter, as are the camera size and image size (`View`).
- The PPM writer (raycast.c:885-898): file output. Its loop starts at index `w·h·3`, one past the end of the buffer.
- `v3_angle` and `v3_angle_quick` (v3math.c:14-27): they use `acosf` and `printf`, and nothing in the core calls them.
- The specular term (raycast.c:237-255): `pow(vDotr, 20)` is never added to the colour, so the model omits it. `IgnoresSpecular` shows the colour does not depend on specular colours. The block's one side effect changes nothing later: `v3_reflect(R, L, normal)` at raycast.c:241 rescales `normal`, but `normal` is not read after that line and is declared afresh on each iteration, and `R` and `V` never reach `color`.
- `cosTheta` (raycast.c:182) and the commented-out angular attenuation (raycast.c:264-288): they are not part of the computation.
- Floating-point rounding, infinities and NaN: reals are exact. `Option` stands for a NaN result, and `NoHit` stands for the `-1` sentinel.
- `sqrt` and `pow`: `sqrt` is a parameter constrained by `IsSqrt`, and `pow(x, 2)` is `Square`.
- Illuminate.Illuminate: requires the object at `closestObj` to be a sphere or a plane. Its only caller passes an object `shoot` reported, which always is one (`CandidateIsSurface`).
- Illuminate.RadialAttenuation: requires the light to have `radialA0 >= 0`, `radialA1 >= 0` and not all three coefficients zero (`WellFormedLight`), and a positive distance unless `radialA0 > 0`. Negative coefficients can make the denominator zero at some positive distance, where the C code divides by zero. The C code divides whatever the values are.
- Illuminate.Contribution: a point exactly at a light with `radialA0 = 0` gives a zero denominator in C, so its contribution there is `0 · ∞`, a NaN. The model has no contribution there, because `N·L` does not exist at the light.
- Illuminate.Illuminate: requires every light of the scene to be well-formed in the sense above (`LightsWellFormed`).
- Render.PixelColor: requires every light of the scene to be well-formed (`LightsWellFormed`), as `Illuminate.Illuminate` does.
- Render.Render: requires every light of the scene to be well-formed (`LightsWellFormed`), for the same reason.
- Intersect.PlaneIntersection: a ray parallel to the plane gives `-1`. In the C the quotient is ±∞ or NaN, so `getPlaneIntersection` returns `-1` (for −∞), +∞ or NaN. `shoot` rejects all three, because `t > 0 && t < closestT` fails for each.
- V3Arrays.V3Normalize: requires a non-zero input. For the zero vector the C code divides by zero.
- V3Arrays.V3Reflect: requires `v` and `n` to be distinct arrays. The only call site, raycast.c:241, passes distinct arrays; with `v == n` the C result is the zero vector.
- Render.Render: image sizes are natural numbers. `atoi` can yield a negative size, and the C code then allocates a buffer from a negative count.
