/**
  The per-pixel loop of raycast.c's `main`: for every pixel a primary ray from the
  origin through a point on the view plane `z = -1`, shaded by `illuminate` where it
  hits a surface, clamped and quantised to three `uint8_t` channels in a flat buffer.
 */
module Render {
  import opened Vec
  import opened Scene
  import opened Intersect
  import Shoot
  import Illuminate

  /** A `uint8_t` channel. */
  type Byte = b: int | 0 <= b < 256

  /**
    The object index primary rays exclude: the global `closestObjIndex`, which is never
    changed from its initial 0, so object 0 can never be hit by a primary ray.
   */
  const ClosestObjIndex: int := 0

  /** clamp: saturate a colour channel to `[0, 1]`. */
  function Clamp(v: real): (r: real)
    ensures 0.0 <= r <= 1.0
    ensures 0.0 <= v <= 1.0 ==> r == v
    ensures v > 1.0 ==> r == 1.0
    ensures v < 0.0 ==> r == 0.0
  {
    if v > 1.0 then 1.0
    else if v < 0.0 then 0.0
    else v
  }

  /**
    `clamp(v) * 255` stored into a `uint8_t`: the conversion truncates toward zero, which
    for a non-negative value is the floor.
   */
  function Channel(v: real): (b: Byte)
    ensures b as real <= Clamp(v) * 255.0 < b as real + 1.0
    ensures v <= 0.0 ==> b == 0
    ensures v >= 1.0 ==> b == 255
  {
    var scaled := Clamp(v) * 255.0;
    assert 0.0 <= scaled <= 255.0;
    scaled.Floor
  }

  /** A pixel's three channels, in the order the buffer stores them. */
  function Bytes(c: Vec3): (r: seq<Byte>)
    ensures |r| == 3
    ensures forall i :: 0 <= i < 3 ==> r[i] == Channel(Get(c, i))
  {
    [Channel(c.x), Channel(c.y), Channel(c.z)]
  }

  /** The camera: the size of the view window at distance 1 and of the image in pixels. */
  datatype View = View(camWidth: real, camHeight: real, imgWidth: nat, imgHeight: nat)

  /**
    The point `p` the loop aims at for pixel `(imgX, imgY)`: the pixel's centre on the
    plane `z = -1`, with `pixelWidth = camWidth / imgWidth`. Across the window it lies
    the fraction `(imgX + 0.5) / imgWidth` of the way from the left edge, and likewise
    up from the bottom edge for `imgY`.
   */
  function ViewPoint(view: View, imgX: int, imgY: int): (p: Vec3)
    requires view.imgWidth > 0 && view.imgHeight > 0
    ensures p.z == -1.0
    ensures p.x + view.camWidth / 2.0
         == view.camWidth * ((imgX as real + 0.5) / view.imgWidth as real)
    ensures p.y + view.camHeight / 2.0
         == view.camHeight * ((imgY as real + 0.5) / view.imgHeight as real)
  {
    var pixelWidth := view.camWidth / view.imgWidth as real;
    var pixelHeight := view.camHeight / view.imgHeight as real;
    Vec3(0.0 - view.camWidth / 2.0 + pixelWidth * (imgX as real + 0.5),
         0.0 - view.camHeight / 2.0 + pixelHeight * (imgY as real + 0.5),
         -1.0)
  }

  /**
    The primary ray: from the origin towards the view point, normalised in place. The
    view point has `z = -1`, so it is never zero and the direction is always defined.
   */
  function PrimaryRay(sqrt: real -> real, view: View, imgX: int, imgY: int): (ray: Ray)
    requires IsSqrt(sqrt) && view.imgWidth > 0 && view.imgHeight > 0
    ensures ray.origin == Zero
    ensures ray.direction.z < 0.0
    ensures DividedInPlace(sqrt, ViewPoint(view, imgX, imgY), ray.direction)
    ensures SameSigns(ray.direction, ViewPoint(view, imgX, imgY))
  {
    var p := ViewPoint(view, imgX, imgY);
    var d := Sub(p, Zero);
    assert d.z == -1.0;
    var n := NormalizeAliased(sqrt, d);
    assert SameSign(Get(n.value, 2), Get(d, 2));
    Ray(Zero, n.value)
  }

  /** A reported hit is on a sphere or a plane: no other kind yields a positive parameter. */
  lemma CandidateIsSurface(sqrt: real -> real, scene: seq<Object>, ray: Ray, exclude: int, i: nat)
    requires Shoot.Candidate(sqrt, scene, ray, exclude, i)
    ensures i < |scene| && IsSurface(scene[i])
  {
  }

  /**
    `tempColor` for pixel `(imgX, imgY)`: the colour `illuminate` computes at the nearest
    hit when `shoot` returns a positive parameter, black otherwise.
   */
  function PixelColor(sqrt: real -> real, scene: seq<Object>, view: View, imgX: int, imgY: int)
    : (c: Vec3)
    requires IsSqrt(sqrt) && LightsWellFormed(scene)
    requires view.imgWidth > 0 && view.imgHeight > 0
    ensures Shoot.Shoot(sqrt, scene, PrimaryRay(sqrt, view, imgX, imgY), ClosestObjIndex).t <= 0.0 ==> c == Zero
    ensures Illuminate.ColoursNonNegative(scene) ==> Illuminate.NonNegative(c)
  {
    var ray := PrimaryRay(sqrt, view, imgX, imgY);
    var hit := Shoot.Shoot(sqrt, scene, ray, ClosestObjIndex);
    if hit.t > 0.0 then
      CandidateIsSurface(sqrt, scene, ray, ClosestObjIndex, hit.hitObject);
      Illuminate.Illuminate(sqrt, scene, At(ray, hit.t), hit.hitObject)
    else Zero
  }

  /** The shading of the whole image, as a function of the pixel coordinates. */
  function Shader(sqrt: real -> real, scene: seq<Object>, view: View): (int, int) -> Vec3
    requires IsSqrt(sqrt) && LightsWellFormed(scene)
    requires view.imgWidth > 0 && view.imgHeight > 0
  {
    (imgX: int, imgY: int) => PixelColor(sqrt, scene, view, imgX, imgY)
  }

  /**
    The bytes of row `imgY` after `k` iterations of the inner loop, which visits
    `imgX = width, width - 1, ..., 1` in that order.
   */
  function Row(shade: (int, int) -> Vec3, width: nat, imgY: int, k: nat): (r: seq<Byte>)
    requires k <= width
    ensures |r| == 3 * k
  {
    if k == 0 then []
    else Row(shade, width, imgY, k - 1) + Bytes(shade(width - (k - 1), imgY))
  }

  /** The buffer after the first `rows` iterations of the outer loop. */
  function Rows(shade: (int, int) -> Vec3, width: nat, rows: nat): (r: seq<Byte>)
    ensures |r| == 3 * width * rows
  {
    if rows == 0 then []
    else
      var r := Rows(shade, width, rows - 1) + Row(shade, width, rows - 1, width);
      assert 3 * width * rows == 3 * width * (rows - 1) + 3 * width;
      r
  }

  /**
    The render loop over any shading: rows top to bottom in `imgY`, columns right to left
    in `imgX`, three bytes appended per pixel.
   */
  method Fill(shade: (int, int) -> Vec3, width: nat, height: nat) returns (image: seq<Byte>)
    ensures |image| == 3 * width * height
    ensures image == Rows(shade, width, height)
  {
    image := [];
    var imgY := 0;
    while imgY < height
      invariant 0 <= imgY <= height
      invariant image == Rows(shade, width, imgY)
    {
      var imgX := width;
      while imgX > 0
        invariant 0 <= imgX <= width
        invariant image == Rows(shade, width, imgY) + Row(shade, width, imgY, width - imgX)
      {
        var color := shade(imgX, imgY);
        image := image + [Channel(color.x), Channel(color.y), Channel(color.z)];
        imgX := imgX - 1;
      }
      imgY := imgY + 1;
    }
  }

  /**
    The pixel loop of raycast.c: every pixel shaded by a primary ray, `shoot` and
    `illuminate`. An empty image (a zero width or height) leaves the buffer empty.
   */
  method Render(sqrt: real -> real, scene: seq<Object>, view: View) returns (image: seq<Byte>)
    requires IsSqrt(sqrt) && LightsWellFormed(scene)
    ensures |image| == 3 * view.imgWidth * view.imgHeight
    ensures view.imgWidth > 0 && view.imgHeight > 0 ==>
      image == Rows(Shader(sqrt, scene, view), view.imgWidth, view.imgHeight)
  {
    if view.imgWidth == 0 || view.imgHeight == 0 {
      return [];
    }
    image := Fill(Shader(sqrt, scene, view), view.imgWidth, view.imgHeight);
  }

  // ---------------------------------------------------------------------------
  // Lemmas

  /** Clamping twice is clamping once. */
  lemma ClampIdempotent(v: real)
    ensures Clamp(Clamp(v)) == Clamp(v)
  {
  }

  /** Clamping preserves order. */
  lemma ClampMonotone(u: real, v: real)
    requires u <= v
    ensures Clamp(u) <= Clamp(v)
  {
  }

  /** A pixel whose primary ray hits nothing in front of the camera is black. */
  lemma BlackWhenMiss(sqrt: real -> real, scene: seq<Object>, view: View, imgX: int, imgY: int)
    requires IsSqrt(sqrt) && LightsWellFormed(scene)
    requires view.imgWidth > 0 && view.imgHeight > 0
    requires Shoot.Shoot(sqrt, scene, PrimaryRay(sqrt, view, imgX, imgY), ClosestObjIndex).t <= 0.0
    ensures Bytes(PixelColor(sqrt, scene, view, imgX, imgY)) == [0, 0, 0]
  {
  }

  /** Object 0 is never what a primary ray hits, whatever it is. */
  lemma ObjectZeroNeverHit(sqrt: real -> real, scene: seq<Object>, view: View, imgX: int, imgY: int)
    requires IsSqrt(sqrt) && view.imgWidth > 0 && view.imgHeight > 0
    ensures Shoot.Shoot(sqrt, scene, PrimaryRay(sqrt, view, imgX, imgY), ClosestObjIndex).hitObject != 0
  {
    var r := Shoot.Shoot(sqrt, scene, PrimaryRay(sqrt, view, imgX, imgY), ClosestObjIndex);
    if r.hitObject != -1 {
      assert Shoot.Candidate(sqrt, scene, PrimaryRay(sqrt, view, imgX, imgY), ClosestObjIndex, r.hitObject);
    }
  }

  /** Within a row, slot `j` holds the pixel of column `imgX = width - j`. */
  lemma {:induction false} RowSlot(shade: (int, int) -> Vec3, width: nat, imgY: int, j: nat, k: nat)
    requires j < k <= width
    ensures Row(shade, width, imgY, k)[3 * j .. 3 * j + 3] == Bytes(shade(width - j, imgY))
  {
    var prev := Row(shade, width, imgY, k - 1);
    assert Row(shade, width, imgY, k) == prev + Bytes(shade(width - (k - 1), imgY));
    if k == j + 1 {
      assert |prev| == 3 * j;
    } else {
      RowSlot(shade, width, imgY, j, k - 1);
      assert Row(shade, width, imgY, k)[3 * j .. 3 * j + 3] == prev[3 * j .. 3 * j + 3];
    }
  }

  /** Where pixel `(j, imgY)` falls relative to the last of `rows` rows. */
  lemma SlotArithmetic(width: nat, rows: nat, imgY: nat, j: nat)
    requires imgY < rows && j < width
    ensures 0 <= imgY * width
    ensures imgY == rows - 1 ==> 3 * (imgY * width + j) == 3 * width * (rows - 1) + 3 * j
    ensures imgY < rows - 1 ==> 3 * (imgY * width + j) + 3 <= 3 * width * (rows - 1)
  {
    var gap := rows - 1 - imgY;
    assert (rows - 1) * width == imgY * width + gap * width;
    assert 3 * width * (rows - 1) == 3 * ((rows - 1) * width);
    if gap > 0 {
      assert gap * width == width + (gap - 1) * width;
      assert (gap - 1) * width >= 0;
    }
  }

  lemma SliceLeft<T>(a: seq<T>, b: seq<T>, i: nat, n: nat)
    requires i + n <= |a|
    ensures (a + b)[i .. i + n] == a[i .. i + n]
  {
  }

  lemma SliceRight<T>(a: seq<T>, b: seq<T>, i: nat, n: nat)
    requires |a| <= i && i + n <= |a| + |b|
    ensures (a + b)[i .. i + n] == b[i - |a| .. i - |a| + n]
  {
  }

  /**
    The layout of the buffer: the three bytes from slot `3 * (imgY * width + j)` are the
    pixel shaded with `imgX = width - j` on row `imgY`.
   */
  lemma {:induction false} RowsSlot(shade: (int, int) -> Vec3, width: nat, rows: nat, imgY: nat, j: nat)
    requires imgY < rows && j < width
    ensures 3 * (imgY * width + j) + 3 <= |Rows(shade, width, rows)|
    ensures Rows(shade, width, rows)[3 * (imgY * width + j) .. 3 * (imgY * width + j) + 3]
         == Bytes(shade(width - j, imgY))
  {
    var before := Rows(shade, width, rows - 1);
    var row := Row(shade, width, rows - 1, width);
    assert Rows(shade, width, rows) == before + row;
    SlotArithmetic(width, rows, imgY, j);
    if imgY == rows - 1 {
      LastRowSlot(before, row, shade, width, rows, j);
    } else {
      var start := 3 * (imgY * width + j);
      RowsSlot(shade, width, rows - 1, imgY, j);
      SliceLeft(before, row, start, 3);
      assert Rows(shade, width, rows)[start .. start + 3] == before[start .. start + 3];
    }
  }

  /** The step of `RowsSlot` for a pixel on the row appended last. */
  lemma LastRowSlot(before: seq<Byte>, row: seq<Byte>, shade: (int, int) -> Vec3, width: nat, rows: nat, j: nat)
    requires 0 < rows && j < width
    requires |before| == 3 * width * (rows - 1) && row == Row(shade, width, rows - 1, width)
    ensures (before + row)[|before| + 3 * j .. |before| + 3 * j + 3] == Bytes(shade(width - j, rows - 1))
  {
    RowSlot(shade, width, rows - 1, j, width);
    SliceRight(before, row, |before| + 3 * j, 3);
  }

  /**
    The first column the loop samples, `imgX = imgWidth` (the loop counts down), lies
    outside the view window: its point is half a pixel beyond the right edge `camWidth / 2`.
   */
  lemma ViewPointBeyondEdge(view: View, imgY: int)
    requires view.imgWidth > 0 && view.imgHeight > 0 && view.camWidth > 0.0
    ensures ViewPoint(view, view.imgWidth, imgY).x > view.camWidth / 2.0
  {
    var w := view.imgWidth as real;
    var pw := view.camWidth / w;
    assert ViewPoint(view, view.imgWidth, imgY).x == 0.0 - view.camWidth / 2.0 + pw * (w + 0.5);
    assert pw * w == view.camWidth;
    assert pw > 0.0;
    assert pw * (w + 0.5) == view.camWidth + pw * 0.5;
  }

  /**
    Every column from 0 to `imgWidth - 1` samples strictly inside the view window. The
    loop visits columns 1 to `imgWidth` instead, so it skips the leftmost column and
    its first pixel lies outside the window.
   */
  lemma ViewPointInside(view: View, imgX: int, imgY: int)
    requires view.imgWidth > 0 && view.imgHeight > 0 && view.camWidth > 0.0
    requires 0 <= imgX < view.imgWidth
    ensures -view.camWidth / 2.0 < ViewPoint(view, imgX, imgY).x < view.camWidth / 2.0
  {
    var w := view.imgWidth as real;
    var pw := view.camWidth / w;
    var c := imgX as real + 0.5;
    assert ViewPoint(view, imgX, imgY).x == 0.0 - view.camWidth / 2.0 + pw * c;
    assert pw * w == view.camWidth;
    assert pw > 0.0;
    assert 0.0 < c < w;
    assert 0.0 < pw * c by { MulPositive(pw, c); }
    assert pw * c < pw * w by { MulPositive(pw, w - c); }
  }
}
