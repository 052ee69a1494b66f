/** The single-image helpers of image.py: `crop_image` (a numpy slice of the
    image by a rounded `xyxy` box), `resize_image` (scaling both sides by one
    factor) and `place_image` (pasting an image into a scene buffer in place,
    clipped to the scene). */
module Single {
  import opened Common
  import opened Rasters
  import opened Letterbox

  /** `np.round` of one coordinate: the nearest integer, ties to the even
      one. */
  function Round(v: real): (n: int)
    ensures -1.0 / 2.0 <= n as real - v <= 1.0 / 2.0
    ensures (n as real - v == 1.0 / 2.0 || v - n as real == 1.0 / 2.0) ==> n % 2 == 0
  {
    var f := v.Floor;
    var d := v - f as real;
    if d < 1.0 / 2.0 then f
    else if d > 1.0 / 2.0 then f + 1
    else if f % 2 == 0 then f else f + 1
  }

  /** A whole number rounds to itself. */
  lemma RoundWhole(n: int)
    ensures Round(n as real) == n
  {
  }

  /** The elements `[lo, hi)` a Python slice `[s:e]` of a sequence of length
      `len` selects: a negative bound counts from the end, bounds are clipped
      to the sequence, and an end before the start selects nothing. */
  function SliceBounds(len: nat, s: int, e: int): (b: (nat, nat))
    ensures b.0 <= b.1 <= len
    ensures 0 <= s <= e <= len ==> b == (s, e)
    ensures s < 0 <= s + len ==> b.0 == s + len
  {
    var lo := if s < 0 then Max(s + len, 0) else Min(s, len);
    var hi := if e < 0 then Max(e + len, 0) else Min(e, len);
    (lo, Max(lo, hi))
  }

  /** `crop_image(image, xyxy)`: `image[y1:y2, x1:x2]` after rounding the box
      `(x1, y1, x2, y2)` to integers. */
  function CropImage(img: Raster, box: (real, real, real, real)): (r: Raster)
    requires img.Valid()
    ensures r.Valid()
    ensures var ys := SliceBounds(img.height, Round(box.1), Round(box.3));
      var xs := SliceBounds(img.width, Round(box.0), Round(box.2));
      && r.height == ys.1 - ys.0 && r.width == xs.1 - xs.0
      && forall y, x :: 0 <= y < r.height && 0 <= x < r.width ==> r.pix[y][x] == img.pix[ys.0 + y][xs.0 + x]
  {
    var ys := SliceBounds(img.height, Round(box.1), Round(box.3));
    var xs := SliceBounds(img.width, Round(box.0), Round(box.2));
    Raster(ys.1 - ys.0, xs.1 - xs.0,
      seq(ys.1 - ys.0, y requires 0 <= y < ys.1 - ys.0 => img.pix[ys.0 + y][xs.0 .. xs.1]))
  }

  /** A whole-number box inside the image crops exactly the
      `(y2 - y1) x (x2 - x1)` rectangle at `(x1, y1)`. */
  lemma CropInside(img: Raster, x1: int, y1: int, x2: int, y2: int)
    requires img.Valid()
    requires 0 <= x1 <= x2 <= img.width && 0 <= y1 <= y2 <= img.height
    ensures var r := CropImage(img, (x1 as real, y1 as real, x2 as real, y2 as real));
      && r.height == y2 - y1 && r.width == x2 - x1
      && forall y, x :: 0 <= y < r.height && 0 <= x < r.width ==> r.pix[y][x] == img.pix[y1 + y][x1 + x]
  {
    RoundWhole(x1);
    RoundWhole(y1);
    RoundWhole(x2);
    RoundWhole(y2);
  }

  /** A box that sticks out past the left edge is not clipped: the negative
      `x1` counts from the right edge, so a box no wider than the image
      whose right edge lies inside it crops to an empty image. */
  lemma CropLeftOverhangIsEmpty(img: Raster, x1: int, y1: real, x2: int, y2: real)
    requires img.Valid()
    requires x1 < 0 <= x1 + img.width && 0 <= x2 && x2 - x1 <= img.width
    ensures CropImage(img, (x1 as real, y1, x2 as real, y2)).width == 0
  {
    RoundWhole(x1);
    RoundWhole(x2);
  }

  /** `resize_image(image, scale_factor)`: a non-positive factor is a
      `ValueError`; otherwise each side is `int(side * factor)` and the image
      is resampled to that size (which OpenCV refuses when a side comes out
      zero). */
  function ResizeImage(img: Raster, factor: real): (r: Result<Raster>)
    requires img.Valid()
    ensures factor <= 0.0 ==> r == Failure(InvalidScaleFactor)
    ensures r.Failure? && r.error == InvalidScaleFactor ==> factor <= 0.0
    ensures r.Success? <==>
      factor > 0.0 && img.height as real * factor >= 1.0 && img.width as real * factor >= 1.0
    ensures r.Failure? ==> r.error == InvalidScaleFactor || r.error == ResizeFailed
    ensures r.Success? ==>
      && r.value.Valid()
      && r.value.height as real <= img.height as real * factor < (r.value.height + 1) as real
      && r.value.width as real <= img.width as real * factor < (r.value.width + 1) as real
  {
    if factor <= 0.0 then Failure(InvalidScaleFactor)
    else
      var nw := (img.width as real * factor).Floor;
      var nh := (img.height as real * factor).Floor;
      CvResize(img, nh, nw)
  }

  /** A factor of at least one never fails on a non-empty image and never
      shrinks it; a factor of one keeps the size. */
  lemma ResizeGrows(img: Raster, factor: real)
    requires img.Valid() && img.height > 0 && img.width > 0 && factor >= 1.0
    ensures ResizeImage(img, factor).Success?
    ensures ResizeImage(img, factor).value.height >= img.height
    ensures ResizeImage(img, factor).value.width >= img.width
    ensures factor == 1.0 ==>
      ResizeImage(img, factor).value.height == img.height && ResizeImage(img, factor).value.width == img.width
  {
    var h, w := img.height as real, img.width as real;
    assert h * factor >= h >= 1.0 && w * factor >= w >= 1.0;
    var r := ResizeImage(img, factor);
    assert r.Success?;
    assert (r.value.height + 1) as real > h && (r.value.width + 1) as real > w;
  }

  /** The slices `place_image` computes: the scene window
      `[startY, endY) x [startX, endX)` and the part of the image
      `[cropStartY, cropEndY) x [cropStartX, cropEndX)` copied into it. */
  datatype Window = Window(
    startY: nat, endY: nat, startX: nat, endX: nat,
    cropStartY: nat, cropEndY: nat, cropStartX: nat, cropEndX: nat)

  /** Scene pixel `(y, x)` lies under the image placed with its top-left
      corner at `(ax, ay)`. */
  predicate Covered(ih: nat, iw: nat, ax: int, ay: int, y: int, x: int)
  {
    ay <= y < ay + ih && ax <= x < ax + iw
  }

  /** The window of a `ih x iw` image placed at `(ax, ay)` on a `sh x sw`
      scene, or nothing when the image lies wholly outside the scene. */
  function PlacementWindow(sh: nat, sw: nat, ih: nat, iw: nat, ax: int, ay: int): (w: Option<Window>)
    ensures w.None? <==> ax + iw <= 0 || ax >= sw || ay + ih <= 0 || ay >= sh
    ensures w.Some? ==>
      && w.value.startY <= w.value.endY <= sh && w.value.startX <= w.value.endX <= sw
      && w.value.cropStartY <= w.value.cropEndY <= ih && w.value.cropStartX <= w.value.cropEndX <= iw
  {
    if ax + iw <= 0 || ax >= sw || ay + ih <= 0 || ay >= sh then None
    else
      Some(Window(
        Max(ay, 0), Min(sh, ay + ih), Max(ax, 0), Min(sw, ax + iw),
        Max(-ay, 0), ih - Max(ay + ih - sh, 0), Max(-ax, 0), iw - Max(ax + iw - sw, 0)))
  }

  /** The two slices have the same extent, so the slice assignment is
      well-formed, and scene pixel `(y, x)` of the window receives image
      pixel `(y - ay, x - ax)`; the window is exactly the covered part of
      the scene, and an image outside the scene covers nothing. */
  lemma WindowIsCoverage(sh: nat, sw: nat, ih: nat, iw: nat, ax: int, ay: int)
    ensures var w := PlacementWindow(sh, sw, ih, iw, ax, ay);
      w.Some? ==>
        && w.value.endY - w.value.startY == w.value.cropEndY - w.value.cropStartY
        && w.value.endX - w.value.startX == w.value.cropEndX - w.value.cropStartX
        && w.value.cropStartY == w.value.startY - ay && w.value.cropStartX == w.value.startX - ax
    ensures forall y, x :: 0 <= y < sh && 0 <= x < sw ==>
      (Covered(ih, iw, ax, ay, y, x) <==>
        var w := PlacementWindow(sh, sw, ih, iw, ax, ay);
        w.Some? && w.value.startY <= y < w.value.endY && w.value.startX <= x < w.value.endX)
  {
  }

  /** `place_image(scene, image, anchor)`: copies the visible part of the
      image into the scene buffer, in place; every pixel the image covers
      takes the image's colour and every other pixel keeps its own. */
  method PlaceImage(scene: array2<Color>, image: Raster, ax: int, ay: int)
    requires image.Valid()
    modifies scene
    ensures forall y, x :: 0 <= y < scene.Length0 && 0 <= x < scene.Length1 ==>
      scene[y, x] == if Covered(image.height, image.width, ax, ay, y, x)
                     then image.pix[y - ay][x - ax] else old(scene[y, x])
  {
    var window := PlacementWindow(scene.Length0, scene.Length1, image.height, image.width, ax, ay);
    WindowIsCoverage(scene.Length0, scene.Length1, image.height, image.width, ax, ay);
    if window.None? {
      return;
    }
    var w := window.value;
    for y := w.startY to w.endY
      invariant forall yy, xx :: 0 <= yy < scene.Length0 && 0 <= xx < scene.Length1 ==>
        scene[yy, xx] == if w.startY <= yy < y && w.startX <= xx < w.endX
                         then image.pix[yy - ay][xx - ax] else old(scene[yy, xx])
    {
      for x := w.startX to w.endX
        invariant forall yy, xx :: 0 <= yy < scene.Length0 && 0 <= xx < scene.Length1 ==>
          scene[yy, xx] == if (w.startY <= yy < y && w.startX <= xx < w.endX) || (yy == y && w.startX <= xx < x)
                           then image.pix[yy - ay][xx - ax] else old(scene[yy, xx])
      {
        scene[y, x] := image.pix[w.cropStartY + (y - w.startY)][w.cropStartX + (x - w.startX)];
      }
    }
  }
}
