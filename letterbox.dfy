/** `resize_image_keeping_aspect_ratio` and `letterbox_image`: fit an image
    into a `(width, height)` box without distorting it, then pad it with a
    constant colour to exactly that box, centred. The float ratios of the
    source are replaced by integer cross-multiplication and truncating
    division. */
module Letterbox {
  import opened Common
  import opened Arith
  import opened Rasters

  /** `cv2.resize(img, (nw, nh))`: OpenCV refuses an empty source or an empty
      target size. */
  function CvResize(img: Raster, nh: nat, nw: nat): (r: Result<Raster>)
    requires img.Valid()
    ensures r.Success? <==> img.height > 0 && img.width > 0 && nh > 0 && nw > 0
    ensures r.Success? ==> r.value.Valid() && r.value.height == nh && r.value.width == nw
    ensures r.Failure? ==> r.error == ResizeFailed
  {
    if img.height == 0 || img.width == 0 || nh == 0 || nw == 0 then Failure(ResizeFailed)
    else Success(Resample(img, nh, nw))
  }

  /** The truncated side `W * h / w` never exceeds `H` when the image is at
      least as wide as the box (`w * H >= W * h`), and it is the largest
      height that keeps the image's aspect ratio. */
  lemma TruncatedSide(big: nat, small: nat, w: nat, h: nat)
    requires w > 0 && w * small >= big * h
    ensures (big * h / w) * w <= big * h < (big * h / w + 1) * w
    ensures big * h / w <= small
  {
    var q := big * h / w;
    DivModUnique(big * h, w, q, (big * h) % w);
    SubOneMul(q + 1, w);
    assert w * small == small * w;
    MulCancelLe(q, small, w);
  }

  /** A truncated quotient is positive exactly when the numerator reaches
      the divisor. */
  lemma QuotientPositive(x: nat, d: nat)
    requires d > 0
    ensures x / d > 0 <==> x >= d
  {
    DivModUnique(x, d, x / d, x % d);
    if x / d > 0 {
      MulLeftMono(1, x / d, d);
    }
  }

  /** The wide case: the width is matched and the height truncated. */
  function ResizeToWidth(img: Raster, w: nat, h: nat): (r: Result<Raster>)
    requires img.Valid() && img.height > 0 && img.width > 0
    requires img.width * h >= w * img.height
    ensures r.Success? <==> w > 0 && w * img.height >= img.width
    ensures r.Success? ==> r.value.Valid() && r.value.width == w && r.value.height <= h
    ensures r.Success? ==>
      r.value.height * img.width <= w * img.height < (r.value.height + 1) * img.width
    ensures r.Failure? ==> r.error == ResizeFailed
  {
    TruncatedSide(w, h, img.width, img.height);
    QuotientPositive(w * img.height, img.width);
    CvResize(img, w * img.height / img.width, w)
  }

  /** The tall case: the height is matched and the width truncated. */
  function ResizeToHeight(img: Raster, w: nat, h: nat): (r: Result<Raster>)
    requires img.Valid() && img.height > 0
    requires img.height * w >= h * img.width
    ensures r.Success? <==> h > 0 && h * img.width >= img.height
    ensures r.Success? ==> r.value.Valid() && r.value.height == h && r.value.width <= w
    ensures r.Success? ==>
      r.value.width * img.height <= h * img.width < (r.value.width + 1) * img.height
    ensures r.Failure? ==> r.error == ResizeFailed
  {
    TruncatedSide(h, w, img.height, img.width);
    QuotientPositive(h * img.width, img.height);
    CvResize(img, h, h * img.width / img.height)
  }

  /** `resize_image_keeping_aspect_ratio(image, desired_size)` with
      `desired_size = (W, H)`: an image already of that size comes back as it
      is; otherwise the side whose ratio dominates is matched exactly (the
      width when `w / h >= W / H`, so on a tie) and the other side is the
      truncated `W * h / w` or `H * w / h`. The result never leaves the box. */
  function ResizeKeepingAspectRatio(img: Raster, desired: (nat, nat)): (r: Result<Raster>)
    requires img.Valid()
    ensures img.height == desired.1 && img.width == desired.0 ==> r == Success(img)
    ensures r.Success? <==>
      || (img.height == desired.1 && img.width == desired.0)
      || (&& img.height > 0 && desired.1 > 0
          && if img.width * desired.1 >= desired.0 * img.height
             then img.width > 0 && desired.0 > 0 && desired.0 * img.height >= img.width
             else desired.1 * img.width >= img.height)
    ensures !(img.height == desired.1 && img.width == desired.0) && (img.height == 0 || desired.1 == 0) ==>
      r == Failure(ZeroDivision)
    ensures r.Success? ==>
      r.value.Valid() && r.value.width <= desired.0 && r.value.height <= desired.1
    ensures r.Failure? ==> r.error == ZeroDivision || r.error == ResizeFailed
    ensures r.Failure? ==>
      (r.error == ZeroDivision <==> img.height == 0 || desired.1 == 0 || (img.width == 0 && desired.0 == 0))
    ensures r.Success? && !(img.height == desired.1 && img.width == desired.0) ==>
      if img.width * desired.1 >= desired.0 * img.height then
        r.value.width == desired.0 &&
        r.value.height * img.width <= desired.0 * img.height < (r.value.height + 1) * img.width
      else
        r.value.height == desired.1 &&
        r.value.width * img.height <= desired.1 * img.width < (r.value.width + 1) * img.height
  {
    var (w, h) := desired;
    if img.height == h && img.width == w then Success(img)
    else if img.height == 0 || h == 0 then Failure(ZeroDivision)
    else if img.width * h >= w * img.height then
      if img.width == 0 then Failure(ZeroDivision)
      else ResizeToWidth(img, w, h)
    else
      assert img.height * w > h * img.width;
      ResizeToHeight(img, w, h)
  }

  /** Enlarging into a box at least as large as the image on both sides
      never fails. */
  lemma EnlargeSucceeds(img: Raster, desired: (nat, nat))
    requires img.Valid() && img.height > 0 && img.width > 0
    requires desired.0 >= img.width && desired.1 >= img.height
    ensures ResizeKeepingAspectRatio(img, desired).Success?
  {
    MulLeftMono(img.width, desired.0, img.height);
    MulLeftMono(img.height, desired.1, img.width);
    MulLeftMono(1, img.height, desired.0);
    MulLeftMono(1, img.width, desired.1);
  }

  /** The example of the documentation: a 640 x 480 image resized into a
      1024 x 1024 box becomes 1024 x 768. */
  lemma LandscapeIntoSquare(c: Color)
    ensures var r := ResizeKeepingAspectRatio(Solid(480, 640, c), (1024, 1024));
      r.Success? && r.value.width == 1024 && r.value.height == 768
  {
  }

  /** A very thin image does not survive: 1000 x 1 into a 10 x 10 box gives
      a truncated height of `int(10 / 1000) == 0`, which OpenCV refuses, so
      the letterboxed image does not always come out at the requested
      size. */
  lemma ThinImageFails(c: Color)
    ensures ResizeKeepingAspectRatio(Solid(1, 1000, c), (10, 10)) == Failure(ResizeFailed)
    ensures LetterboxImage(Solid(1, 1000, c), (10, 10), c) == Failure(ResizeFailed)
  {
  }

  /** The padding step of `letterbox_image`: a constant border of `color`
      around `resized` up to the `(W, H)` box, whose top and left parts are
      the floor halves of the free space and whose bottom and right parts
      take the rest; the image sits at offset `((W - nw) / 2, (H - nh) / 2)`,
      and each of the top and left margins is at most one pixel less than
      the bottom or right one. */
  function CenterPad(resized: Raster, desired: (nat, nat), c: Color): (r: Raster)
    requires resized.Valid() && resized.width <= desired.0 && resized.height <= desired.1
    ensures r.Valid() && r.width == desired.0 && r.height == desired.1
    ensures var top := (desired.1 - resized.height) / 2;
      var left := (desired.0 - resized.width) / 2;
      && top <= desired.1 - resized.height - top <= top + 1
      && left <= desired.0 - resized.width - left <= left + 1
      && forall y, x :: 0 <= y < desired.1 && 0 <= x < desired.0 ==>
           r.pix[y][x] == if top <= y < top + resized.height && left <= x < left + resized.width
                          then resized.pix[y - top][x - left] else c
  {
    var top := (desired.1 - resized.height) / 2;
    var bottom := desired.1 - resized.height - top;
    var left := (desired.0 - resized.width) / 2;
    var right := desired.0 - resized.width - left;
    CopyMakeBorder(resized, top, bottom, left, right, c)
  }

  /** `letterbox_image(image, desired_size, color)`: the aspect-preserving
      resize, then the centred padding. */
  function LetterboxImage(img: Raster, desired: (nat, nat), c: Color): (r: Result<Raster>)
    requires img.Valid()
    ensures r.Success? <==> ResizeKeepingAspectRatio(img, desired).Success?
    ensures r.Failure? ==> r.error == ResizeKeepingAspectRatio(img, desired).error
    ensures r.Failure? ==>
      (r.error == ZeroDivision <==> img.height == 0 || desired.1 == 0 || (img.width == 0 && desired.0 == 0))
    ensures r.Success? ==> r.value.Valid() && r.value.width == desired.0 && r.value.height == desired.1
    ensures r.Success? ==> r.value == CenterPad(ResizeKeepingAspectRatio(img, desired).value, desired, c)
  {
    match ResizeKeepingAspectRatio(img, desired)
    case Failure(e) => Failure(e)
    case Success(resized) => Success(CenterPad(resized, desired, c))
  }

  /** Letterboxing an image that already has the desired size returns it
      unchanged. */
  lemma {:induction false} LetterboxIdentity(img: Raster, c: Color)
    requires img.Valid()
    ensures LetterboxImage(img, (img.width, img.height), c) == Success(img)
  {
    NoBorderIsIdentity(img, c);
  }

  /** The list comprehension `[letterbox_image(i, size, color) for i in images]`:
      every image letterboxed, or the error of the first one that fails. */
  function LetterboxAll(images: seq<Raster>, desired: (nat, nat), c: Color): (r: Result<seq<Raster>>)
    requires forall k :: 0 <= k < |images| ==> images[k].Valid()
    ensures r.Success? ==>
      && |r.value| == |images|
      && forall k :: 0 <= k < |images| ==>
           LetterboxImage(images[k], desired, c) == Success(r.value[k])
    ensures r.Failure? ==> r.error == ZeroDivision || r.error == ResizeFailed
  {
    if images == [] then Success([])
    else
      match LetterboxImage(images[0], desired, c)
      case Failure(e) => Failure(e)
      case Success(first) =>
        match LetterboxAll(images[1..], desired, c)
        case Failure(e) => Failure(e)
        case Success(rest) => Success([first] + rest)
  }

  /** A failing list fails with the error of its first failing image. */
  lemma {:induction false} LetterboxAllFailure(images: seq<Raster>, desired: (nat, nat), c: Color)
    requires forall k :: 0 <= k < |images| ==> images[k].Valid()
    requires LetterboxAll(images, desired, c).Failure?
    ensures exists k ::
      && 0 <= k < |images|
      && LetterboxImage(images[k], desired, c) == Failure(LetterboxAll(images, desired, c).error)
      && forall j :: 0 <= j < k ==> LetterboxImage(images[j], desired, c).Success?
    decreases |images|
  {
    if LetterboxImage(images[0], desired, c).Success? {
      var e := LetterboxAll(images, desired, c).error;
      LetterboxAllFailure(images[1..], desired, c);
      var k :|
        && 0 <= k < |images| - 1
        && LetterboxImage(images[1..][k], desired, c) == Failure(e)
        && forall j :: 0 <= j < k ==> LetterboxImage(images[1..][j], desired, c).Success?;
      assert LetterboxImage(images[k + 1], desired, c) == Failure(e);
      assert forall j :: 0 <= j < k + 1 ==> LetterboxImage(images[j], desired, c).Success? by {
        forall j | 0 <= j < k + 1 ensures LetterboxImage(images[j], desired, c).Success? {
          if j > 0 {
            assert images[j] == images[1..][j - 1];
          }
        }
      }
    }
  }
}
