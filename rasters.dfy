/** The in-memory image of image.py: an `height x width x 3` uint8 array,
    modelled as rows of BGR pixels, and the array operations the module
    performs on it (solid fill, constant border, concatenation along either
    axis, resampling). */
module Rasters {
  import opened Common
  import opened Arith
  import opened Seqs

  datatype Raster = Raster(height: nat, width: nat, pix: seq<seq<Color>>) {
    /** The buffer is rectangular: `height` rows of `width` pixels. */
    predicate Valid() {
      |pix| == height && forall y :: 0 <= y < height ==> |pix[y]| == width
    }
  }

  /** `np.ones((h, w, 3), dtype=np.uint8) * color`. */
  function Solid(h: nat, w: nat, c: Color): (r: Raster)
    ensures r.Valid() && r.height == h && r.width == w
    ensures forall y, x :: 0 <= y < h && 0 <= x < w ==> r.pix[y][x] == c
  {
    Raster(h, w, seq(h, _ => seq(w, _ => c)))
  }

  /** `cv2.copyMakeBorder(img, top, bottom, left, right, BORDER_CONSTANT, value=c)`. */
  function CopyMakeBorder(img: Raster, top: nat, bottom: nat, left: nat, right: nat, c: Color): (r: Raster)
    requires img.Valid()
    ensures r.Valid()
    ensures r.height == top + img.height + bottom && r.width == left + img.width + right
    ensures forall y, x :: 0 <= y < r.height && 0 <= x < r.width ==>
      r.pix[y][x] == if top <= y < top + img.height && left <= x < left + img.width
                     then img.pix[y - top][x - left] else c
  {
    var h, w := top + img.height + bottom, left + img.width + right;
    Raster(h, w, seq(h, y requires 0 <= y < h => seq(w, x requires 0 <= x < w =>
      if top <= y < top + img.height && left <= x < left + img.width
      then img.pix[y - top][x - left] else c)))
  }

  /** A constant border of width zero leaves the image as it is. */
  lemma {:induction false} NoBorderIsIdentity(img: Raster, c: Color)
    requires img.Valid()
    ensures CopyMakeBorder(img, 0, 0, 0, 0, c) == img
  {
    var r := CopyMakeBorder(img, 0, 0, 0, 0, c);
    forall y | 0 <= y < img.height ensures r.pix[y] == img.pix[y] {
      assert |r.pix[y]| == |img.pix[y]|;
    }
  }

  /** Stand-in for `cv2.resize(img, (nw, nh))`: the model only relies on the
      output having the requested size; the pixels are a nearest-neighbour
      pick, not OpenCV's interpolation. */
  function Resample(img: Raster, nh: nat, nw: nat): (r: Raster)
    requires img.Valid() && img.height > 0 && img.width > 0
    ensures r.Valid() && r.height == nh && r.width == nw
  {
    Raster(nh, nw, seq(nh, y requires 0 <= y < nh => seq(nw, x requires 0 <= x < nw =>
      SamplePixel(img, nh, nw, y, x))))
  }

  function SamplePixel(img: Raster, nh: nat, nw: nat, y: nat, x: nat): Color
    requires img.Valid() && img.height > 0 && img.width > 0 && y < nh && x < nw
  {
    ScaledBelow(y, nh, img.height);
    ScaledBelow(x, nw, img.width);
    img.pix[y * img.height / nh][x * img.width / nw]
  }

  lemma ScaledBelow(y: nat, n: nat, len: nat)
    requires y < n && len > 0
    ensures 0 <= y * len / n < len
  {
    MulLeftMono(y, n - 1, len);
    SubOneMul(n, len);
    DivBelow(y * len, n, len);
  }

  /** Row `i` of every raster of `rs`. */
  function RowsAt(rs: seq<Raster>, i: nat): (r: seq<seq<Color>>)
    requires forall j :: 0 <= j < |rs| ==> i < |rs[j].pix|
    ensures |r| == |rs| && forall j :: 0 <= j < |rs| ==> r[j] == rs[j].pix[i]
  {
    if rs == [] then [] else [rs[0].pix[i]] + RowsAt(rs[1..], i)
  }

  /** The pixel rows of every raster of `rs`. */
  function Pixes(rs: seq<Raster>): (r: seq<seq<seq<Color>>>)
    ensures |r| == |rs| && forall j :: 0 <= j < |rs| ==> r[j] == rs[j].pix
  {
    if rs == [] then [] else [rs[0].pix] + Pixes(rs[1..])
  }

  function SumWidths(rs: seq<Raster>): nat
  {
    if rs == [] then 0 else rs[0].width + SumWidths(rs[1..])
  }

  function SumHeights(rs: seq<Raster>): nat
  {
    if rs == [] then 0 else rs[0].height + SumHeights(rs[1..])
  }

  predicate AllOfHeight(rs: seq<Raster>, h: nat)
  {
    forall j :: 0 <= j < |rs| ==> rs[j].Valid() && rs[j].height == h
  }

  predicate AllOfWidth(rs: seq<Raster>, w: nat)
  {
    forall j :: 0 <= j < |rs| ==> rs[j].Valid() && rs[j].width == w
  }

  lemma {:induction false} RowsAtLength(rs: seq<Raster>, h: nat, i: nat)
    requires AllOfHeight(rs, h) && i < h
    ensures |Flatten(RowsAt(rs, i))| == SumWidths(rs)
    decreases |rs|
  {
    if rs != [] {
      RowsAtLength(rs[1..], h, i);
      assert RowsAt(rs, i)[1..] == RowsAt(rs[1..], i);
    }
  }

  /** `np.concatenate(rs, axis=1)`: rasters of one height side by side. */
  function HConcat(rs: seq<Raster>, h: nat): (r: Raster)
    requires AllOfHeight(rs, h)
    ensures r.Valid() && r.height == h && r.width == SumWidths(rs)
    ensures forall i :: 0 <= i < h ==> r.pix[i] == Flatten(RowsAt(rs, i))
  {
    var r := Raster(h, SumWidths(rs), seq(h, i requires 0 <= i < h => Flatten(RowsAt(rs, i))));
    assert forall i :: 0 <= i < h ==> |r.pix[i]| == SumWidths(rs) by {
      forall i | 0 <= i < h ensures |r.pix[i]| == SumWidths(rs) {
        RowsAtLength(rs, h, i);
      }
    }
    r
  }

  lemma {:induction false} PixesRows(rs: seq<Raster>, w: nat)
    requires AllOfWidth(rs, w)
    ensures |Flatten(Pixes(rs))| == SumHeights(rs)
    ensures forall y :: 0 <= y < SumHeights(rs) ==> |Flatten(Pixes(rs))[y]| == w
    decreases |rs|
  {
    if rs != [] {
      PixesRows(rs[1..], w);
      assert Pixes(rs)[1..] == Pixes(rs[1..]);
      assert Flatten(Pixes(rs)) == rs[0].pix + Flatten(Pixes(rs[1..]));
    }
  }

  /** `np.concatenate(rs, axis=0)`: rasters of one width stacked top to bottom. */
  function VConcat(rs: seq<Raster>, w: nat): (r: Raster)
    requires AllOfWidth(rs, w)
    ensures r.Valid() && r.width == w && r.height == SumHeights(rs)
    ensures r.pix == Flatten(Pixes(rs))
  {
    PixesRows(rs, w);
    Raster(SumHeights(rs), w, Flatten(Pixes(rs)))
  }

  /** Taking rows commutes with interleaving a separator raster and dropping
      the trailing one. */
  lemma {:induction false} RowsAtInterleave(rs: seq<Raster>, sep: Raster, i: nat)
    requires forall j :: 0 <= j < |rs| ==> i < |rs[j].pix|
    requires i < |sep.pix|
    ensures forall j :: 0 <= j < |Interleave(rs, sep)| ==> i < |Interleave(rs, sep)[j].pix|
    ensures RowsAt(Interleave(rs, sep), i) == Interleave(RowsAt(rs, i), sep.pix[i])
    decreases |rs|
  {
    if rs != [] {
      RowsAtInterleave(rs[1..], sep, i);
      assert RowsAt(rs, i)[1..] == RowsAt(rs[1..], i);
      assert Interleave(rs, sep) == [rs[0], sep] + Interleave(rs[1..], sep);
      assert Interleave(rs, sep)[2..] == Interleave(rs[1..], sep);
    }
  }

  lemma {:induction false} PixesInterleave(rs: seq<Raster>, sep: Raster)
    ensures Pixes(Interleave(rs, sep)) == Interleave(Pixes(rs), sep.pix)
    decreases |rs|
  {
    if rs != [] {
      PixesInterleave(rs[1..], sep);
      assert Pixes(rs)[1..] == Pixes(rs[1..]);
      assert Interleave(rs, sep) == [rs[0], sep] + Interleave(rs[1..], sep);
      assert Interleave(rs, sep)[2..] == Interleave(rs[1..], sep);
    }
  }
}
