/** Tile titles: where a title is anchored when the caller gives no anchor,
    how `create_tiles` normalises its `titles_anchors` argument, and
    `_draw_texts`, which renders each present title onto its tile. Text
    rendering itself (`draw_text`) and `calculate_optimal_text_scale` belong
    to other modules; they are parameters here. */
module Titles {
  import opened Common
  import opened Seqs
  import opened Rasters

  /** `supervision.geometry.core.Point`. */
  datatype Point = Point(x: real, y: real)

  /** `RelativePosition`: `default_title_placement` is compared with "top";
      any other value places the title at the bottom. */
  datatype Placement = Top | Bottom

  /** The `titles_anchors` argument of `create_tiles`: absent, one point, or
      a list whose entries may be absent. */
  datatype AnchorsArg = NoAnchors | AnchorPoint(p: Point) | AnchorList(ps: seq<Option<Point>>)

  /** The drawing parameters `_draw_texts` hands to `draw_text`, with the
      scale already resolved. */
  datatype TitleStyle = TitleStyle(
    color: Color, scale: real, thickness: int, padding: int, font: int, background: Color)

  /** `draw_text` returns the scene it was given, of the same shape. */
  ghost predicate KeepsShape(draw: (Raster, string, Point, TitleStyle) -> Raster)
  {
    forall img: Raster, text: string, anchor: Point, style: TitleStyle {:trigger draw(img, text, anchor, style)} ::
      img.Valid() ==>
        var out := draw(img, text, anchor, style);
        out.Valid() && out.height == img.height && out.width == img.width
  }

  /** The anchor of an image's title when none is given: horizontally
      centred, a tenth of the height from the top or from the bottom. */
  function DefaultAnchor(img: Raster, placement: Placement): (p: Point)
    ensures 2.0 * p.x == img.width as real
    ensures placement == Top ==> 10.0 * p.y == img.height as real
    ensures placement == Bottom ==> 10.0 * p.y == 9.0 * img.height as real
    ensures 0.0 <= p.y <= img.height as real
  {
    if placement == Top then Point(img.width as real / 2.0, img.height as real * 0.1)
    else Point(img.width as real / 2.0, img.height as real * 0.9)
  }

  /** A top title sits above a bottom one, the two mirrored about the middle
      of the image. */
  lemma DefaultAnchorsMirror(img: Raster)
    ensures DefaultAnchor(img, Top).y <= DefaultAnchor(img, Bottom).y
    ensures DefaultAnchor(img, Top).y + DefaultAnchor(img, Bottom).y == img.height as real
    ensures DefaultAnchor(img, Top).x == DefaultAnchor(img, Bottom).x
  {
  }

  /** `_prepare_default_titles_anchors`: walks `zip(images, anchors)`, keeps
      each given anchor and substitutes the default one for an absent
      anchor; the zip stops at the shorter list. */
  method PrepareDefaultAnchors(images: seq<Raster>, anchors: seq<Option<Point>>, placement: Placement)
    returns (result: seq<Point>)
    ensures |result| == Min(|images|, |anchors|)
    ensures forall k :: 0 <= k < |result| ==>
      result[k] == if anchors[k].Some? then anchors[k].value else DefaultAnchor(images[k], placement)
  {
    result := [];
    var n := Min(|images|, |anchors|);
    for k := 0 to n
      invariant |result| == k
      invariant forall j :: 0 <= j < k ==>
        result[j] == if anchors[j].Some? then anchors[j].value else DefaultAnchor(images[j], placement)
    {
      if anchors[k].Some? {
        result := result + [anchors[k].value];
      } else {
        result := result + [DefaultAnchor(images[k], placement)];
      }
    }
  }

  /** The list `[titles_anchors]` when the argument is not a list, the list
      itself otherwise. */
  function WrapAnchors(arg: AnchorsArg): seq<Option<Point>>
  {
    match arg
    case NoAnchors => [None]
    case AnchorPoint(p) => [Some(p)]
    case AnchorList(ps) => ps
  }

  /** What `create_tiles` hands on as `titles_anchors`: the argument wrapped
      into a list, then filled with absent anchors up to one per image. */
  function NormalizeAnchors(arg: AnchorsArg, n: nat): (r: seq<Option<Point>>)
    ensures |r| >= n
    ensures arg.AnchorList? ==> |r| == Max(|arg.ps|, n) && r[..|arg.ps|] == arg.ps
    ensures !arg.AnchorList? ==> |r| == Max(1, n)
    ensures r[..|WrapAnchors(arg)|] == WrapAnchors(arg)
    ensures arg.NoAnchors? ==> forall k :: 0 <= k < |r| ==> r[k] == None
    ensures forall k :: |WrapAnchors(arg)| <= k < |r| ==> r[k] == None
  {
    Fill(WrapAnchors(arg), n, None)
  }

  /** A single point is wrapped into a one-element list, so it anchors the
      first tile's title only; every further tile gets the default anchor. */
  lemma LoneAnchorFirstOnly(p: Point, n: nat)
    requires n > 0
    ensures NormalizeAnchors(AnchorPoint(p), n)[0] == Some(p)
    ensures forall k :: 1 <= k < n ==> NormalizeAnchors(AnchorPoint(p), n)[k] == None
  {
  }

  /** The scale used for every title: the given one, or
      `calculate_optimal_text_scale` of the first image's `(width, height)`. */
  function ResolveScale(images: seq<Raster>, scale: Option<real>, textScale: (nat, nat) -> real): real
    requires scale.None? ==> |images| > 0
  {
    if scale.Some? then scale.value else textScale(images[0].width, images[0].height)
  }

  /** The tiles after `_draw_texts`: without titles, the images as they are;
      with titles, `zip(images, titles, anchors)` (so as many entries as the
      shortest of the three), each image whose title is present drawn on at
      its anchor, the others kept. */
  function TitledTiles(
    images: seq<Raster>, titles: Option<seq<Option<string>>>, anchors: seq<Option<Point>>,
    placement: Placement, style: TitleStyle, scale: Option<real>,
    draw: (Raster, string, Point, TitleStyle) -> Raster, textScale: (nat, nat) -> real): (r: seq<Raster>)
    requires titles.Some? && scale.None? ==> |images| > 0
    ensures titles.None? ==> r == images
    ensures titles.Some? ==> |r| == Min(Min(|images|, |anchors|), |titles.value|)
  {
    if titles.None? then images
    else
      var s := style.(scale := ResolveScale(images, scale, textScale));
      var n := Min(Min(|images|, |anchors|), |titles.value|);
      seq(n, k requires 0 <= k < n =>
        if titles.value[k].None? then images[k]
        else draw(images[k], titles.value[k].value,
                  if anchors[k].Some? then anchors[k].value else DefaultAnchor(images[k], placement), s))
  }

  /** A tile whose title is present is the image with that title drawn on
      it at the given anchor (or the default one), in the style with the
      given scale or, when none is given, the scale computed from the first
      image's `(width, height)`. */
  lemma TitledTileDrawn(
    images: seq<Raster>, titles: Option<seq<Option<string>>>, anchors: seq<Option<Point>>,
    placement: Placement, style: TitleStyle, scale: Option<real>,
    draw: (Raster, string, Point, TitleStyle) -> Raster, textScale: (nat, nat) -> real, k: nat)
    requires titles.Some? && |images| > 0
    requires k < |images| && k < |anchors| && k < |titles.value| && titles.value[k].Some?
    ensures var s := if scale.Some? then scale.value else textScale(images[0].width, images[0].height);
      var anchor := if anchors[k].Some? then anchors[k].value else DefaultAnchor(images[k], placement);
      && k < |TitledTiles(images, titles, anchors, placement, style, scale, draw, textScale)|
      && TitledTiles(images, titles, anchors, placement, style, scale, draw, textScale)[k]
         == draw(images[k], titles.value[k].value, anchor, style.(scale := s))
  {
  }

  /** `_draw_texts`: resolves the anchors and the scale, then draws each
      present title in a loop over the zipped lists. */
  method DrawTexts(
    images: seq<Raster>, titles: Option<seq<Option<string>>>, anchors: seq<Option<Point>>,
    placement: Placement, style: TitleStyle, scale: Option<real>,
    draw: (Raster, string, Point, TitleStyle) -> Raster, textScale: (nat, nat) -> real)
    returns (result: seq<Raster>)
    requires titles.Some? && scale.None? ==> |images| > 0
    ensures result == TitledTiles(images, titles, anchors, placement, style, scale, draw, textScale)
  {
    if titles.None? {
      return images;
    }
    var prepared := PrepareDefaultAnchors(images, anchors, placement);
    var s := style.(scale := ResolveScale(images, scale, textScale));
    var n := Min(|prepared|, |titles.value|);
    result := [];
    for k := 0 to n
      invariant |result| == k
      invariant result == TitledTiles(images, titles, anchors, placement, style, scale, draw, textScale)[..k]
    {
      if titles.value[k].None? {
        result := result + [images[k]];
      } else {
        result := result + [draw(images[k], titles.value[k].value, prepared[k], s)];
      }
    }
  }

  /** A tile whose title is absent (or lies beyond the titles list when no
      titles are given) comes out unchanged. */
  lemma UntitledTileUnchanged(
    images: seq<Raster>, titles: Option<seq<Option<string>>>, anchors: seq<Option<Point>>,
    placement: Placement, style: TitleStyle, scale: Option<real>,
    draw: (Raster, string, Point, TitleStyle) -> Raster, textScale: (nat, nat) -> real, k: nat)
    requires titles.Some? && scale.None? ==> |images| > 0
    requires k < |TitledTiles(images, titles, anchors, placement, style, scale, draw, textScale)|
    requires titles.Some? ==> titles.value[k].None?
    ensures TitledTiles(images, titles, anchors, placement, style, scale, draw, textScale)[k] == images[k]
  {
  }

  /** With one title and one anchor per image, as `create_tiles` arranges,
      no tile is lost, and a `draw_text` that keeps shapes leaves every tile
      with the size it had. */
  lemma {:induction false} TitledTilesKeepTiles(
    images: seq<Raster>, titles: Option<seq<Option<string>>>, anchors: seq<Option<Point>>,
    placement: Placement, style: TitleStyle, scale: Option<real>,
    draw: (Raster, string, Point, TitleStyle) -> Raster, textScale: (nat, nat) -> real,
    h: nat, w: nat)
    requires titles.Some? && scale.None? ==> |images| > 0
    requires KeepsShape(draw)
    requires forall k :: 0 <= k < |images| ==> images[k].Valid() && images[k].height == h && images[k].width == w
    ensures var r := TitledTiles(images, titles, anchors, placement, style, scale, draw, textScale);
      && (|anchors| >= |images| && (titles.Some? ==> |titles.value| >= |images|) ==> |r| == |images|)
      && forall k :: 0 <= k < |r| ==> r[k].Valid() && r[k].height == h && r[k].width == w
  {
    var r := TitledTiles(images, titles, anchors, placement, style, scale, draw, textScale);
    forall k | 0 <= k < |r|
      ensures r[k].Valid() && r[k].height == h && r[k].width == w
    {
      if titles.Some? && titles.value[k].Some? {
        var s := style.(scale := ResolveScale(images, scale, textScale));
        var anchor := if anchors[k].Some? then anchors[k].value else DefaultAnchor(images[k], placement);
        assert r[k] == draw(images[k], titles.value[k].value, anchor, s);
      }
    }
  }
}
