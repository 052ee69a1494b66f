/** `create_tiles`, the public entry point of the mosaic engine: it checks
    its arguments in a fixed order, agrees on an output format and a common
    tile size, letterboxes every image to that size, settles the grid,
    normalises the titles and their anchors, and hands everything to
    `_generate_tiles`. */
module Tiles {
  import opened Common
  import opened Arith
  import opened Seqs
  import opened Rasters
  import opened Grid
  import opened Letterbox
  import opened Titles
  import opened Compose

  /** An input image: how it arrived, and its pixels once brought to the
      OpenCV layout. */
  datatype InputImage = InputImage(form: Form, raster: Raster)

  /** The `return_type` argument: "auto", or a fixed format. */
  datatype ReturnType = Auto | Fixed(format: Format)

  /** The arguments of `create_tiles` that are data (text rendering is
      passed separately as functions). The title colour, thickness,
      padding, font and background colour travel in `style`; its scale is
      replaced by the resolved one. */
  datatype Request = Request(
    images: seq<InputImage>,
    gridSize: Option<(Option<nat>, Option<nat>)>,
    tileSize: Option<(nat, nat)>,
    scaling: string,
    padColor: Color,
    margin: nat,
    marginColor: Color,
    returnType: ReturnType,
    titles: Option<seq<Option<string>>>,
    anchors: AnchorsArg,
    style: TitleStyle,
    scale: Option<real>,
    placement: Placement)

  /** What `create_tiles` has settled when it calls `_generate_tiles`. */
  datatype Layout = Layout(
    format: Format,
    size: (nat, nat),
    tiles: seq<Raster>,
    rows: nat,
    columns: nat,
    titles: Option<seq<Option<string>>>,
    anchors: seq<Option<Point>>)

  predicate InputsValid(images: seq<InputImage>)
  {
    forall k :: 0 <= k < |images| ==> images[k].raster.Valid()
  }

  function RastersOf(images: seq<InputImage>): (rs: seq<Raster>)
    ensures |rs| == |images| && forall k :: 0 <= k < |images| ==> rs[k] == images[k].raster
  {
    seq(|images|, k requires 0 <= k < |images| => images[k].raster)
  }

  function Forms(images: seq<InputImage>): (fs: seq<Form>)
    ensures |fs| == |images| && forall k :: 0 <= k < |images| ==> fs[k] == images[k].form
  {
    seq(|images|, k requires 0 <= k < |images| => images[k].form)
  }

  /** The format of the result: the vote over the inputs for "auto". */
  function OutputFormat(req: Request): Format
  {
    if req.returnType.Auto? then NegotiateTilesFormat(Forms(req.images)) else req.returnType.format
  }

  /** The tile size: the one given, or the aggregate of the images' sizes. */
  function TileSize(req: Request): (r: Result<(nat, nat)>)
    requires |req.images| > 0
    ensures req.tileSize.Some? ==> r == Success(req.tileSize.value)
    ensures req.tileSize.None? ==> r == AggregateImagesShape(RastersOf(req.images), req.scaling)
    ensures r.Failure? <==> req.tileSize.None? && req.scaling != "min" && req.scaling != "max" && req.scaling != "avg"
    ensures r.Failure? ==> r.error == UnknownScalingMode(req.scaling)
  {
    if req.tileSize.Some? then Success(req.tileSize.value) else AggregateImagesShape(RastersOf(req.images), req.scaling)
  }

  /** The facts about a settled layout that the mosaic needs: `n` images
      letterboxed to one size, a grid with room for all of them, and one
      title (when there are titles) and one anchor per image. */
  predicate Ready(p: Layout, n: nat)
  {
    && n > 0 && p.columns > 0 && n <= p.rows * p.columns
    && |p.tiles| == n
    && AllOfHeight(p.tiles, p.size.1) && AllOfWidth(p.tiles, p.size.0)
    && (p.titles.Some? ==> |p.titles.value| >= n)
    && |p.anchors| >= n
  }

  /** The last checks of `create_tiles`, once the `n` images are letterboxed
      to `size`: the grid is settled, and it must hold every image; then
      the titles are filled with absent ones and the anchors normalised. */
  function PlanGrid(req: Request, size: (nat, nat), tiles: seq<Raster>): (r: Result<Layout>)
    requires |req.images| > 0 && |tiles| == |req.images|
    requires AllOfHeight(tiles, size.1) && AllOfWidth(tiles, size.0)
    ensures r.Failure? ==> r.error == ZeroDivision || r.error.GridCapacity?
    ensures EstablishGridSize(|req.images|, req.gridSize).Failure? ==>
      r == Failure(EstablishGridSize(|req.images|, req.gridSize).error)
    ensures EstablishGridSize(|req.images|, req.gridSize).Success? ==>
      var grid := EstablishGridSize(|req.images|, req.gridSize).value;
      (r.Failure? <==> |req.images| > grid.0 * grid.1) &&
      (r.Failure? ==> r.error == GridCapacity(|req.images|, grid.0, grid.1))
    ensures r.Success? ==>
      && Ready(r.value, |req.images|)
      && r.value.format == OutputFormat(req) && r.value.size == size && r.value.tiles == tiles
      && EstablishGridSize(|req.images|, req.gridSize) == Success((r.value.rows, r.value.columns))
      && r.value.titles == (if req.titles.Some? then Some(Fill(req.titles.value, |req.images|, None)) else None)
      && r.value.anchors == NormalizeAnchors(req.anchors, |req.images|)
  {
    var n := |req.images|;
    match EstablishGridSize(n, req.gridSize)
    case Failure(e) => Failure(e)
    case Success(grid) =>
      if n > grid.0 * grid.1 then Failure(GridCapacity(n, grid.0, grid.1))
      else
        var titles := if req.titles.Some? then Some(Fill(req.titles.value, n, None)) else None;
        Success(Layout(OutputFormat(req), size, tiles, grid.0, grid.1, titles, NormalizeAnchors(req.anchors, n)))
  }

  /** The steps of `create_tiles` after the tile size is known: every image
      is letterboxed to `size`, and only then is the grid settled. */
  function PlanLetterboxed(req: Request, size: (nat, nat)): (r: Result<Layout>)
    requires InputsValid(req.images) && |req.images| > 0
    ensures LetterboxAll(RastersOf(req.images), size, req.padColor).Failure? ==>
      r == Failure(LetterboxAll(RastersOf(req.images), size, req.padColor).error)
    ensures LetterboxAll(RastersOf(req.images), size, req.padColor).Success? ==>
      r == PlanGrid(req, size, LetterboxAll(RastersOf(req.images), size, req.padColor).value)
    ensures r.Success? ==>
      && Ready(r.value, |req.images|)
      && r.value.format == OutputFormat(req) && r.value.size == size
      && EstablishGridSize(|req.images|, req.gridSize) == Success((r.value.rows, r.value.columns))
      && LetterboxAll(RastersOf(req.images), size, req.padColor) == Success(r.value.tiles)
      && r.value.titles == (if req.titles.Some? then Some(Fill(req.titles.value, |req.images|, None)) else None)
      && r.value.anchors == NormalizeAnchors(req.anchors, |req.images|)
  {
    match LetterboxAll(RastersOf(req.images), size, req.padColor)
    case Failure(e) => Failure(e)
    case Success(tiles) => PlanGrid(req, size, tiles)
  }

  /** Everything `create_tiles` decides before `_generate_tiles`, in the
      order it decides it: an empty list fails first; then the format; then
      the tile size (where an unknown scaling mode fails, and only when no
      size is given); then the letterboxing of every image; then the grid;
      then the check that the grid holds every image. */
  function PlanTiles(req: Request): (r: Result<Layout>)
    requires InputsValid(req.images)
    ensures req.images == [] <==> r == Failure(EmptyInput)
    ensures r.Failure? && r.error.UnknownScalingMode? ==>
      req.tileSize.None? && r.error == UnknownScalingMode(req.scaling)
    ensures req.images != [] && req.tileSize.None? && req.scaling != "min" && req.scaling != "max" && req.scaling != "avg" ==>
      r == Failure(UnknownScalingMode(req.scaling))
    ensures r.Success? ==>
      && Ready(r.value, |req.images|)
      && r.value.format == OutputFormat(req)
      && EstablishGridSize(|req.images|, req.gridSize) == Success((r.value.rows, r.value.columns))
    // Letterboxing runs before the grid is settled, so its error wins.
    ensures req.images != [] && TileSize(req).Success? ==>
      var letterboxed := LetterboxAll(RastersOf(req.images), TileSize(req).value, req.padColor);
      var grid := EstablishGridSize(|req.images|, req.gridSize);
      && (letterboxed.Failure? ==> r == Failure(letterboxed.error))
      && (letterboxed.Success? && grid.Failure? ==> r == Failure(grid.error))
    ensures r.Success? ==>
      && req.images != []
      && TileSize(req) == Success(r.value.size)
      && LetterboxAll(RastersOf(req.images), r.value.size, req.padColor) == Success(r.value.tiles)
      && r.value.titles == (if req.titles.Some? then Some(Fill(req.titles.value, |req.images|, None)) else None)
      && r.value.anchors == NormalizeAnchors(req.anchors, |req.images|)
  {
    if req.images == [] then Failure(EmptyInput)
    else
      match TileSize(req)
      case Failure(e) => Failure(e)
      case Success(size) => PlanLetterboxed(req, size)
  }

  /** The tiles handed to the grid: letterboxed, with their titles drawn. */
  function DrawnTiles(req: Request, p: Layout,
                      draw: (Raster, string, Point, TitleStyle) -> Raster, textScale: (nat, nat) -> real): seq<Raster>
    requires |p.tiles| > 0
  {
    TitledTiles(p.tiles, p.titles, p.anchors, req.placement, req.style, req.scale, draw, textScale)
  }

  /** The blank tile: `single_tile_size` in the padding colour. */
  function Filler(req: Request, p: Layout): Raster
  {
    GenerateColorImage(p.size, req.padColor)
  }

  /** The grid `_generate_tiles` merges for a settled layout. */
  function LayoutGrid(req: Request, p: Layout,
                      draw: (Raster, string, Point, TitleStyle) -> Raster, textScale: (nat, nat) -> real): seq<seq<Raster>>
    requires Ready(p, |p.tiles|)
  {
    PaddedGrid(DrawnTiles(req, p, draw, textScale), p.rows, p.columns, Filler(req, p))
  }

  /** The grid of a settled layout has exactly the `rows` rows it was
      given, and is ready to merge. */
  lemma LayoutGridShape(req: Request, p: Layout,
                        draw: (Raster, string, Point, TitleStyle) -> Raster, textScale: (nat, nat) -> real)
    requires Ready(p, |p.tiles|) && KeepsShape(draw)
    ensures |DrawnTiles(req, p, draw, textScale)| == |p.tiles|
    ensures |LayoutGrid(req, p, draw, textScale)| == p.rows
    ensures TileGrid(LayoutGrid(req, p, draw, textScale), p.columns, p.size.1, p.size.0)
  {
    TitledTilesKeepTiles(p.tiles, p.titles, p.anchors, req.placement, req.style, req.scale, draw, textScale, p.size.1, p.size.0);
    PaddedGridIsTileGrid(DrawnTiles(req, p, draw, textScale), p.rows, p.columns, Filler(req, p), p.size.1, p.size.0);
    CeilDivLeast(|p.tiles|, p.columns, p.rows);
  }

  /** The merged mosaic of a settled layout. */
  function LayoutImage(req: Request, p: Layout,
                       draw: (Raster, string, Point, TitleStyle) -> Raster, textScale: (nat, nat) -> real): (r: Raster)
    requires Ready(p, |p.tiles|) && KeepsShape(draw)
    ensures r.Valid()
  {
    LayoutGridShape(req, p, draw, textScale);
    Mosaic(LayoutGrid(req, p, draw, textScale), p.columns, p.size.1, p.size.0, req.margin, req.marginColor)
  }

  /** The result of `create_tiles`: the merged mosaic with the format it is
      returned in, or the error of the first check that fails. */
  function TilesImage(req: Request, draw: (Raster, string, Point, TitleStyle) -> Raster, textScale: (nat, nat) -> real)
    : (r: Result<(Raster, Format)>)
    requires InputsValid(req.images) && KeepsShape(draw)
    ensures r.Failure? <==> PlanTiles(req).Failure?
    ensures r.Failure? ==> r.error == PlanTiles(req).error
    ensures r.Success? ==> r.value.0.Valid() && r.value.1 == OutputFormat(req)
  {
    match PlanTiles(req)
    case Failure(e) => Failure(e)
    case Success(p) => Success((LayoutImage(req, p, draw, textScale), p.format))
  }

  /** `create_tiles`, step by step. */
  method CreateTiles(req: Request, draw: (Raster, string, Point, TitleStyle) -> Raster, textScale: (nat, nat) -> real)
    returns (r: Result<(Raster, Format)>)
    requires InputsValid(req.images) && KeepsShape(draw)
    ensures r == TilesImage(req, draw, textScale)
  {
    var n := |req.images|;
    if n == 0 {
      return Failure(EmptyInput);
    }
    var format := if req.returnType.Auto? then NegotiateTilesFormat(Forms(req.images)) else req.returnType.format;
    var size := TileSize(req);
    if size.Failure? {
      return Failure(size.error);
    }
    var resized := LetterboxAll(RastersOf(req.images), size.value, req.padColor);
    if resized.Failure? {
      return Failure(resized.error);
    }
    var grid := EstablishGridSize(n, req.gridSize);
    if grid.Failure? {
      return Failure(grid.error);
    }
    var (rows, columns) := grid.value;
    if n > rows * columns {
      return Failure(GridCapacity(n, rows, columns));
    }
    var titles := if req.titles.Some? then Some(Fill(req.titles.value, n, None)) else None;
    var anchors := NormalizeAnchors(req.anchors, n);
    ghost var p := PlanTiles(req).value;
    assert p == Layout(format, size.value, resized.value, rows, columns, titles, anchors);
    LayoutGridShape(req, p, draw, textScale);
    var tiles := GenerateTiles(resized.value, rows, columns, size.value, req.padColor, req.margin, req.marginColor,
                               titles, anchors, req.placement, req.style, req.scale, draw, textScale);
    r := Success((tiles, format));
  }

  /** An empty list is rejected before anything else is looked at. */
  lemma EmptyIsRejected(req: Request, draw: (Raster, string, Point, TitleStyle) -> Raster, textScale: (nat, nat) -> real)
    requires InputsValid(req.images) && KeepsShape(draw)
    ensures TilesImage(req, draw, textScale) == Failure(EmptyInput) <==> req.images == []
  {
  }

  /** The scaling mode is only consulted when no tile size is given: an
      unknown mode fails exactly when the list is not empty and no size is
      given. */
  lemma ScalingModeChecked(req: Request, draw: (Raster, string, Point, TitleStyle) -> Raster, textScale: (nat, nat) -> real)
    requires InputsValid(req.images) && KeepsShape(draw)
    requires req.scaling != "min" && req.scaling != "max" && req.scaling != "avg"
    ensures TilesImage(req, draw, textScale) == Failure(UnknownScalingMode(req.scaling))
        <==> req.images != [] && req.tileSize.None?
  {
  }

  /** Once the images are letterboxed and the grid is settled, a grid with
      fewer cells than images is refused, and a grid with room for them all
      gives a mosaic. */
  lemma CapacityChecked(req: Request, draw: (Raster, string, Point, TitleStyle) -> Raster, textScale: (nat, nat) -> real)
    requires InputsValid(req.images) && KeepsShape(draw) && |req.images| > 0
    requires TileSize(req).Success?
    requires LetterboxAll(RastersOf(req.images), TileSize(req).value, req.padColor).Success?
    requires EstablishGridSize(|req.images|, req.gridSize).Success?
    ensures var g := EstablishGridSize(|req.images|, req.gridSize).value;
      TilesImage(req, draw, textScale).Failure? <==> |req.images| > g.0 * g.1
    ensures var g := EstablishGridSize(|req.images|, req.gridSize).value;
      |req.images| > g.0 * g.1 ==> TilesImage(req, draw, textScale) == Failure(GridCapacity(|req.images|, g.0, g.1))
  {
  }

  /** The mosaic of an `R x C` layout of `tw x th` tiles with margin `m` is
      `R * th + (R - 1) * m` high and `C * tw + (C - 1) * m` wide. */
  lemma LayoutShape(req: Request, p: Layout,
                    draw: (Raster, string, Point, TitleStyle) -> Raster, textScale: (nat, nat) -> real)
    requires Ready(p, |p.tiles|) && KeepsShape(draw)
    ensures LayoutImage(req, p, draw, textScale).height == p.rows * p.size.1 + (p.rows - 1) * req.margin
    ensures LayoutImage(req, p, draw, textScale).width == p.columns * p.size.0 + (p.columns - 1) * req.margin
  {
    LayoutGridShape(req, p, draw, textScale);
    MosaicShape(LayoutGrid(req, p, draw, textScale), p.columns, p.size.1, p.size.0, req.margin, req.marginColor);
  }

  /** Image `k`, letterboxed and titled, is the tile in row `r`, column `c`
      of the mosaic where `k == r * C + c` with `c < C` (that is, row
      `k / C` and column `k % C`): its pixel `(i, j)` sits at
      `(r * (th + m) + i, c * (tw + m) + j)`. */
  lemma LayoutPlacement(req: Request, p: Layout,
                        draw: (Raster, string, Point, TitleStyle) -> Raster, textScale: (nat, nat) -> real,
                        k: nat, r: nat, c: nat, i: nat, j: nat)
    requires Ready(p, |p.tiles|) && KeepsShape(draw)
    requires k < |p.tiles| && k == r * p.columns + c && c < p.columns
    requires i < p.size.1 && j < p.size.0
    ensures k < |DrawnTiles(req, p, draw, textScale)|
    ensures var tile := DrawnTiles(req, p, draw, textScale)[k];
      tile.Valid() && tile.height == p.size.1 && tile.width == p.size.0
    ensures var out := LayoutImage(req, p, draw, textScale);
      var y := r * (p.size.1 + req.margin) + i;
      var x := c * (p.size.0 + req.margin) + j;
      && y < out.height && x < out.width
      && out.pix[y][x] == DrawnTiles(req, p, draw, textScale)[k].pix[i][j]
  {
    LayoutGridShape(req, p, draw, textScale);
    var tiles := DrawnTiles(req, p, draw, textScale);
    DivModUnique(k, p.columns, r, c);
    assert r == k / p.columns && c == k % p.columns;
    PaddedGridPlacement(tiles, p.rows, p.columns, Filler(req, p), k);
    MosaicTileAt(LayoutGrid(req, p, draw, textScale), p.columns, p.size.1, p.size.0, req.margin, req.marginColor,
                 r, c, i, j);
  }

  /** Every cell past the last image, up to the full `R x C` grid, is a
      blank tile of the padding colour. */
  lemma LayoutBlank(req: Request, p: Layout,
                    draw: (Raster, string, Point, TitleStyle) -> Raster, textScale: (nat, nat) -> real,
                    r: nat, c: nat, i: nat, j: nat)
    requires Ready(p, |p.tiles|) && KeepsShape(draw)
    requires r < p.rows && c < p.columns && r * p.columns + c >= |p.tiles|
    requires i < p.size.1 && j < p.size.0
    ensures var out := LayoutImage(req, p, draw, textScale);
      var y := r * (p.size.1 + req.margin) + i;
      var x := c * (p.size.0 + req.margin) + j;
      && y < out.height && x < out.width
      && out.pix[y][x] == req.padColor
  {
    LayoutGridShape(req, p, draw, textScale);
    var tiles := DrawnTiles(req, p, draw, textScale);
    PaddedGridBlank(tiles, p.rows, p.columns, Filler(req, p), r, c);
    MosaicTileAt(LayoutGrid(req, p, draw, textScale), p.columns, p.size.1, p.size.0, req.margin, req.marginColor, r, c, i, j);
  }

  /** A successful call returns the mosaic of the layout it settled, whose
      grid is the `(rows, columns)` of `_establish_grid_size`. */
  lemma TilesResult(req: Request, draw: (Raster, string, Point, TitleStyle) -> Raster, textScale: (nat, nat) -> real)
    requires InputsValid(req.images) && KeepsShape(draw)
    requires TilesImage(req, draw, textScale).Success?
    ensures PlanTiles(req).Success? && Ready(PlanTiles(req).value, |PlanTiles(req).value.tiles|)
    ensures TilesImage(req, draw, textScale).value.0 == LayoutImage(req, PlanTiles(req).value, draw, textScale)
    ensures |PlanTiles(req).value.tiles| == |req.images|
    ensures EstablishGridSize(|req.images|, req.gridSize) == Success((PlanTiles(req).value.rows, PlanTiles(req).value.columns))
  {
  }

  /** Padding the titles list up front does not change the plan. */
  lemma PaddedTitlesPlan(req: Request)
    requires InputsValid(req.images) && req.titles.Some?
    ensures PlanTiles(req.(titles := Some(Fill(req.titles.value, |req.images|, None)))) == PlanTiles(req)
  {
    var req' := req.(titles := Some(Fill(req.titles.value, |req.images|, None)));
    if req.images != [] {
      assert RastersOf(req'.images) == RastersOf(req.images);
      assert OutputFormat(req') == OutputFormat(req);
      assert TileSize(req') == TileSize(req);
      if TileSize(req).Success? {
        var size := TileSize(req).value;
        var all := LetterboxAll(RastersOf(req.images), size, req.padColor);
        if all.Success? {
          FillIdempotent(req.titles.value, |req.images|, None);
          assert PlanGrid(req', size, all.value) == PlanGrid(req, size, all.value);
        }
      }
    }
  }

  /** A titles list shorter than the images gives the same mosaic as the
      list padded with absent titles up to one per image. */
  lemma ShortTitlesArePadded(req: Request, draw: (Raster, string, Point, TitleStyle) -> Raster, textScale: (nat, nat) -> real)
    requires InputsValid(req.images) && KeepsShape(draw) && req.titles.Some?
    ensures TilesImage(req, draw, textScale)
         == TilesImage(req.(titles := Some(Fill(req.titles.value, |req.images|, None))), draw, textScale)
  {
    var req' := req.(titles := Some(Fill(req.titles.value, |req.images|, None)));
    PaddedTitlesPlan(req);
    if PlanTiles(req).Success? {
      var p := PlanTiles(req).value;
      assert DrawnTiles(req', p, draw, textScale) == DrawnTiles(req, p, draw, textScale);
      assert Filler(req', p) == Filler(req, p);
      assert LayoutGrid(req', p, draw, textScale) == LayoutGrid(req, p, draw, textScale);
      assert LayoutImage(req', p, draw, textScale) == LayoutImage(req, p, draw, textScale);
    }
  }

  /** Without titles, tile `k` is image `k` letterboxed to the tile size. */
  lemma UntitledTile(req: Request, draw: (Raster, string, Point, TitleStyle) -> Raster, textScale: (nat, nat) -> real, k: nat)
    requires InputsValid(req.images) && KeepsShape(draw)
    requires PlanTiles(req).Success?
    requires req.titles.None? && k < |req.images|
    ensures var p := PlanTiles(req).value;
      k < |DrawnTiles(req, p, draw, textScale)| &&
      Success(DrawnTiles(req, p, draw, textScale)[k]) == LetterboxImage(req.images[k].raster, p.size, req.padColor)
  {
  }
}
