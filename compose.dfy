/** The mosaic engine of `create_tiles`: `_generate_tiles` lays the tiles out
    row-major in a grid, completing the last row and any missing rows with
    blank tiles, and `_merge_tiles_elements` joins the grid into one image
    with margin strips between neighbouring tiles. Both are proved to build
    `Mosaic`, a pixel-by-pixel description of the layout. */
module Compose {
  import opened Common
  import opened Arith
  import opened Seqs
  import opened Rasters
  import opened Titles

  /** A grid ready to merge: at least one row, `columns > 0` tiles in every
      row, every tile a valid `th x tw` image. */
  predicate TileGrid(grid: seq<seq<Raster>>, columns: nat, th: nat, tw: nat)
  {
    && |grid| > 0 && columns > 0
    && forall r :: 0 <= r < |grid| ==>
         |grid[r]| == columns && AllOfHeight(grid[r], th) && AllOfWidth(grid[r], tw)
  }

  /** The colour at offset `(i, j)` of the block of tile row `r` and tile
      column `c`, a block being the tile with the margin below and to the
      right of it: the tile's pixel inside the tile, the margin colour
      elsewhere. */
  function BlockPixel(grid: seq<seq<Raster>>, columns: nat, th: nat, tw: nat, mc: Color,
                      r: nat, i: nat, c: nat, j: nat): Color
    requires TileGrid(grid, columns, th, tw) && r < |grid| && c < columns
  {
    if i < th && j < tw then grid[r][c].pix[i][j] else mc
  }

  /** The colour at `(y, x)` of the merged grid: row `y` falls in tile row
      `q` at offset `i` (blocks of `th + m` rows), column `x` in tile column
      `c` at offset `j` (blocks of `tw + m` columns). */
  function MosaicPixel(grid: seq<seq<Raster>>, columns: nat, th: nat, tw: nat, m: nat, mc: Color, y: nat, x: nat): Color
    requires TileGrid(grid, columns, th, tw)
    requires y < Span(|grid|, th, m) && x < Span(columns, tw, m)
  {
    LocateInSpan(y, |grid|, th, m);
    LocateInSpan(x, columns, tw, m);
    BlockPixel(grid, columns, th, tw, mc, Locate(y, th + m).0, Locate(y, th + m).1, Locate(x, tw + m).0, Locate(x, tw + m).1)
  }

  /** The image the grid merges into: `Span(R, th, m)` rows and
      `Span(C, tw, m)` columns for an `R x C` grid. */
  function Mosaic(grid: seq<seq<Raster>>, columns: nat, th: nat, tw: nat, m: nat, mc: Color): (r: Raster)
    requires TileGrid(grid, columns, th, tw)
    ensures r.Valid()
    ensures r.height == Span(|grid|, th, m) && r.width == Span(columns, tw, m)
  {
    var h, w := Span(|grid|, th, m), Span(columns, tw, m);
    Raster(h, w, seq(h, y requires 0 <= y < h => seq(w, x requires 0 <= x < w =>
      MosaicPixel(grid, columns, th, tw, m, mc, y, x))))
  }

  /** An `R x C` grid of `th x tw` tiles merges into an image of
      `R * th + (R - 1) * m` rows and `C * tw + (C - 1) * m` columns. */
  lemma MosaicShape(grid: seq<seq<Raster>>, columns: nat, th: nat, tw: nat, m: nat, mc: Color)
    requires TileGrid(grid, columns, th, tw)
    ensures Mosaic(grid, columns, th, tw, m, mc).height == |grid| * th + (|grid| - 1) * m
    ensures Mosaic(grid, columns, th, tw, m, mc).width == columns * tw + (columns - 1) * m
  {
    SpanIsProduct(|grid|, th, m);
    SpanIsProduct(columns, tw, m);
  }

  /** Pixel `(i, j)` of the tile in row `r` and column `c` of the grid is
      pixel `(r * (th + m) + i, c * (tw + m) + j)` of the mosaic. */
  lemma MosaicTileAt(grid: seq<seq<Raster>>, columns: nat, th: nat, tw: nat, m: nat, mc: Color,
                     r: nat, c: nat, i: nat, j: nat)
    requires TileGrid(grid, columns, th, tw)
    requires r < |grid| && c < columns && i < th && j < tw
    ensures r * (th + m) + i < Mosaic(grid, columns, th, tw, m, mc).height
    ensures c * (tw + m) + j < Mosaic(grid, columns, th, tw, m, mc).width
    ensures Mosaic(grid, columns, th, tw, m, mc).pix[r * (th + m) + i][c * (tw + m) + j] == grid[r][c].pix[i][j]
  {
    MosaicBlockAt(grid, columns, th, tw, m, mc, r, i, c, j);
    MosaicAt(grid, columns, th, tw, m, mc, Offset(r, th + m) + i, Offset(c, tw + m) + j);
    OffsetIsProduct(r, th + m);
    OffsetIsProduct(c, tw + m);
    assert r * (th + m) + i == Offset(r, th + m) + i;
    assert c * (tw + m) + j == Offset(c, tw + m) + j;
  }

  /** The colour at `(Offset(r, th + m) + i, Offset(c, tw + m) + j)`: the
      tile's pixel inside a tile, the margin colour elsewhere. */
  lemma MosaicBlockAt(grid: seq<seq<Raster>>, columns: nat, th: nat, tw: nat, m: nat, mc: Color,
                      r: nat, i: nat, c: nat, j: nat)
    requires TileGrid(grid, columns, th, tw)
    requires r < |grid| && i < th + m && (r + 1 < |grid| || i < th)
    requires c < columns && j < tw + m && (c + 1 < columns || j < tw)
    ensures Offset(r, th + m) + i < Span(|grid|, th, m)
    ensures Offset(c, tw + m) + j < Span(columns, tw, m)
    ensures MosaicPixel(grid, columns, th, tw, m, mc, Offset(r, th + m) + i, Offset(c, tw + m) + j)
         == BlockPixel(grid, columns, th, tw, mc, r, i, c, j)
  {
    OffsetInSpan(r, i, |grid|, th, m);
    OffsetInSpan(c, j, columns, tw, m);
    LocateOffset(r, i, th + m);
    LocateOffset(c, j, tw + m);
  }

  /** The mosaic's pixels are given by `MosaicPixel`. */
  lemma MosaicAt(grid: seq<seq<Raster>>, columns: nat, th: nat, tw: nat, m: nat, mc: Color, y: nat, x: nat)
    requires TileGrid(grid, columns, th, tw)
    requires y < Span(|grid|, th, m) && x < Span(columns, tw, m)
    ensures Mosaic(grid, columns, th, tw, m, mc).pix[y][x] == MosaicPixel(grid, columns, th, tw, m, mc, y, x)
  {
  }

  /** Between tile rows `r` and `r + 1` runs a horizontal strip `m` pixels
      high, the whole width of the mosaic, in the margin colour. */
  lemma MosaicHorizontalMargin(grid: seq<seq<Raster>>, columns: nat, th: nat, tw: nat, m: nat, mc: Color,
                               r: nat, i: nat, x: nat)
    requires TileGrid(grid, columns, th, tw)
    requires r + 1 < |grid| && th <= i < th + m && x < Mosaic(grid, columns, th, tw, m, mc).width
    ensures r * (th + m) + i < Mosaic(grid, columns, th, tw, m, mc).height
    ensures Mosaic(grid, columns, th, tw, m, mc).pix[r * (th + m) + i][x] == mc
  {
    LocateInSpan(x, columns, tw, m);
    LocateSplits(x, tw + m);
    MosaicBlockAt(grid, columns, th, tw, m, mc, r, i, Locate(x, tw + m).0, Locate(x, tw + m).1);
    MosaicAt(grid, columns, th, tw, m, mc, Offset(r, th + m) + i, x);
    OffsetIsProduct(r, th + m);
    assert r * (th + m) + i == Offset(r, th + m) + i;
  }

  /** Between tile columns `c` and `c + 1` runs a vertical strip `m` pixels
      wide, the whole height of the mosaic, in the margin colour. */
  lemma MosaicVerticalMargin(grid: seq<seq<Raster>>, columns: nat, th: nat, tw: nat, m: nat, mc: Color,
                             y: nat, c: nat, j: nat)
    requires TileGrid(grid, columns, th, tw)
    requires y < Mosaic(grid, columns, th, tw, m, mc).height && c + 1 < columns && tw <= j < tw + m
    ensures c * (tw + m) + j < Mosaic(grid, columns, th, tw, m, mc).width
    ensures Mosaic(grid, columns, th, tw, m, mc).pix[y][c * (tw + m) + j] == mc
  {
    LocateInSpan(y, |grid|, th, m);
    LocateSplits(y, th + m);
    MosaicBlockAt(grid, columns, th, tw, m, mc, Locate(y, th + m).0, Locate(y, th + m).1, c, j);
    MosaicAt(grid, columns, th, tw, m, mc, y, Offset(c, tw + m) + j);
    OffsetIsProduct(c, tw + m);
    assert c * (tw + m) + j == Offset(c, tw + m) + j;
  }

  lemma JoinedAllOfHeight(rs: seq<Raster>, sep: Raster, h: nat)
    requires |rs| > 0 && AllOfHeight(rs, h) && sep.Valid() && sep.height == h
    ensures AllOfHeight(DropLast(Interleave(rs, sep)), h)
  {
    InterleaveElements(rs, sep);
  }

  lemma JoinedAllOfWidth(rs: seq<Raster>, sep: Raster, w: nat)
    requires |rs| > 0 && AllOfWidth(rs, w) && sep.Valid() && sep.width == w
    ensures AllOfWidth(DropLast(Interleave(rs, sep)), w)
  {
    InterleaveElements(rs, sep);
  }

  lemma {:induction false} JoinedWidths(rs: seq<Raster>, sep: Raster, w: nat, p: nat)
    requires |rs| > 0 && sep.width == p && forall j :: 0 <= j < |rs| ==> rs[j].width == w
    ensures SumWidths(DropLast(Interleave(rs, sep))) == Span(|rs|, w, p)
    decreases |rs|
  {
    var s := DropLast(Interleave(rs, sep));
    if |rs| == 1 {
      assert s == [rs[0]];
      assert s[1..] == [];
    } else {
      var tail := DropLast(Interleave(rs[1..], sep));
      JoinedWidths(rs[1..], sep, w, p);
      assert s == [rs[0], sep] + tail;
      assert s[1..] == [sep] + tail && s[1..][1..] == tail;
    }
  }


  lemma {:induction false} JoinedHeights(rs: seq<Raster>, sep: Raster, h: nat, p: nat)
    requires |rs| > 0 && sep.height == p && forall j :: 0 <= j < |rs| ==> rs[j].height == h
    ensures SumHeights(DropLast(Interleave(rs, sep))) == Span(|rs|, h, p)
    decreases |rs|
  {
    var s := DropLast(Interleave(rs, sep));
    if |rs| == 1 {
      assert s == [rs[0]];
      assert s[1..] == [];
    } else {
      var tail := DropLast(Interleave(rs[1..], sep));
      JoinedHeights(rs[1..], sep, h, p);
      assert s == [rs[0], sep] + tail;
      assert s[1..] == [sep] + tail && s[1..][1..] == tail;
    }
  }


  /** One merged row of tiles: `np.concatenate(list(chain(zip(row, [pad] *
      columns)))[:-1], axis=1)`. */
  function MergeRow(row: seq<Raster>, th: nat, vpad: Raster): (r: Raster)
    requires |row| > 0 && AllOfHeight(row, th) && vpad.Valid() && vpad.height == th
    ensures r.Valid() && r.height == th
  {
    JoinedAllOfHeight(row, vpad, th);
    HConcat(DropLast(Interleave(row, vpad)), th)
  }

  /** Pixel `(i, q * (w + p) + j)` (as `Offset`) of a merged row, where `p` is the
      separator's width: pixel `(i, j)` of tile `q`, or pixel `(i, j - w)` of
      the separator that follows it. */
  lemma MergeRowAt(rs: seq<Raster>, sep: Raster, h: nat, w: nat, p: nat, i: nat, q: nat, j: nat)
    requires |rs| > 0 && AllOfHeight(rs, h) && AllOfWidth(rs, w)
    requires sep.Valid() && sep.height == h && sep.width == p
    requires i < h && q < |rs| && j < w + p && (q + 1 < |rs| || j < w)
    ensures Offset(q, w + p) + j < MergeRow(rs, h, sep).width
    ensures MergeRow(rs, h, sep).pix[i][Offset(q, w + p) + j]
         == if j < w then rs[q].pix[i][j] else sep.pix[i][j - w]
  {
    MergedRowPixels(rs, sep, h, i);
    var row := RowsAt(rs, i);
    assert row[q] == rs[q].pix[i];
    JoinedBlockAt(row, sep.pix[i], w, p, q, j);
  }

  /** Row `i` of a merged row is row `i` of each tile in turn, with the
      separator's row `i` between them. */
  lemma MergedRowPixels(rs: seq<Raster>, sep: Raster, h: nat, i: nat)
    requires |rs| > 0 && AllOfHeight(rs, h) && sep.Valid() && sep.height == h && i < h
    ensures MergeRow(rs, h, sep).pix[i] == Flatten(DropLast(Interleave(RowsAt(rs, i), sep.pix[i])))
  {
    JoinedAllOfHeight(rs, sep, h);
    var all := Interleave(rs, sep);
    RowsAtInterleave(rs, sep, i);
    assert RowsAt(DropLast(all), i) == DropLast(RowsAt(all, i));
  }

  /** Row `q * (h + p) + i` (as `Offset`) of rasters stacked with separators, where `p` is
      the separator's height: row `i` of raster `q`, or row `i - h` of the
      separator that follows it. */
  lemma StackAt(rs: seq<Raster>, sep: Raster, h: nat, w: nat, p: nat, q: nat, i: nat)
    requires |rs| > 0 && AllOfHeight(rs, h) && AllOfWidth(rs, w)
    requires sep.Valid() && sep.width == w && sep.height == p
    requires q < |rs| && i < h + p && (q + 1 < |rs| || i < h)
    ensures AllOfWidth(DropLast(Interleave(rs, sep)), w)
    ensures Offset(q, h + p) + i < VConcat(DropLast(Interleave(rs, sep)), w).height
    ensures VConcat(DropLast(Interleave(rs, sep)), w).pix[Offset(q, h + p) + i]
         == if i < h then rs[q].pix[i] else sep.pix[i - h]
  {
    StackedPixes(rs, sep, w);
    var ps := Pixes(rs);
    assert ps[q] == rs[q].pix;
    JoinedBlockAt(ps, sep.pix, h, p, q, i);
  }

  /** The rows of rasters stacked with separators are the rows of each
      raster in turn, with the separator's rows between them. */
  lemma StackedPixes(rs: seq<Raster>, sep: Raster, w: nat)
    requires |rs| > 0 && AllOfWidth(rs, w) && sep.Valid() && sep.width == w
    ensures AllOfWidth(DropLast(Interleave(rs, sep)), w)
    ensures VConcat(DropLast(Interleave(rs, sep)), w).pix == Flatten(DropLast(Interleave(Pixes(rs), sep.pix)))
  {
    var all := Interleave(rs, sep);
    JoinedAllOfWidth(rs, sep, w);
    PixesInterleave(rs, sep);
    assert Pixes(DropLast(all)) == DropLast(Pixes(all));
  }

  /** Stacking the merged rows with horizontal strips between them gives
      the mosaic. */
  lemma {:induction false} StackedRowsAreMosaic(grid: seq<seq<Raster>>, columns: nat, th: nat, tw: nat, m: nat, mc: Color,
                                               rows: seq<Raster>)
    requires TileGrid(grid, columns, th, tw)
    requires |rows| == |grid|
    requires forall r {:trigger MergeRow(grid[r], th, Solid(th, m, mc))} :: 0 <= r < |grid| ==> rows[r] == MergeRow(grid[r], th, Solid(th, m, mc))
    ensures AllOfHeight(rows, th)
    ensures AllOfWidth(rows, Span(columns, tw, m))
    ensures AllOfWidth(DropLast(Interleave(rows, Solid(m, Span(columns, tw, m), mc))), Span(columns, tw, m))
    ensures VConcat(DropLast(Interleave(rows, Solid(m, Span(columns, tw, m), mc))), Span(columns, tw, m))
         == Mosaic(grid, columns, th, tw, m, mc)
  {
    var w := Span(columns, tw, m);
    var vpad, hpad := Solid(th, m, mc), Solid(m, w, mc);
    MergedRowsShape(grid, columns, th, tw, m, mc, rows);
    JoinedAllOfWidth(rows, hpad, w);
    JoinedHeights(rows, hpad, th, m);
    StackedRowsPixels(grid, columns, th, tw, m, mc, rows);
    var out := VConcat(DropLast(Interleave(rows, hpad)), w);
    var mosaic := Mosaic(grid, columns, th, tw, m, mc);
    assert out.height == mosaic.height && out.width == mosaic.width;
  }

  /** Every merged row is `th` high and as wide as the mosaic. */
  lemma MergedRowsShape(grid: seq<seq<Raster>>, columns: nat, th: nat, tw: nat, m: nat, mc: Color,
                        rows: seq<Raster>)
    requires TileGrid(grid, columns, th, tw)
    requires |rows| == |grid|
    requires forall r {:trigger MergeRow(grid[r], th, Solid(th, m, mc))} :: 0 <= r < |grid| ==> rows[r] == MergeRow(grid[r], th, Solid(th, m, mc))
    ensures AllOfHeight(rows, th) && AllOfWidth(rows, Span(columns, tw, m))
  {
    forall r | 0 <= r < |grid|
      ensures rows[r].Valid() && rows[r].height == th && rows[r].width == Span(columns, tw, m)
    {
      assert rows[r] == MergeRow(grid[r], th, Solid(th, m, mc));
      JoinedWidths(grid[r], Solid(th, m, mc), tw, m);
    }
  }

  /** The rows of the stacked merged rows are those of the mosaic. */
  lemma StackedRowsPixels(grid: seq<seq<Raster>>, columns: nat, th: nat, tw: nat, m: nat, mc: Color,
                          rows: seq<Raster>)
    requires TileGrid(grid, columns, th, tw)
    requires |rows| == |grid|
    requires AllOfHeight(rows, th) && AllOfWidth(rows, Span(columns, tw, m))
    requires forall r {:trigger MergeRow(grid[r], th, Solid(th, m, mc))} :: 0 <= r < |grid| ==> rows[r] == MergeRow(grid[r], th, Solid(th, m, mc))
    ensures AllOfWidth(DropLast(Interleave(rows, Solid(m, Span(columns, tw, m), mc))), Span(columns, tw, m))
    ensures VConcat(DropLast(Interleave(rows, Solid(m, Span(columns, tw, m), mc))), Span(columns, tw, m)).pix
         == Mosaic(grid, columns, th, tw, m, mc).pix
  {
    var w := Span(columns, tw, m);
    var hpad := Solid(m, w, mc);
    JoinedAllOfWidth(rows, hpad, w);
    JoinedHeights(rows, hpad, th, m);
    var out := VConcat(DropLast(Interleave(rows, hpad)), w);
    var mosaic := Mosaic(grid, columns, th, tw, m, mc);
    forall y | 0 <= y < mosaic.height ensures out.pix[y] == mosaic.pix[y] {
      MosaicRow(grid, columns, th, tw, m, mc, rows, y);
    }
  }

  /** One row of the stacked merged rows is the same row of the mosaic. */
  lemma MosaicRow(grid: seq<seq<Raster>>, columns: nat, th: nat, tw: nat, m: nat, mc: Color,
                  rows: seq<Raster>, y: nat)
    requires TileGrid(grid, columns, th, tw)
    requires |rows| == |grid|
    requires AllOfHeight(rows, th) && AllOfWidth(rows, Span(columns, tw, m))
    requires forall r {:trigger MergeRow(grid[r], th, Solid(th, m, mc))} :: 0 <= r < |grid| ==> rows[r] == MergeRow(grid[r], th, Solid(th, m, mc))
    requires y < Span(|grid|, th, m)
    ensures AllOfWidth(DropLast(Interleave(rows, Solid(m, Span(columns, tw, m), mc))), Span(columns, tw, m))
    ensures y < |VConcat(DropLast(Interleave(rows, Solid(m, Span(columns, tw, m), mc))), Span(columns, tw, m)).pix|
    ensures VConcat(DropLast(Interleave(rows, Solid(m, Span(columns, tw, m), mc))), Span(columns, tw, m)).pix[y]
         == Mosaic(grid, columns, th, tw, m, mc).pix[y]
  {
    var w := Span(columns, tw, m);
    var hpad := Solid(m, w, mc);
    LocateInSpan(y, |grid|, th, m);
    LocateSplits(y, th + m);
    var q, i := Locate(y, th + m).0, Locate(y, th + m).1;
    StackAt(rows, hpad, th, w, m, q, i);
    if i < th {
      MosaicTileRow(grid, columns, th, tw, m, mc, y, q, i);
    } else {
      MosaicMarginRow(grid, columns, th, tw, m, mc, y, q, i);
    }
  }

  /** A mosaic row that crosses tile row `q` at offset `i` is row `i` of
      that tile row merged with vertical strips. */
  lemma MosaicTileRow(grid: seq<seq<Raster>>, columns: nat, th: nat, tw: nat, m: nat, mc: Color, y: nat, q: nat, i: nat)
    requires TileGrid(grid, columns, th, tw)
    requires y < Span(|grid|, th, m)
    requires th + m > 0 && Locate(y, th + m).0 == q && Locate(y, th + m).1 == i && q < |grid| && i < th
    ensures Mosaic(grid, columns, th, tw, m, mc).pix[y] == MergeRow(grid[q], th, Solid(th, m, mc)).pix[i]
  {
    var vpad := Solid(th, m, mc);
    var mosaic := Mosaic(grid, columns, th, tw, m, mc);
    var row := MergeRow(grid[q], th, vpad).pix[i];
    JoinedWidths(grid[q], vpad, tw, m);
    assert |row| == |mosaic.pix[y]|;
    forall x | 0 <= x < |row| ensures row[x] == mosaic.pix[y][x] {
      LocateInSpan(x, columns, tw, m);
      LocateSplits(x, tw + m);
      var c, j := Locate(x, tw + m).0, Locate(x, tw + m).1;
      MergeRowAt(grid[q], vpad, th, tw, m, i, c, j);
    }
  }

  /** A mosaic row at offset `i >= th` of its block lies in a horizontal
      strip: it is a row of the strip. */
  lemma MosaicMarginRow(grid: seq<seq<Raster>>, columns: nat, th: nat, tw: nat, m: nat, mc: Color, y: nat, q: nat, i: nat)
    requires TileGrid(grid, columns, th, tw)
    requires y < Span(|grid|, th, m)
    requires th + m > 0 && Locate(y, th + m).1 == i && th <= i
    ensures Mosaic(grid, columns, th, tw, m, mc).pix[y] == Solid(m, Span(columns, tw, m), mc).pix[i - th]
  {
  }

  /** `_merge_tiles_elements`: merges each row of tiles with vertical strips
      between them, then interleaves the merged rows with a horizontal strip
      in a loop and stacks them, dropping the trailing strip. */
  method MergeTilesElements(grid: seq<seq<Raster>>, columns: nat, th: nat, tw: nat, m: nat, mc: Color)
    returns (out: Raster)
    requires TileGrid(grid, columns, th, tw)
    ensures out == Mosaic(grid, columns, th, tw, m, mc)
  {
    var vpad := Solid(th, m, mc);
    var mergedRows := seq(|grid|, r requires 0 <= r < |grid| => MergeRow(grid[r], th, vpad));
    JoinedWidths(grid[0], vpad, tw, m);
    var rowWidth := mergedRows[0].width;
    var hpad := Solid(m, rowWidth, mc);
    var withPaddings: seq<Raster> := [];
    for r := 0 to |mergedRows|
      invariant withPaddings == Interleave(mergedRows[..r], hpad)
    {
      InterleaveSnoc(mergedRows[..r], mergedRows[r], hpad);
      assert mergedRows[..r + 1] == mergedRows[..r] + [mergedRows[r]];
      withPaddings := withPaddings + [mergedRows[r], hpad];
    }
    assert mergedRows[..|mergedRows|] == mergedRows;
    StackedRowsAreMosaic(grid, columns, th, tw, m, mc, mergedRows);
    out := VConcat(DropLast(withPaddings), rowWidth);
  }

  /** `_generate_color_image(shape, color)`: a `(width, height)` image of one
      colour. */
  function GenerateColorImage(shape: (nat, nat), c: Color): (r: Raster)
    ensures r.Valid() && r.width == shape.0 && r.height == shape.1
    ensures forall y, x :: 0 <= y < r.height && 0 <= x < r.width ==> r.pix[y][x] == c
  {
    Solid(shape.1, shape.0, c)
  }

  /** The tile at row `r`, column `c`: image `r * columns + c` (as
      `Offset`) when there is one, the blank filler otherwise. */
  function Cell(tiles: seq<Raster>, columns: nat, filler: Raster, r: nat, c: nat): Raster
  {
    if Offset(r, columns) + c < |tiles| then tiles[Offset(r, columns) + c] else filler
  }

  /** Every cell present in `grid` holds what `Cell` places there. */
  predicate CellsAgree(grid: seq<seq<Raster>>, tiles: seq<Raster>, columns: nat, filler: Raster)
  {
    forall r, c :: 0 <= r < |grid| && 0 <= c < |grid[r]| ==> grid[r][c] == Cell(tiles, columns, filler, r, c)
  }

  /** The grid `_generate_tiles` builds: `max(rows, ceil(n / columns))` rows
      of `columns` cells, filled row-major. */
  function PaddedGrid(tiles: seq<Raster>, rows: nat, columns: nat, filler: Raster): (g: seq<seq<Raster>>)
    requires columns > 0
    ensures |g| == Max(rows, CeilDiv(|tiles|, columns))
    ensures forall r :: 0 <= r < |g| ==> |g[r]| == columns
  {
    var n := Max(rows, CeilDiv(|tiles|, columns));
    seq(n, r requires 0 <= r < n => seq(columns, c requires 0 <= c < columns => Cell(tiles, columns, filler, r, c)))
  }

  /** Image `k` sits in row `k / columns`, column `k % columns`. */
  lemma PaddedGridPlacement(tiles: seq<Raster>, rows: nat, columns: nat, filler: Raster, k: nat)
    requires columns > 0 && k < |tiles|
    ensures k / columns < |PaddedGrid(tiles, rows, columns, filler)| && k % columns < columns
    ensures PaddedGrid(tiles, rows, columns, filler)[k / columns][k % columns] == tiles[k]
  {
    var q := k / columns;
    DivModUnique(k, columns, q, k % columns);
    CeilDivMost(|tiles|, columns, q + 1);
    OffsetIsProduct(q, columns);
  }

  /** Every cell past the last image holds the filler. */
  lemma PaddedGridBlank(tiles: seq<Raster>, rows: nat, columns: nat, filler: Raster, r: nat, c: nat)
    requires columns > 0 && r < |PaddedGrid(tiles, rows, columns, filler)| && c < columns
    requires r * columns + c >= |tiles|
    ensures PaddedGrid(tiles, rows, columns, filler)[r][c] == filler
  {
    OffsetIsProduct(r, columns);
  }

  /** With a uniform filler, the padded grid of uniform tiles is ready to
      merge. */
  lemma PaddedGridIsTileGrid(tiles: seq<Raster>, rows: nat, columns: nat, filler: Raster, th: nat, tw: nat)
    requires columns > 0 && |tiles| > 0
    requires AllOfHeight(tiles, th) && AllOfWidth(tiles, tw)
    requires filler.Valid() && filler.height == th && filler.width == tw
    ensures TileGrid(PaddedGrid(tiles, rows, columns, filler), columns, th, tw)
  {
    CeilDivLeast(|tiles|, columns, |tiles|);
    CeilDivMost(|tiles|, columns, 1);
  }

  /** A grid of `max(rows, ceil(n / columns))` full rows whose cells agree
      with `Cell` is the padded grid. */
  lemma CellsArePaddedGrid(grid: seq<seq<Raster>>, tiles: seq<Raster>, rows: nat, columns: nat, filler: Raster)
    requires columns > 0 && |grid| == Max(rows, CeilDiv(|tiles|, columns))
    requires forall r :: 0 <= r < |grid| ==> |grid[r]| == columns
    requires CellsAgree(grid, tiles, columns, filler)
    ensures grid == PaddedGrid(tiles, rows, columns, filler)
  {
    var g := PaddedGrid(tiles, rows, columns, filler);
    forall r | 0 <= r < |grid| ensures grid[r] == g[r] {
    }
  }

  /** Batch `i` of the tiles: full unless it is the last one, which ends at
      the last image; its cells agree with `Cell`. */
  lemma BatchRow(tiles: seq<Raster>, columns: nat, filler: Raster, i: nat)
    requires columns > 0 && i < |Batches(tiles, columns)|
    ensures i + 1 < |Batches(tiles, columns)| ==> |Batches(tiles, columns)[i]| == columns
    ensures i + 1 == |Batches(tiles, columns)| ==>
      0 < |Batches(tiles, columns)[i]| <= columns && Offset(i, columns) + |Batches(tiles, columns)[i]| == |tiles|
    ensures forall c :: 0 <= c < |Batches(tiles, columns)[i]| ==> Batches(tiles, columns)[i][c] == Cell(tiles, columns, filler, i, c)
  {
    var b := |Batches(tiles, columns)|;
    BatchesLength(tiles, columns);
    BatchesAt(tiles, columns, i);
    OffsetIsProduct(i, columns);
    if i + 1 < b {
      MulLeftMono(i + 1, b - 1, columns);
      SubOneMul(i + 1, columns);
    }
  }

  /** `create_batches(images, columns)` as `_generate_tiles` finds it. */
  lemma BatchedCells(tiles: seq<Raster>, columns: nat, filler: Raster)
    requires |tiles| > 0 && columns > 0
    ensures |Batches(tiles, columns)| == CeilDiv(|tiles|, columns) > 0
    ensures forall i :: 0 <= i < |Batches(tiles, columns)| - 1 ==> |Batches(tiles, columns)[i]| == columns
    ensures 0 < |Batches(tiles, columns)[|Batches(tiles, columns)| - 1]| <= columns
    ensures Offset(|Batches(tiles, columns)| - 1, columns) + |Batches(tiles, columns)[|Batches(tiles, columns)| - 1]| == |tiles|
    ensures CellsAgree(Batches(tiles, columns), tiles, columns, filler)
  {
    var g := Batches(tiles, columns);
    BatchesLength(tiles, columns);
    CeilDivMost(|tiles|, columns, 1);
    forall i | 0 <= i < |g|
      ensures i + 1 < |g| ==> |g[i]| == columns
      ensures i + 1 == |g| ==> 0 < |g[i]| <= columns && Offset(i, columns) + |g[i]| == |tiles|
      ensures forall c :: 0 <= c < |g[i]| ==> g[i][c] == Cell(tiles, columns, filler, i, c)
    {
      BatchRow(tiles, columns, filler, i);
    }
  }

  /** The first loop of `_generate_tiles`: appends blank tiles to the last
      row until it holds `columns` tiles. */
  method PadLastRow(grid: seq<seq<Raster>>, tiles: seq<Raster>, columns: nat, filler: Raster)
    returns (g: seq<seq<Raster>>)
    requires |grid| > 0 && columns > 0
    requires forall i :: 0 <= i < |grid| - 1 ==> |grid[i]| == columns
    requires |grid[|grid| - 1]| <= columns && Offset(|grid| - 1, columns) + |grid[|grid| - 1]| >= |tiles|
    requires CellsAgree(grid, tiles, columns, filler)
    ensures |g| == |grid| && forall i :: 0 <= i < |g| ==> |g[i]| == columns
    ensures Offset(|g|, columns) >= |tiles|
    ensures CellsAgree(g, tiles, columns, filler)
  {
    var b := |grid|;
    g := grid;
    while |g[b - 1]| < columns
      invariant |g| == b
      invariant forall i :: 0 <= i < b - 1 ==> |g[i]| == columns
      invariant |g[b - 1]| <= columns
      invariant Offset(b - 1, columns) + |g[b - 1]| >= |tiles|
      invariant CellsAgree(g, tiles, columns, filler)
      decreases columns - |g[b - 1]|
    {
      g := g[..b - 1] + [g[b - 1] + [filler]];
    }
  }

  /** The second loop of `_generate_tiles`: appends rows of `columns` blank
      tiles until there are `rows` rows. */
  method AddBlankRows(grid: seq<seq<Raster>>, tiles: seq<Raster>, rows: nat, columns: nat, filler: Raster)
    returns (g: seq<seq<Raster>>)
    requires forall i :: 0 <= i < |grid| ==> |grid[i]| == columns
    requires Offset(|grid|, columns) >= |tiles|
    requires CellsAgree(grid, tiles, columns, filler)
    ensures |g| == Max(rows, |grid|) && forall i :: 0 <= i < |g| ==> |g[i]| == columns
    ensures CellsAgree(g, tiles, columns, filler)
  {
    g := grid;
    while |g| < rows
      invariant |grid| <= |g| <= Max(rows, |grid|)
      invariant forall i :: 0 <= i < |g| ==> |g[i]| == columns
      invariant CellsAgree(g, tiles, columns, filler)
      decreases rows - |g|
    {
      OffsetMono(|grid|, |g|, columns);
      g := g + [seq(columns, _ => filler)];
    }
  }

  /** `_generate_tiles`: draws the titles, cuts the tiles into rows of
      `columns`, completes the last row with blank tiles in one loop, adds
      blank rows up to `rows` in another, and merges the grid. */
  method GenerateTiles(
    images: seq<Raster>, rows: nat, columns: nat, tileSize: (nat, nat), padColor: Color,
    margin: nat, marginColor: Color,
    titles: Option<seq<Option<string>>>, anchors: seq<Option<Point>>, placement: Placement,
    style: TitleStyle, scale: Option<real>,
    draw: (Raster, string, Point, TitleStyle) -> Raster, textScale: (nat, nat) -> real)
    returns (out: Raster)
    requires |images| > 0 && columns > 0
    requires AllOfHeight(images, tileSize.1) && AllOfWidth(images, tileSize.0)
    requires KeepsShape(draw)
    requires |TitledTiles(images, titles, anchors, placement, style, scale, draw, textScale)| > 0
    ensures var tiles := TitledTiles(images, titles, anchors, placement, style, scale, draw, textScale);
      var filler := GenerateColorImage(tileSize, padColor);
      && TileGrid(PaddedGrid(tiles, rows, columns, filler), columns, tileSize.1, tileSize.0)
      && out == Mosaic(PaddedGrid(tiles, rows, columns, filler), columns, tileSize.1, tileSize.0, margin, marginColor)
  {
    var tiles := DrawTexts(images, titles, anchors, placement, style, scale, draw, textScale);
    TitledTilesKeepTiles(images, titles, anchors, placement, style, scale, draw, textScale, tileSize.1, tileSize.0);
    var filler := GenerateColorImage(tileSize, padColor);
    var grid := Batches(tiles, columns);
    BatchedCells(tiles, columns, filler);
    grid := PadLastRow(grid, tiles, columns, filler);
    grid := AddBlankRows(grid, tiles, rows, columns, filler);
    CellsArePaddedGrid(grid, tiles, rows, columns, filler);
    PaddedGridIsTileGrid(tiles, rows, columns, filler, tileSize.1, tileSize.0);
    out := MergeTilesElements(grid, columns, tileSize.1, tileSize.0, margin, marginColor);
  }
}
