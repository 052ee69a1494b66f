# Image utilities of supervision, modelled in Dafny

This project models `supervision/utils/image.py`, the image helpers of the
supervision library, and proves properties of the model. It covers two groups.

- **The single-image helpers.**
  - `crop_image` rounds an `xyxy` box and slices the image with numpy.
  - `resize_image` scales both sides by one factor.
  - `place_image` pastes an image into a scene buffer in place, clipped to the
    scene.
- **The tile-mosaic engine.** `create_tiles` is its public entry point. It:
  - checks its arguments in a fixed order;
  - votes on the output format;
  - aggregates a common tile size (`min`, `max` or rounded `avg`);
  - letterboxes every image to that size (`letterbox_image`, which calls
    `resize_image_keeping_aspect_ratio`);
  - settles the grid (`_establish_grid_size`, `_negotiate_grid_size`);
  - normalises the titles and their anchors, and draws the titles
    (`_draw_texts`, `_prepare_default_titles_anchors`);
  - cuts the tiles into padded rows (`_generate_tiles`);
  - merges them with margin strips (`_merge_tiles_elements`).

An image is a `Raster`: a height, a width, and a row-major sequence of BGR
`Color` pixels. `Valid()` says the pixels form a rectangle, and zero sides are
allowed. The exceptions the source raises are `Failure` values of a `Result`:

| error | raised by |
|---|---|
| `EmptyInput` | `create_tiles` on an empty list |
| `UnknownScalingMode` | `_aggregate_images_shape` |
| `GridCapacity` | the capacity check of `create_tiles` |
| `InvalidScaleFactor` | `resize_image` |
| `ZeroDivision` | Python's `ZeroDivisionError` |
| `ResizeFailed` | OpenCV refusing an empty source or target size |

Modules, in dependency order:

- `Common`: `Option`, `Result`, `Error` and `Color`.
- `Arith`: the integer forms of `math.ceil(a / b)` and
  `math.ceil(np.sqrt(n))`, and linear stand-ins for products and for division
  used in layout proofs.
- `Seqs`: `fill`, `create_batches`, and the `chain(zip(...))[:-1]`
  interleaving.
- `Rasters`: the numpy and OpenCV primitives the core calls.
  - `np.ones * color`, `cv2.copyMakeBorder` and `np.concatenate` along each
    axis.
  - A size-only stand-in for `cv2.resize`.
- `Grid`: grid planning, shape aggregation and the format vote.
- `Letterbox`: `resize_image_keeping_aspect_ratio` and `letterbox_image`.
- `Titles`: default anchors, anchor normalisation and `_draw_texts`.
- `Compose`: the padded grid of `_generate_tiles` and the merge of
  `_merge_tiles_elements`.
  - Both are methods with loops.
  - Each is proved equal to a pixel-level reference image, `Mosaic`.
- `Tiles`: `create_tiles`.
  - `PlanTiles` holds everything the function decides before it draws.
  - `TilesImage` is the result as a function.
  - `CreateTiles` is the step-by-step method proved equal to `TilesImage`.
- `Single`: `crop_image`, `resize_image`, and `place_image` as a method over a
  mutable `array2`.

Where the documentation and the code differ, the model follows the code.

- **The format vote.** The `create_tiles` docstring (lines 249-250) promises
  a majority vote with ties going to OpenCV. The code (line 340) compares the
  count of numpy arrays with `len(images) // 2`. So one array among three
  images already selects "cv2". `Grid.FormatVote` proves this case.
- **A single anchor.** The docstring (lines 257-259) says an anchor can be
  given "globally". The code wraps a single `Point` into a one-element list
  and fills that list with `None`. So only the first tile uses the given
  point, and the others get the default anchor. `Titles.LoneAnchorFirstOnly`
  proves this.
- **Negative crop coordinates.** `crop_image` does not clip them. A negative
  coordinate counts from the far edge, as Python slicing does.
  `Single.CropLeftOverhangIsEmpty` proves one consequence.

Some members are reference definitions without a contract of their own.
The lemmas in the table state what they mean:
- `Grid.AutoGrid` (image.py:383-391), by `Grid.AutoGridShape`;
- `Grid.Average` (image.py:348), by `Grid.AverageBetween`;
- `Seqs.Batches` (image.py:424), by `Seqs.BatchesLength` and `Seqs.BatchesAt`;
- `Tiles.OutputFormat` (image.py:286-287), through `Grid.NegotiateTilesFormat`;
- `Titles.WrapAnchors` (image.py:306-310), by `Titles.NormalizeAnchors`;
- `Titles.ResolveScale` (image.py:462-466), by `Titles.TitledTileDrawn`.

## Model

| member | source | states |
|---|---|---|
| Arith.CeilDiv | supervision/utils/image.py:377-379 | `math.ceil(n / k)` for whole numbers: the least `q` with `q * k >= n`, so `(q - 1) * k < n` |
| Arith.CeilSqrt | supervision/utils/image.py:386 | `math.ceil(np.sqrt(n))`: the least `s` with `s * s >= n` |
| Seqs.Fill | supervision/utils/image.py:304-313 | `fill` keeps the list as its prefix, pads it with the filler up to the desired size, and never shortens it |
| Seqs.FillIdempotent | supervision/utils/image.py:311-313 | filling an already filled list again changes nothing |
| Seqs.BatchesLength | supervision/utils/image.py:424 | `create_batches` yields `ceil(n / columns)` batches |
| Seqs.BatchesAt | supervision/utils/image.py:424 | batch `i` is the slice of the images from `i * columns`, of length `min(columns, n - i * columns)`, so the batches read the images back in row-major order |
| Seqs.JoinedBlockAt | supervision/utils/image.py:516-526 | after interleaving blocks with a separator and dropping the trailing separator, offset `i` of block `q` holds the block's element or the separator's element |
| Rasters.Solid | supervision/utils/image.py:513-515 | `np.ones(shape) * color` is an image of the requested size, all in that colour |
| Rasters.CopyMakeBorder | supervision/utils/image.py:579-587 | a constant border grows the image by the four paddings; inner pixels are the image's pixels shifted by `(top, left)`, and the others take the border colour |
| Rasters.NoBorderIsIdentity | supervision/utils/image.py:579-587 | a zero border returns the image unchanged |
| Rasters.HConcat | supervision/utils/image.py:517-524 | `np.concatenate(axis=1)` of equal-height images: the widths add up, and each row is the same row of every image in turn |
| Rasters.VConcat | supervision/utils/image.py:535-538 | `np.concatenate(axis=0)` of equal-width images: the heights add up, and the rows are those of every image in turn |
| Grid.AutoGridShape | supervision/utils/image.py:383-391 | up to three images form one row; beyond that there are `ceil(sqrt n)` columns and `ceil(sqrt n)` or one fewer rows, with room for all `n` images and a non-empty last row |
| Grid.NegotiateGridSize | supervision/utils/image.py:383-391 | the row-trimming loop of `_negotiate_grid_size` ends on the automatic grid (`AutoGrid`) |
| Grid.EstablishGridSize | supervision/utils/image.py:371-380 | a full override is returned as given; a missing override (or two missing entries) gives exactly the automatic grid `AutoGrid(n)`; a partial override fixes the given side and derives the other so that every image fits and no row is wasted; a given zero with the other side missing fails with `ZeroDivision`, and that is the only failure |
| Grid.MinOf | supervision/utils/image.py:354 | `np.min` is an element of the list and no larger than any element |
| Grid.MaxOf | supervision/utils/image.py:355 | `np.max` is an element of the list and no smaller than any element |
| Grid.SumBounds | supervision/utils/image.py:356 | the sum lies between `n * min` and `n * max` |
| Grid.RoundHalfEven | supervision/utils/image.py:348-349 | Python's `round(num / den)` is within one half of the exact quotient, and on a tie it is even |
| Grid.RoundHalfEvenUnique | supervision/utils/image.py:348-349 | those two properties determine the rounded quotient: any whole number within one half that is even on a tie equals it |
| Grid.AverageBetween | supervision/utils/image.py:348-349 | `round(np.average(xs))` lies between `np.min` and `np.max` of the list |
| Grid.RoundedBetween | supervision/utils/image.py:348-349 | rounding a quotient that lies between `lo` and `hi` stays between them |
| Grid.AggregateImagesShape | supervision/utils/image.py:345-368 | an unknown mode fails with `UnknownScalingMode`, and only an unknown mode fails; `avg` gives the rounded means `(round(mean width), round(mean height))`; `min` and `max` give a `(width, height)` that is the least or greatest side of some image; every mode stays within the images' range of sides |
| Grid.NegotiateTilesFormat | supervision/utils/image.py:338-342 | "cv2" exactly when the count of numpy arrays is at least `len // 2` |
| Grid.UniformFormats | supervision/utils/image.py:338-342 | all arrays give "cv2"; two or more PIL images give "pillow"; one PIL image gives "cv2" |
| Grid.FormatVote | supervision/utils/image.py:338-342 | a tie or an array majority gives "cv2", and so does one array among three images |
| Letterbox.CvResize | supervision/utils/image.py:627 | `cv2.resize` succeeds exactly when the source and the target are non-empty, and then returns an image of the target size |
| Letterbox.TruncatedSide | supervision/utils/image.py:621-626 | the truncated `int(W / ratio)` side never exceeds the box when the other side is matched |
| Letterbox.ResizeToWidth | supervision/utils/image.py:621-623 | succeeds exactly when `W > 0` and the truncated height `W * h // w` is positive (`W * h >= w`); the width is matched, and the height is the truncated aspect-preserving height, at most `H` |
| Letterbox.ResizeToHeight | supervision/utils/image.py:624-626 | succeeds exactly when `H > 0` and the truncated width `H * w // h` is positive (`H * w >= h`); the height is matched, and the width is the truncated aspect-preserving width, at most `W` |
| Letterbox.ResizeKeepingAspectRatio | supervision/utils/image.py:617-627 | an image already of the desired size is returned as it is; a failure is `ZeroDivision` exactly when a height is zero or a zero-width image meets a zero-width box, and `ResizeFailed` otherwise; it succeeds exactly when the image already has the size or both heights are positive and the matched side and the truncated other side are positive; the dominant side is matched and the other is truncated; the result fits in the box |
| Letterbox.EnlargeSucceeds | supervision/utils/image.py:617-627 | resizing a non-empty image into a box at least as large on both sides always succeeds |
| Letterbox.LandscapeIntoSquare | supervision/utils/image.py:598-603 | the documented example: 640 x 480 into 1024 x 1024 gives 1024 x 768 |
| Letterbox.ThinImageFails | supervision/utils/image.py:621-627 | a 1000 x 1 image into a 10 x 10 box truncates its height to zero, so the resize and the letterbox fail |
| Letterbox.CenterPad | supervision/utils/image.py:574-587 | the padded image has exactly the desired size; the resized image sits at `((W - w) // 2, (H - h) // 2)`; each top or left margin is at most one pixel smaller than the bottom or right one; every other pixel has the padding colour |
| Letterbox.LetterboxImage | supervision/utils/image.py:569-587 | letterboxing fails exactly when the resize fails, with the same error (`ZeroDivision` exactly for a zero height or a zero-width image in a zero-width box); otherwise the image is the centred padding of the resized image, of exactly the desired size |
| Letterbox.LetterboxIdentity | supervision/utils/image.py:617-618 | letterboxing an image to its own size returns it unchanged |
| Letterbox.LetterboxAll | supervision/utils/image.py:293-298 | the list comprehension letterboxes every image in order, or fails with `ZeroDivision` or `ResizeFailed` |
| Letterbox.LetterboxAllFailure | supervision/utils/image.py:293-298 | a failing list fails with the error of its first failing image |
| Titles.DefaultAnchor | supervision/utils/image.py:497-501 | the default anchor is horizontally centred, at a tenth of the height for `top` and nine tenths for `bottom` |
| Titles.DefaultAnchorsMirror | supervision/utils/image.py:498-501 | the top and bottom default anchors are mirror images about the middle of the image |
| Titles.PrepareDefaultAnchors | supervision/utils/image.py:487-503 | the zip keeps each given anchor, substitutes the default for a missing one, and stops at the shorter list |
| Titles.NormalizeAnchors | supervision/utils/image.py:306-313 | the wrapped argument is kept as the prefix and padded with `None` to one per image; a list keeps its anchors; no anchor or a single anchor becomes a one-element list, so no anchor gives `None` everywhere |
| Titles.LoneAnchorFirstOnly | supervision/utils/image.py:306-313 | a single point anchors the first tile only, and every later tile has no anchor |
| Titles.TitledTiles | supervision/utils/image.py:455-484 | without titles the images are returned as they are; with titles there are as many tiles as the shortest of the images, titles and anchors |
| Titles.TitledTileDrawn | supervision/utils/image.py:462-483 | a tile whose title is present is `draw_text` of the image, the title, the given or default anchor, and the style with the given scale or the one computed from the first image's `(width, height)` |
| Titles.DrawTexts | supervision/utils/image.py:443-484 | the drawing loop over the zipped lists produces `TitledTiles` |
| Titles.UntitledTileUnchanged | supervision/utils/image.py:468-471 | a tile whose title is `None` is passed through unchanged |
| Titles.TitledTilesKeepTiles | supervision/utils/image.py:468-484 | with one title and one anchor per image, no tile is lost; a shape-preserving `draw_text` keeps every tile's size |
| Compose.Mosaic | supervision/utils/image.py:506-538 | the reference mosaic is `R` tile rows high and `C` tile columns wide, with `m`-pixel strips between tiles |
| Compose.MosaicShape | supervision/utils/image.py:506-538 | an `R x C` grid of `th x tw` tiles merges into an image of `R * th + (R - 1) * m` by `C * tw + (C - 1) * m` pixels |
| Compose.MosaicTileAt | supervision/utils/image.py:516-538 | pixel `(i, j)` of the tile at row `r`, column `c` lands at `(r * (th + m) + i, c * (tw + m) + j)` |
| Compose.MosaicHorizontalMargin | supervision/utils/image.py:528-537 | the strip between two tile rows has the margin colour across the whole width |
| Compose.MosaicVerticalMargin | supervision/utils/image.py:513-524 | the strip between two tile columns has the margin colour down the whole height |
| Compose.MergeRow | supervision/utils/image.py:516-526 | a merged row of tiles is exactly one tile high |
| Compose.MergeRowAt | supervision/utils/image.py:516-526 | in a merged row, offset `j` of block `q` is tile `q`'s pixel, or the margin strip past the tile's width |
| Compose.StackedRowsAreMosaic | supervision/utils/image.py:527-538 | stacking the merged rows with horizontal strips between them gives the reference mosaic |
| Compose.MergeTilesElements | supervision/utils/image.py:506-538 | `_merge_tiles_elements` returns the reference mosaic of the grid |
| Compose.GenerateColorImage | supervision/utils/image.py:541-544 | a `(width, height)` image all in one colour |
| Compose.PaddedGrid | supervision/utils/image.py:423-433 | the padded grid has `max(rows, ceil(n / columns))` rows of exactly `columns` tiles |
| Compose.PaddedGridPlacement | supervision/utils/image.py:424 | image `k` sits in row `k // columns`, column `k % columns` |
| Compose.PaddedGridBlank | supervision/utils/image.py:425-433 | every cell past the last image holds the blank tile |
| Compose.PaddedGridIsTileGrid | supervision/utils/image.py:425-433 | uniform tiles and a uniform blank tile give a grid that is ready to merge |
| Compose.CellsArePaddedGrid | supervision/utils/image.py:423-433 | a grid of full rows whose every cell holds the image, or the blank past the last image, is the padded grid |
| Compose.BatchRow | supervision/utils/image.py:424 | every batch but the last is full; the last one ends at the last image; each holds the images of its row |
| Compose.BatchedCells | supervision/utils/image.py:424 | the batches form `ceil(n / columns)` rows, all full but the last, and each cell holds its image |
| Compose.PadLastRow | supervision/utils/image.py:425-428 | the first loop fills the last row with blank tiles up to `columns`, so the rows have room for every image and no cell changes |
| Compose.AddBlankRows | supervision/utils/image.py:429-433 | the second loop appends blank rows up to `rows`, and no cell changes |
| Compose.GenerateTiles | supervision/utils/image.py:394-440 | `_generate_tiles` returns the reference mosaic of the padded grid of the titled tiles |
| Tiles.TileSize | supervision/utils/image.py:291-292 | a given tile size is used as it is; without one the result is exactly `AggregateImagesShape` of the images under the scaling mode, which fails exactly for an unknown scaling mode, with `UnknownScalingMode` |
| Tiles.PlanGrid | supervision/utils/image.py:299-313 | the grid is `_establish_grid_size`'s, and its failure is passed on unchanged; once the grid is settled the plan fails exactly when the grid has fewer cells than images, with `GridCapacity`; the titles are padded with `None` to one per image and the anchors are normalised |
| Tiles.PlanLetterboxed | supervision/utils/image.py:293-303 | with the tile size known, every image is letterboxed first: a letterboxing failure is the result, and otherwise the result is the grid plan over the letterboxed tiles |
| Tiles.PlanTiles | supervision/utils/image.py:284-313 | an empty list fails with `EmptyInput`, and nothing else does; an unknown scaling mode fails only without a tile size; once the tile size is known, a letterboxing failure is the plan's error, and only when every image is letterboxed does a grid failure become the plan's error; a successful plan has the tile size `TileSize`, the tiles `LetterboxAll` gives, the padded titles, the normalised anchors, room in the grid for every image, and the voted format |
| Tiles.PaddedTitlesPlan | supervision/utils/image.py:304-305 | padding the titles list before the call leaves the plan unchanged |
| Tiles.ShortTitlesArePadded | supervision/utils/image.py:304-305 | a titles list shorter than the images gives the same result as that list padded with absent titles |
| Tiles.LayoutGridShape | supervision/utils/image.py:423-433 | the grid of a settled layout has exactly `rows` rows and is ready to merge |
| Tiles.TilesImage | supervision/utils/image.py:284-335 | `create_tiles` fails exactly when its planning fails, with the same error; otherwise it returns a well-formed image in the voted or requested format |
| Tiles.CreateTiles | supervision/utils/image.py:284-335 | the step-by-step `create_tiles` computes `TilesImage` |
| Tiles.EmptyIsRejected | supervision/utils/image.py:284-285 | an empty list, and only an empty list, gives `EmptyInput` |
| Tiles.ScalingModeChecked | supervision/utils/image.py:291-292 | an unknown scaling mode is reported exactly when the list is not empty and no tile size is given |
| Tiles.CapacityChecked | supervision/utils/image.py:299-303 | once the grid is settled, the call fails exactly when the grid has fewer cells than images, and then with `GridCapacity` |
| Tiles.LayoutShape | supervision/utils/image.py:316-332 | the result is `R * th + (R - 1) * m` high and `C * tw + (C - 1) * m` wide |
| Tiles.LayoutPlacement | supervision/utils/image.py:316-332 | image `k`, letterboxed and titled, appears at grid row `k // C`, column `k % C`, pixel for pixel |
| Tiles.LayoutBlank | supervision/utils/image.py:425-433 | every cell past the last image shows the padding colour |
| Tiles.TilesResult | supervision/utils/image.py:299-335 | a successful call returns the mosaic of the layout it settled, with one tile per image and the grid of `_establish_grid_size` |
| Tiles.UntitledTile | supervision/utils/image.py:293-298 | without titles, tile `k` is image `k` letterboxed to the tile size |
| Single.Round | supervision/utils/image.py:52 | `np.round` is within one half of the value and rounds ties to even |
| Single.RoundWhole | supervision/utils/image.py:52 | a whole number rounds to itself |
| Single.SliceBounds | supervision/utils/image.py:54 | a Python slice `[s:e]` selects an in-range interval; in-range bounds are kept; a negative start counts from the end |
| Single.CropImage | supervision/utils/image.py:52-54 | the crop is the rectangle of the image the two slices select, pixel for pixel |
| Single.CropInside | supervision/utils/image.py:52-54 | a whole-number box inside the image crops exactly that rectangle |
| Single.CropLeftOverhangIsEmpty | supervision/utils/image.py:52-54 | a box overhanging the left edge is not clipped, and crops to an empty image |
| Single.ResizeImage | supervision/utils/image.py:73-80 | a non-positive factor fails with `ValueError`, and only such a factor does; it succeeds exactly when the factor is positive and both scaled sides reach one pixel; each side is `int(side * factor)` |
| Single.ResizeGrows | supervision/utils/image.py:76-80 | a factor of at least one never fails on a non-empty image and never shrinks it; a factor of one keeps the size |
| Single.PlacementWindow | supervision/utils/image.py:100-118 | there is no window exactly when the image lies wholly outside the scene; the window lies inside the scene, and the crop inside the image |
| Single.WindowIsCoverage | supervision/utils/image.py:104-122 | the scene window and the image crop have equal extents, so the slice assignment is well-formed; the window is exactly the part of the scene the image covers |
| Single.PlaceImage | supervision/utils/image.py:100-124 | every scene pixel the image covers takes the image's pixel, and every other pixel keeps its colour |

## Left out

- `ImageSink` (lines 127-190) is left out because it does file-system I/O: it creates and deletes directories and writes numbered files.
- The format conversions `images_to_cv2`, `cv2_to_pillow` and the `convert_for_image_processing` decorator are left out. An input is modelled as its form (array or PIL) together with its pixels, and the result is paired with its `Format`.
- `_color_to_bgr` (lines 630-633) is left out. Colours are BGR triples from the start.
- `draw_text` and `calculate_optimal_text_scale` belong to other modules, so they are function parameters. The proofs need only the assumption that `draw_text` keeps the image's shape (`KeepsShape`).
- Letterbox.CvResize: the pixels of `cv2.resize` (bilinear interpolation) are not modelled. `Rasters.Resample` is a nearest-neighbour stand-in, and only its size is claimed.
- Letterboxing does not always give the requested size: a very thin or flat image can truncate a side to zero, and then `cv2.resize` raises (`Letterbox.ThinImageFails`).
- Letterbox.ResizeKeepingAspectRatio: the float ratios `w / h` and `W / H` are compared by exact cross-multiplication. `int(W / ratio)` is computed as the truncated exact quotient `W * h // w`. Float rounding of the ratio, which can move a truncated side by one pixel, is not modelled.
- Single.ResizeImage: the factor is an exact real, and `int(side * factor)` is its exact floor. Float rounding is not modelled.
- Arith.CeilDiv, Arith.CeilSqrt: the source computes `math.ceil(n / k)` and `math.ceil(np.sqrt(n))` in floating point; the exact integer versions agree with it only while the numbers stay well below 2^52.
- Titles.DefaultAnchor: the products `height * 0.1`, `height * 0.9` and `width / 2` are exact reals; float rounding of those products is not modelled.
- Single.Round: `np.round` is applied to exact reals, so float representation error is not modelled.
- Grid.AggregateImagesShape: `np.average` is the exact rational mean, rounded half to even as Python's `round` does. Float error is not modelled.
- Negative integers are not modelled in grid sizes, tile sizes or the margin: they are natural numbers. A negative `grid_size` entry or a negative `tile_margin`, which the source passes on to numpy, is outside the model.
- Single.PlaceImage: the image and the scene are separate in the model. The image is a value, so aliasing between the image and the scene buffer is not modelled.
- The `uint8` casts of `np.ones(...) * color` and the final `astype(np.uint8)` are not modelled separately, because colours are already bytes.
- `supervision.utils.iterables` (`fill`, `create_batches`) is not part of this model's source. Both are written from their documented meaning in `Seqs`.
- Titles.TitledTiles: the `Point` anchor and the text scale are real numbers, and the model does not interpret them.
