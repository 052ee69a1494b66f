/** Grid planning for `create_tiles`: the automatic `(rows, columns)` choice
    (`_negotiate_grid_size`), the handling of a full or partial `grid_size`
    override (`_establish_grid_size`), the common tile size
    (`_aggregate_images_shape`) and the output format vote
    (`_negotiate_tiles_format`). */
module Grid {
  import opened Common
  import opened Arith
  import opened Rasters

  /** `MAX_COLUMNS_FOR_SINGLE_ROW_GRID`. */
  const MaxColumnsForSingleRowGrid: nat := 3

  /** The grid the automatic placement settles on, as `(rows, columns)`: one
      row for up to three images, otherwise `ceil(sqrt n)` columns and as many
      rows as it takes to hold the `n` images. */
  function AutoGrid(n: nat): (g: (nat, nat))
  {
    if n <= MaxColumnsForSingleRowGrid then (1, n)
    else
      var s := CeilSqrt(n);
      (CeilDiv(n, s), s)
  }

  /** The shape of the automatic grid: a single row up to three images;
      beyond that `ceil(sqrt n)` columns and `ceil(sqrt n)` or one fewer rows,
      enough to hold every image while the last row is never empty. */
  lemma AutoGridShape(n: nat)
    ensures n <= 3 ==> AutoGrid(n) == (1, n)
    ensures n > 3 ==>
      var (rows, columns) := AutoGrid(n);
      columns == CeilSqrt(n) && (rows == columns || rows == columns - 1) &&
      rows >= 1 && rows * columns >= n && columns * (rows - 1) < n
  {
    if n > 3 {
      var s := CeilSqrt(n);
      var rows := CeilDiv(n, s);
      assert rows * s >= n && (rows - 1) * s < n;
      assert (s - 2) * s < (s - 1) * (s - 1);
      if rows > s {
        MulLeftMono(s, rows - 1, s);
        assert false;
      }
      if rows < s - 1 {
        MulLeftMono(rows, s - 2, s);
        assert false;
      }
    }
  }

  /** `_negotiate_grid_size`: starts from a `ceil(sqrt n)` square and drops
      rows while the last one would stay empty. */
  method NegotiateGridSize(n: nat) returns (rows: nat, columns: nat)
    ensures (rows, columns) == AutoGrid(n)
  {
    if n <= MaxColumnsForSingleRowGrid {
      return 1, n;
    }
    var nearestSqrt := CeilSqrt(n);
    columns := nearestSqrt;
    rows := nearestSqrt;
    CeilDivLeast(n, columns, rows);
    while columns * (rows - 1) >= n
      invariant columns == nearestSqrt > 0
      invariant rows >= CeilDiv(n, columns)
      decreases rows
    {
      CeilDivLeast(n, columns, rows - 1);
      rows := rows - 1;
    }
    CeilDivMost(n, columns, rows);
  }

  /** `_establish_grid_size`: the `(rows, columns)` grid for `n` images under
      an optional `grid_size` override whose entries may each be missing.
      A missing override (or two missing entries) gives the automatic grid;
      one missing entry is derived so that the grid holds all `n` images,
      and a derived entry divides by the given one, so a given zero fails;
      two given entries are returned as they are. */
  function EstablishGridSize(n: nat, gridSize: Option<(Option<nat>, Option<nat>)>): (r: Result<(nat, nat)>)
    ensures gridSize.None? || (gridSize.value.0.None? && gridSize.value.1.None?) ==> r == Success(AutoGrid(n))
    ensures gridSize.Some? && gridSize.value.0.Some? && gridSize.value.1.Some? ==>
      r == Success((gridSize.value.0.value, gridSize.value.1.value))
    ensures r.Failure? <==>
      gridSize.Some? &&
      ((gridSize.value.0.None? && gridSize.value.1 == Some(0)) ||
       (gridSize.value.1.None? && gridSize.value.0 == Some(0)))
    ensures r.Failure? ==> r.error == ZeroDivision
    ensures r.Success? && !(gridSize.Some? && gridSize.value.0.Some? && gridSize.value.1.Some?) ==>
      r.value.0 * r.value.1 >= n
    ensures r.Success? && gridSize.Some? && gridSize.value.0.None? && gridSize.value.1.Some? ==>
      r.value.1 == gridSize.value.1.value && (r.value.0 - 1) * r.value.1 < n
    ensures r.Success? && gridSize.Some? && gridSize.value.1.None? && gridSize.value.0.Some? ==>
      r.value.0 == gridSize.value.0.value && r.value.0 * (r.value.1 - 1) < n
  {
    if gridSize.None? || (gridSize.value.0.None? && gridSize.value.1.None?) then
      AutoGridShape(n);
      Success(AutoGrid(n))
    else if gridSize.value.0.None? then
      var columns := gridSize.value.1.value;
      if columns == 0 then Failure(ZeroDivision) else Success((CeilDiv(n, columns), columns))
    else if gridSize.value.1.None? then
      var rows := gridSize.value.0.value;
      if rows == 0 then Failure(ZeroDivision) else Success((rows, CeilDiv(n, rows)))
    else
      Success((gridSize.value.0.value, gridSize.value.1.value))
  }

  /** The least element of a non-empty sequence (`np.min`). */
  function MinOf(xs: seq<nat>): (m: nat)
    requires |xs| > 0
    ensures m in xs && forall k :: 0 <= k < |xs| ==> m <= xs[k]
  {
    if |xs| == 1 then xs[0]
    else
      var rest := MinOf(xs[1..]);
      if xs[0] <= rest then xs[0] else rest
  }

  /** The greatest element of a non-empty sequence (`np.max`). */
  function MaxOf(xs: seq<nat>): (m: nat)
    requires |xs| > 0
    ensures m in xs && forall k :: 0 <= k < |xs| ==> xs[k] <= m
  {
    if |xs| == 1 then xs[0]
    else
      var rest := MaxOf(xs[1..]);
      if xs[0] >= rest then xs[0] else rest
  }

  function Sum(xs: seq<nat>): nat
  {
    if xs == [] then 0 else xs[0] + Sum(xs[1..])
  }

  /** The sum lies between `|xs|` times the least and `|xs|` times the
      greatest element. */
  lemma {:induction false} SumBounds(xs: seq<nat>)
    requires |xs| > 0
    ensures |xs| * MinOf(xs) <= Sum(xs) <= |xs| * MaxOf(xs)
    decreases |xs|
  {
    if |xs| > 1 {
      SumBounds(xs[1..]);
      var lo, hi := MinOf(xs), MaxOf(xs);
      assert MinOf(xs[1..]) >= lo by { assert MinOf(xs[1..]) in xs; }
      assert MaxOf(xs[1..]) <= hi by { assert MaxOf(xs[1..]) in xs; }
      MulLeftMono(lo, MinOf(xs[1..]), |xs| - 1);
      MulLeftMono(MaxOf(xs[1..]), hi, |xs| - 1);
      SubOneMul(|xs|, lo);
      SubOneMul(|xs|, hi);
    }
  }

  /** Python's `round(num / den)`: to the nearest integer, ties to the even one. */
  function RoundHalfEven(num: nat, den: nat): (q: nat)
    requires den > 0
    ensures 2 * (num - q * den) <= den && 2 * (q * den - num) <= den
    ensures 2 * (num - q * den) == den || 2 * (q * den - num) == den ==> q % 2 == 0
  {
    var q, r := num / den, num % den;
    DivModUnique(num, den, q, r);
    if 2 * r < den then q
    else if 2 * r > den then q + 1
    else if q % 2 == 0 then q else q + 1
  }

  /** The two properties of `RoundHalfEven` determine it: any whole number
      within one half of `num / den` that is even on a tie is the rounded
      quotient. */
  lemma RoundHalfEvenUnique(num: nat, den: nat, q: nat)
    requires den > 0
    requires 2 * (num - q * den) <= den && 2 * (q * den - num) <= den
    requires 2 * (num - q * den) == den || 2 * (q * den - num) == den ==> q % 2 == 0
    ensures q == RoundHalfEven(num, den)
  {
    var p := RoundHalfEven(num, den);
    if q != p {
      var lo, hi := if q < p then q else p, if q < p then p else q;
      var a, b := lo * den, hi * den;
      assert 2 * (num - a) <= den && 2 * (b - num) <= den;
      MultiplesApart(lo, hi, den);
      assert b - a >= den;
      assert 2 * (num - a) == den && 2 * (b - num) == den;
      assert lo % 2 == 0 && hi % 2 == 0;
      if hi >= lo + 2 {
        MultiplesApart(lo + 1, hi, den);
        SubOneMul(lo + 1, den);
        assert false;
      }
      assert false;
    }
  }

  /** Whole numbers `lo < hi` have multiples at least `d` apart. */
  lemma MultiplesApart(lo: nat, hi: nat, d: nat)
    requires lo < hi
    ensures hi * d - lo * d >= d
  {
    MulLeftMono(lo + 1, hi, d);
    SubOneMul(lo + 1, d);
  }

  /** `round(np.average(xs))`. */
  function Average(xs: seq<nat>): nat
    requires |xs| > 0
  {
    RoundHalfEven(Sum(xs), |xs|)
  }

  /** The rounded average lies between the least and the greatest element. */
  lemma AverageBetween(xs: seq<nat>)
    requires |xs| > 0
    ensures MinOf(xs) <= Average(xs) <= MaxOf(xs)
  {
    var n, lo, hi, a := |xs|, MinOf(xs), MaxOf(xs), Average(xs);
    SumBounds(xs);
    assert n * lo == lo * n && n * hi == hi * n;
    RoundedBetween(Sum(xs), n, lo, hi);
  }

  lemma RoundedBetween(s: nat, n: nat, lo: nat, hi: nat)
    requires n > 0 && lo * n <= s <= hi * n
    ensures lo <= RoundHalfEven(s, n) <= hi
  {
    var a := RoundHalfEven(s, n);
    if a < lo {
      MulLeftMono(a + 1, lo, n);
      SubOneMul(a + 1, n);
      assert false;
    }
    if a > hi {
      MulLeftMono(hi + 1, a, n);
      SubOneMul(hi + 1, n);
      assert false;
    }
  }

  function Heights(images: seq<Raster>): (hs: seq<nat>)
    ensures |hs| == |images| && forall k :: 0 <= k < |images| ==> hs[k] == images[k].height
  {
    seq(|images|, k requires 0 <= k < |images| => images[k].height)
  }

  function Widths(images: seq<Raster>): (ws: seq<nat>)
    ensures |ws| == |images| && forall k :: 0 <= k < |images| ==> ws[k] == images[k].width
  {
    seq(|images|, k requires 0 <= k < |images| => images[k].width)
  }

  /** `_aggregate_images_shape`: the tile size `(width, height)`, each side
      aggregated separately over the images' heights (`shape[0]`) and widths
      (`shape[1]`) by `np.min`, `np.max` or a rounded `np.average`; any other
      mode is a `ValueError`. */
  function AggregateImagesShape(images: seq<Raster>, mode: string): (r: Result<(nat, nat)>)
    requires |images| > 0
    ensures r.Failure? <==> mode != "min" && mode != "max" && mode != "avg"
    ensures r.Failure? ==> r.error == UnknownScalingMode(mode)
    ensures mode == "avg" ==> r == Success((Average(Widths(images)), Average(Heights(images))))
    ensures r.Success? ==>
      MinOf(Widths(images)) <= r.value.0 <= MaxOf(Widths(images)) &&
      MinOf(Heights(images)) <= r.value.1 <= MaxOf(Heights(images))
    ensures mode == "min" ==> (r.Success? &&
      (forall k :: 0 <= k < |images| ==> r.value.0 <= images[k].width && r.value.1 <= images[k].height) &&
      (exists k :: 0 <= k < |images| && r.value.0 == images[k].width) &&
      (exists k :: 0 <= k < |images| && r.value.1 == images[k].height))
    ensures mode == "max" ==> (r.Success? &&
      (forall k :: 0 <= k < |images| ==> images[k].width <= r.value.0 && images[k].height <= r.value.1) &&
      (exists k :: 0 <= k < |images| && r.value.0 == images[k].width) &&
      (exists k :: 0 <= k < |images| && r.value.1 == images[k].height))
  {
    var hs, ws := Heights(images), Widths(images);
    if mode == "min" then Success((MinOf(ws), MinOf(hs)))
    else if mode == "max" then Success((MaxOf(ws), MaxOf(hs)))
    else if mode == "avg" then
      AverageBetween(ws);
      AverageBetween(hs);
      Success((Average(ws), Average(hs)))
    else Failure(UnknownScalingMode(mode))
  }

  /** How an input image arrives: a numpy array or a PIL image. */
  datatype Form = NdArray | PilImage

  /** The representation of the returned mosaic. */
  datatype Format = Cv2 | Pillow

  function CountNdArrays(forms: seq<Form>): (k: nat)
    ensures k <= |forms|
  {
    if forms == [] then 0
    else (if forms[0] == NdArray then 1 else 0) + CountNdArrays(forms[1..])
  }

  /** `_negotiate_tiles_format`: "cv2" when at least `len(images) // 2` of the
      inputs are numpy arrays, "pillow" otherwise. */
  function NegotiateTilesFormat(forms: seq<Form>): (f: Format)
    ensures f == Cv2 <==> CountNdArrays(forms) >= |forms| / 2
  {
    if CountNdArrays(forms) >= |forms| / 2 then Cv2 else Pillow
  }

  lemma {:induction false} CountUniform(forms: seq<Form>, f: Form)
    requires forall k :: 0 <= k < |forms| ==> forms[k] == f
    ensures CountNdArrays(forms) == if f == NdArray then |forms| else 0
    decreases |forms|
  {
    if forms != [] {
      CountUniform(forms[1..], f);
    }
  }

  /** All-array input gives "cv2"; all-PIL input of two or more images gives
      "pillow"; a single PIL image gives "cv2". */
  lemma UniformFormats(forms: seq<Form>, f: Form)
    requires forall k :: 0 <= k < |forms| ==> forms[k] == f
    ensures f == NdArray ==> NegotiateTilesFormat(forms) == Cv2
    ensures f == PilImage && |forms| >= 2 ==> NegotiateTilesFormat(forms) == Pillow
    ensures f == PilImage && |forms| == 1 ==> NegotiateTilesFormat(forms) == Cv2
  {
    CountUniform(forms, f);
  }

  /** A tie, or an array majority, gives "cv2"; but the threshold is
      `len // 2`, so one array among three images also gives "cv2" although
      the PIL images are the majority. */
  lemma FormatVote(forms: seq<Form>)
    ensures CountNdArrays(forms) >= |forms| - CountNdArrays(forms) ==> NegotiateTilesFormat(forms) == Cv2
    ensures NegotiateTilesFormat([NdArray, PilImage, PilImage]) == Cv2
  {
    assert CountNdArrays([NdArray, PilImage, PilImage]) == 1 by {
      assert [NdArray, PilImage, PilImage][1..] == [PilImage, PilImage];
      assert [PilImage, PilImage][1..] == [PilImage];
      assert [PilImage][1..] == [];
    }
  }
}
