/**
 * The privacy effects of `ImageProcessor` and the box filters of
 * `DetectionEngine`. Each effect reads the region `image[y:y+h, x:x+w]` and
 * returns a new region image; writing it back is the caller's business.
 */
module ImageProcessor {
  import opened Wrappers
  import opened Imaging

  /** `image[y:y+h, x:x+w]`, with Python's slice rules. */
  function Region(img: Image, b: Box): (r: Image)
    requires img.Valid()
    ensures r.Valid()
    ensures InBounds(b, img.w, img.h) ==> r.h == b.h && r.w == b.w
    ensures InBounds(b, img.w, img.h) ==>
      forall i, j :: 0 <= i < b.h && 0 <= j < b.w ==> r.px[i][j] == img.px[b.y + i][b.x + j]
  {
    Crop(img, SliceWindow(img.h, img.w, b))
  }

  // ---------------------------------------------------------------- blur

  /** The kernel side `gaussian_blur` uses: the one odd number in `[strength, strength + 1]`. */
  function BlurKernel(strength: int): (k: int)
    ensures k % 2 == 1
    ensures strength <= k <= strength + 1
  {
    if strength % 2 == 0 then strength + 1 else strength
  }

  /** Rounding a kernel side twice is rounding it once; an odd strength is used as given. */
  lemma BlurKernelIdempotent(strength: int)
    ensures BlurKernel(BlurKernel(strength)) == BlurKernel(strength)
    ensures strength % 2 == 1 ==> BlurKernel(strength) == strength
  {
  }

  /** `gaussian_blur(image, x, y, w, h, strength)`: the blurred region, of the region's size. */
  function GaussianBlur(lib: Library, img: Image, b: Box, strength: int): (r: Image)
    requires img.Valid()
    ensures lib.Valid() ==> r.Valid() && SameShape(r, Region(img, b))
  {
    lib.gaussianBlur(Region(img, b), BlurKernel(strength))
  }

  // ----------------------------------------------------------- pixelate

  /** `max(1, pixel_size)`. */
  function PixelStep(pixelSize: int): (p: int)
    ensures p >= 1 && p >= pixelSize
    ensures pixelSize >= 1 ==> p == pixelSize
  {
    if pixelSize < 1 then 1 else pixelSize
  }

  /**
   * `max(1, dim // pixel_size)`: the number of whole steps in `dim`, floored,
   * and never below 1.
   */
  function PixelDim(dim: nat, pixelSize: int): (t: nat)
    ensures t >= 1
    ensures dim >= 1 ==> t <= dim
  {
    var q := dim / PixelStep(pixelSize);
    if q < 1 then 1 else q
  }

  /** Floor, not ceiling: `PixelDim` whole steps fit in `dim` and one more does not (or `dim` is under one step). */
  lemma PixelDimFloor(dim: nat, pixelSize: int)
    ensures var p, t := PixelStep(pixelSize), PixelDim(dim, pixelSize);
      (dim < p && t == 1) || (t * p <= dim < (t + 1) * p)
  {
    var p := PixelStep(pixelSize);
    var q := dim / p;
    var m := dim % p;
    assert dim == q * p + m && 0 <= m < p;
    if q >= 1 {
      assert (q + 1) * p == q * p + p;
    }
  }

  /**
   * `pixelate(image, x, y, w, h, pixel_size)`: shrink the region to
   * `PixelDim` of each side with linear interpolation, then grow it back to
   * the region's size with nearest-neighbour interpolation.
   */
  function Pixelate(lib: Library, img: Image, b: Box, pixelSize: int): (r: Image)
    requires img.Valid()
    ensures lib.Valid() ==> r.Valid() && SameShape(r, Region(img, b))
  {
    var region := Region(img, b);
    var temp := lib.resize(region, PixelDim(region.w, pixelSize), PixelDim(region.h, pixelSize), Linear);
    lib.resize(temp, region.w, region.h, Nearest)
  }

  // ---------------------------------------------------------- black bar

  /** The pixel `(i, j)` lies in the closed rectangle with corners `(x1, y1)` and `(x2, y2)`. */
  predicate InRect(i: int, j: int, x1: int, y1: int, x2: int, y2: int)
  {
    (if x1 <= x2 then x1 <= j <= x2 else x2 <= j <= x1) &&
    (if y1 <= y2 then y1 <= i <= y2 else y2 <= i <= y1)
  }

  /** `cv2.rectangle(img, (x1, y1), (x2, y2), color, -1)`: both corners included, clipped to the image. */
  function FillRect(img: Image, x1: int, y1: int, x2: int, y2: int, color: Pixel): (r: Image)
    requires img.Valid()
    ensures r.Valid() && SameShape(r, img)
    ensures forall i, j :: 0 <= i < img.h && 0 <= j < img.w ==>
      r.px[i][j] == if InRect(i, j, x1, y1, x2, y2) then color else img.px[i][j]
  {
    Image(img.h, img.w,
      seq(img.h, i requires 0 <= i < img.h =>
        seq(img.w, j requires 0 <= j < img.w =>
          if InRect(i, j, x1, y1, x2, y2) then color else img.px[i][j])))
  }

  /** `black_bar(image, x, y, w, h)`: fill a copy of the image, then slice the region out of it. */
  function BlackBar(img: Image, b: Box): (r: Image)
    requires img.Valid()
    ensures r.Valid()
    ensures SameShape(r, Region(img, b))
  {
    Crop(FillRect(img, b.x, b.y, b.x + b.w, b.y + b.h, Black),
         SliceWindow(img.h, img.w, b))
  }

  /**
   * For a box with a non-negative origin and size the bar is black
   * throughout; inside the image it is exactly an `h`-by-`w` block of zeros.
   */
  lemma BlackBarIsBlack(img: Image, b: Box)
    requires img.Valid()
    requires b.x >= 0 && b.y >= 0 && b.w >= 0 && b.h >= 0
    ensures var r := BlackBar(img, b);
      forall i, j :: 0 <= i < r.h && 0 <= j < r.w ==> r.px[i][j] == Black
    ensures InBounds(b, img.w, img.h) ==> BlackBar(img, b) == Filled(b.h, b.w, Black)
  {
    var r := BlackBar(img, b);
    var win := SliceWindow(img.h, img.w, b);
    var filled := FillRect(img, b.x, b.y, b.x + b.w, b.y + b.h, Black);
    forall i, j | 0 <= i < r.h && 0 <= j < r.w
      ensures r.px[i][j] == Black
    {
      assert r.px[i][j] == filled.px[win.top + i][win.left + j];
      assert InRect(win.top + i, win.left + j, b.x, b.y, b.x + b.w, b.y + b.h);
    }
    if InBounds(b, img.w, img.h) {
      ImageEquality(r, Filled(b.h, b.w, Black));
    }
  }

  // ------------------------------------------------------- gradient fade

  /** One channel of an image, as the 2-D array `region[:, :, c]`. */
  function Plane(img: Image, c: nat): (p: seq<seq<Byte>>)
    requires img.Valid() && c < 3
    ensures |p| == img.h && forall i :: 0 <= i < img.h ==> |p[i]| == img.w
    ensures forall i, j :: 0 <= i < img.h && 0 <= j < img.w ==> p[i][j] == Channel(img.px[i][j], c)
  {
    seq(img.h, i requires 0 <= i < img.h =>
      seq(img.w, j requires 0 <= j < img.w => Channel(img.px[i][j], c)))
  }

  /** `region[:, :, c] = plane`. */
  function WithPlane(img: Image, c: nat, plane: seq<seq<Byte>>): (r: Image)
    requires img.Valid() && c < 3
    requires |plane| == img.h && forall i :: 0 <= i < img.h ==> |plane[i]| == img.w
    ensures r.Valid() && SameShape(r, img)
    ensures forall i, j :: 0 <= i < img.h && 0 <= j < img.w ==> r.px[i][j] == WithChannel(img.px[i][j], c, plane[i][j])
  {
    Image(img.h, img.w,
      seq(img.h, i requires 0 <= i < img.h =>
        seq(img.w, j requires 0 <= j < img.w => WithChannel(img.px[i][j], c, plane[i][j]))))
  }

  /** OpenCV's `saturate_cast<uchar>` of an integer. */
  function Saturate(v: int): (r: Byte)
    ensures 0 <= v < 256 ==> r == v
    ensures v < 0 ==> r == 0
    ensures v >= 256 ==> r == 255
  {
    if v < 0 then 0 else if v > 255 then 255 else v
  }

  /**
   * `cv2.addWeighted(a, alpha, b, beta, gamma)` on two uint8 planes of one
   * shape, for integer weights, where the rounding of the float sum is exact.
   */
  function AddWeighted(a: seq<seq<Byte>>, alpha: int, b: seq<seq<Byte>>, beta: int, gamma: int): (r: seq<seq<Byte>>)
    requires |a| == |b| && forall i :: 0 <= i < |a| ==> |a[i]| == |b[i]|
    ensures |r| == |a| && forall i :: 0 <= i < |a| ==> |r[i]| == |a[i]|
    ensures forall i, j :: 0 <= i < |a| && 0 <= j < |a[i]| ==>
      r[i][j] == Saturate(alpha * a[i][j] + beta * b[i][j] + gamma)
  {
    seq(|a|, i requires 0 <= i < |a| =>
      seq(|a[i]|, j requires 0 <= j < |a[i]| => Saturate(alpha * a[i][j] + beta * b[i][j] + gamma)))
  }

  /** With weights 1 and 0 and no offset, `addWeighted` returns its first operand. */
  lemma AddWeightedUnit(a: seq<seq<Byte>>, b: seq<seq<Byte>>)
    requires |a| == |b| && forall i :: 0 <= i < |a| ==> |a[i]| == |b[i]|
    ensures AddWeighted(a, 1, b, 0, 0) == a
  {
    var r := AddWeighted(a, 1, b, 0, 0);
    forall i | 0 <= i < |a|
      ensures r[i] == a[i]
    {
    }
  }

  /** Writing a channel back unchanged changes nothing. */
  lemma WithOwnPlane(img: Image, c: nat)
    requires img.Valid() && c < 3
    ensures WithPlane(img, c, Plane(img, c)) == img
  {
    var r := WithPlane(img, c, Plane(img, c));
    forall i, j | 0 <= i < img.h && 0 <= j < img.w
      ensures r.px[i][j] == img.px[i][j]
    {
      var p := img.px[i][j];
      var q := r.px[i][j];
      assert Channel(q, c) == Channel(p, c);
      assert forall d :: 0 <= d < 3 ==> Channel(q, d) == Channel(p, d);
      assert q.b == Channel(q, 0) && q.g == Channel(q, 1) && q.r == Channel(q, 2);
    }
    ImageEquality(r, img);
  }

  /**
   * `gradient_fade(image, x, y, w, h)`: each channel of a copy of the region
   * is replaced by `addWeighted(region, 1, blurred, 0, 0)`, which is the
   * channel itself; the result is the region, unchanged. (The gradient mask
   * the source builds is never used.)
   */
  method GradientFade(lib: Library, img: Image, b: Box) returns (region: Image)
    requires img.Valid() && lib.Valid()
    ensures region == Region(img, b)
  {
    region := Region(img, b);
    var blurred := lib.gaussianBlur(region, 99);
    for c := 0 to 3
      invariant region == Region(img, b)
    {
      var mixed := AddWeighted(Plane(region, c), 1, Plane(blurred, c), 0, 0);
      AddWeightedUnit(Plane(region, c), Plane(blurred, c));
      WithOwnPlane(region, c);
      region := WithPlane(region, c, mixed);
    }
  }

  // ------------------------------------------------------- other effects

  /** `frosted_glass(image, x, y, w, h)`, at its default strength 15. */
  function FrostedGlass(lib: Library, img: Image, b: Box): (r: Image)
    requires img.Valid()
    ensures lib.Valid() ==> r.Valid() && SameShape(r, Region(img, b))
  {
    lib.frostedGlass(Region(img, b))
  }

  /** `oil_paint(image, x, y, w, h)`. */
  function OilPaint(lib: Library, img: Image, b: Box): (r: Image)
    requires img.Valid()
    ensures lib.Valid() ==> r.Valid() && SameShape(r, Region(img, b))
  {
    lib.oilPaint(Region(img, b))
  }

  // -------------------------------------------------------------- mosaic

  /** The default `tile_size` of `mosaic_effect`; no caller passes another. */
  const MosaicTileSize: nat := 10

  /** `rows * cols`, by repeated addition. */
  function Area(rows: nat, cols: nat): (n: nat)
    ensures rows > 0 && cols > 0 ==> n > 0
  {
    if rows == 0 then 0 else Area(rows - 1, cols) + cols
  }

  /** The sum of channel `c` over `cols` pixels of row `row`, from column `left`. */
  function RowSum(img: Image, c: nat, row: nat, left: nat, cols: nat): (s: nat)
    requires img.Valid() && c < 3 && row < img.h && left + cols <= img.w
    ensures s <= 255 * cols
  {
    if cols == 0 then 0 else RowSum(img, c, row, left, cols - 1) + Channel(img.px[row][left + cols - 1], c)
  }

  /** The sum of channel `c` over a window. */
  function WindowSum(img: Image, c: nat, win: Window): (s: nat)
    requires img.Valid() && c < 3 && Fits(win, img)
    ensures s <= 255 * Area(win.rows, win.cols)
    decreases win.rows
  {
    if win.rows == 0 then 0
    else WindowSum(img, c, win.(rows := win.rows - 1)) + RowSum(img, c, win.top + win.rows - 1, win.left, win.cols)
  }

  lemma FloorDiv(s: nat, n: nat)
    requires n > 0
    ensures (s / n) * n <= s < (s / n + 1) * n
  {
    var q, m := s / n, s % n;
    assert s == q * n + m;
    assert (q + 1) * n == q * n + n;
  }

  lemma MulLeCancel(a: nat, b: nat, n: nat)
    requires n > 0 && a * n <= b * n
    ensures a <= b
  {
  }

  lemma MulLtCancel(a: nat, b: nat, n: nat)
    requires n > 0 && a * n < b * n
    ensures a < b
  {
  }

  lemma Distrib(v: nat, a: nat, b: nat)
    ensures v * (a + b) == v * a + v * b
  {
  }

  /** The truncated mean of channel `c` over a non-empty window: the floor of the sum over the count. */
  function ChannelMean(img: Image, c: nat, win: Window): Byte
    requires img.Valid() && c < 3 && Fits(win, img) && win.rows > 0 && win.cols > 0
  {
    var n := Area(win.rows, win.cols);
    var s := WindowSum(img, c, win);
    MeanAtMost255(s, n);
    s / n
  }

  lemma MeanAtMost255(s: nat, n: nat)
    requires n > 0 && s <= 255 * n
    ensures s / n <= 255
  {
    FloorDiv(s, n);
    MulLeCancel(s / n, 255, n);
  }

  /** The mean is truncated: the largest `m` with `m` times the tile size at most the sum. */
  lemma ChannelMeanFloor(img: Image, c: nat, win: Window)
    requires img.Valid() && c < 3 && Fits(win, img) && win.rows > 0 && win.cols > 0
    ensures var m, n := ChannelMean(img, c, win), Area(win.rows, win.cols);
      m * n <= WindowSum(img, c, win) < (m + 1) * n
  {
    FloorDiv(WindowSum(img, c, win), Area(win.rows, win.cols));
  }

  /** `tile.mean(axis=(0, 1)).astype(np.uint8)`. */
  function TileMean(img: Image, win: Window): Pixel
    requires img.Valid() && Fits(win, img) && win.rows > 0 && win.cols > 0
  {
    Pixel(ChannelMean(img, 0, win), ChannelMean(img, 1, win), ChannelMean(img, 2, win))
  }

  /** `k` is one of `0, t, 2t, ...`: a start of the tile loops `range(0, n, t)`. */
  predicate IsMultiple(k: nat, t: nat)
    requires t > 0
  {
    k == 0 || (k >= t && IsMultiple(k - t, t))
  }

  /** The largest multiple of `t` at or below `i`: `(i // t) * t`. */
  function TileStart(i: nat, t: nat): (s: nat)
    requires t > 0
    ensures s <= i < s + t
    ensures IsMultiple(s, t)
  {
    if i < t then 0 else t + TileStart(i - t, t)
  }

  /** Every index from a multiple of `t` up to the next multiple belongs to the tile starting there. */
  lemma {:induction false} TileStartOf(start: nat, t: nat, i: nat)
    requires t > 0 && IsMultiple(start, t) && start <= i < start + t
    ensures TileStart(i, t) == start
  {
    if start > 0 {
      TileStartOf(start - t, t, i - t);
    }
  }

  /**
   * The tile holding pixel `(i, j)` of an `h`-by-`w` region: it starts at
   * the multiples of `t` at or below `i` and `j` and is cut short at the
   * region's edges.
   */
  function TileAt(h: nat, w: nat, t: nat, i: nat, j: nat): (win: Window)
    requires t > 0 && i < h && j < w
    ensures Inside(win, i, j) && win.top + win.rows <= h && win.left + win.cols <= w
    ensures IsMultiple(win.top, t) && IsMultiple(win.left, t)
    ensures 0 < win.rows <= t && 0 < win.cols <= t
  {
    var top, left := TileStart(i, t), TileStart(j, t);
    Window(top, left, Min(t, h - top), Min(t, w - left))
  }

  /** The region after `mosaic_effect(..., tile_size = t)`: each pixel is the truncated mean of its tile. */
  function MosaicOf(region: Image, t: nat): (r: Image)
    requires region.Valid() && t > 0
    ensures r.Valid() && SameShape(r, region)
    ensures forall i, j :: 0 <= i < region.h && 0 <= j < region.w ==>
      r.px[i][j] == TileMean(region, TileAt(region.h, region.w, t, i, j))
  {
    Image(region.h, region.w,
      seq(region.h, i requires 0 <= i < region.h =>
        seq(region.w, j requires 0 <= j < region.w => TileMean(region, TileAt(region.h, region.w, t, i, j)))))
  }

  /**
   * The state of the tile loops at tile `(i, j)`: the rows above `i`, and
   * the columns left of `j` in the band of rows starting at `i`, hold the
   * mosaic; every other pixel still holds the region.
   */
  function FilledUpTo(region: Image, t: nat, i: nat, j: nat): (r: Image)
    requires region.Valid() && t > 0
    ensures r.Valid() && SameShape(r, region)
  {
    var spec := MosaicOf(region, t);
    Image(region.h, region.w,
      seq(region.h, y requires 0 <= y < region.h =>
        seq(region.w, x requires 0 <= x < region.w =>
          if y < i || (y < i + t && x < j) then spec.px[y][x] else region.px[y][x])))
  }

  /** Before the loops nothing is filled. */
  lemma FilledNothing(region: Image, t: nat)
    requires region.Valid() && t > 0
    ensures FilledUpTo(region, t, 0, 0) == region
  {
    ImageEquality(FilledUpTo(region, t, 0, 0), region);
  }

  /** Filling the tile at `(i, j)` with its mean advances the tile loops by one tile. */
  lemma FillTileStep(region: Image, t: nat, i: nat, j: nat)
    requires region.Valid() && t > 0 && i < region.h && j < region.w
    requires IsMultiple(i, t) && IsMultiple(j, t)
    ensures var tile := Window(i, j, Min(t, region.h - i), Min(t, region.w - j));
      Paste(FilledUpTo(region, t, i, j), tile, Filled(tile.rows, tile.cols, TileMean(region, tile)))
        == FilledUpTo(region, t, i, j + t)
  {
    var tile := Window(i, j, Min(t, region.h - i), Min(t, region.w - j));
    var next := Paste(FilledUpTo(region, t, i, j), tile, Filled(tile.rows, tile.cols, TileMean(region, tile)));
    var after := FilledUpTo(region, t, i, j + t);
    forall r, c | 0 <= r < region.h && 0 <= c < region.w
      ensures next.px[r][c] == after.px[r][c]
    {
      if Inside(tile, r, c) {
        FillTileInside(region, t, i, j, r, c);
      } else {
        FillTileOutside(region, t, i, j, r, c);
      }
    }
    ImageEquality(next, after);
  }

  /** A pixel of the tile takes the tile's mean, which is what the mosaic holds there. */
  lemma FillTileInside(region: Image, t: nat, i: nat, j: nat, r: nat, c: nat)
    requires region.Valid() && t > 0 && i < region.h && j < region.w
    requires IsMultiple(i, t) && IsMultiple(j, t)
    requires r < region.h && c < region.w
    requires Inside(Window(i, j, Min(t, region.h - i), Min(t, region.w - j)), r, c)
    ensures var tile := Window(i, j, Min(t, region.h - i), Min(t, region.w - j));
      Paste(FilledUpTo(region, t, i, j), tile, Filled(tile.rows, tile.cols, TileMean(region, tile))).px[r][c]
        == FilledUpTo(region, t, i, j + t).px[r][c]
  {
    var tile := Window(i, j, Min(t, region.h - i), Min(t, region.w - j));
    TileStartOf(i, t, r);
    TileStartOf(j, t, c);
    assert TileAt(region.h, region.w, t, r, c) == tile;
  }

  /** A pixel outside the tile keeps what it held. */
  lemma FillTileOutside(region: Image, t: nat, i: nat, j: nat, r: nat, c: nat)
    requires region.Valid() && t > 0 && i < region.h && j < region.w
    requires r < region.h && c < region.w
    requires !Inside(Window(i, j, Min(t, region.h - i), Min(t, region.w - j)), r, c)
    ensures var tile := Window(i, j, Min(t, region.h - i), Min(t, region.w - j));
      Paste(FilledUpTo(region, t, i, j), tile, Filled(tile.rows, tile.cols, TileMean(region, tile))).px[r][c]
        == FilledUpTo(region, t, i, j + t).px[r][c]
  {
    assert (r < i || (r < i + t && c < j + t)) == (r < i || (r < i + t && c < j));
  }

  /** Once the column loop has passed the right edge, the whole band of rows from `i` is done. */
  lemma BandDone(region: Image, t: nat, i: nat, j: nat)
    requires region.Valid() && t > 0 && j >= region.w
    ensures FilledUpTo(region, t, i, j) == FilledUpTo(region, t, i + t, 0)
  {
    ImageEquality(FilledUpTo(region, t, i, j), FilledUpTo(region, t, i + t, 0));
  }

  /** Once the row loop has passed the bottom edge, the result is the mosaic. */
  lemma FilledAll(region: Image, t: nat, i: nat)
    requires region.Valid() && t > 0 && i >= region.h
    ensures FilledUpTo(region, t, i, 0) == MosaicOf(region, t)
  {
    ImageEquality(FilledUpTo(region, t, i, 0), MosaicOf(region, t));
  }

  /**
   * `mosaic_effect(image, x, y, w, h, tile_size)`: the tile loops over a
   * copy of the region, each tile of which is filled with its mean colour.
   */
  method Mosaic(img: Image, b: Box, tileSize: nat) returns (result: Image)
    requires img.Valid() && tileSize > 0
    ensures result == MosaicOf(Region(img, b), tileSize)
  {
    result := MosaicRegion(Region(img, b), tileSize);
  }

  /** One pass of the inner loop body: fill the tile at `(i, j)` with the mean colour of that tile of the region. */
  method FillTile(region: Image, result: Image, t: nat, i: nat, j: nat) returns (next: Image)
    requires region.Valid() && t > 0 && i < region.h && j < region.w
    requires IsMultiple(i, t) && IsMultiple(j, t)
    requires result == FilledUpTo(region, t, i, j)
    ensures next == FilledUpTo(region, t, i, j + t)
  {
    // The tile is never empty: i < h and j < w.
    var tile := Window(i, j, Min(t, region.h - i), Min(t, region.w - j));
    var color := TileMean(region, tile);
    FillTileStep(region, t, i, j);
    next := Paste(result, tile, Filled(tile.rows, tile.cols, color));
  }

  /** The tile loops of `mosaic_effect` over a copy of the region. */
  method MosaicRegion(region: Image, tileSize: nat) returns (result: Image)
    requires region.Valid() && tileSize > 0
    ensures result == MosaicOf(region, tileSize)
  {
    var h, w := region.h, region.w;
    result := region;
    FilledNothing(region, tileSize);
    var i := 0;
    while i < h
      invariant IsMultiple(i, tileSize)
      invariant result == FilledUpTo(region, tileSize, i, 0)
    {
      var j := 0;
      while j < w
        invariant IsMultiple(j, tileSize)
        invariant result == FilledUpTo(region, tileSize, i, j)
      {
        result := FillTile(region, result, tileSize, i, j);
        j := j + tileSize;
      }
      BandDone(region, tileSize, i, j);
      i := i + tileSize;
    }
    FilledAll(region, tileSize, i);
  }

  /** A window whose channel `c` is `v` throughout sums to `v` times its size. */
  lemma {:induction false} WindowSumConst(img: Image, c: nat, win: Window, v: Byte)
    requires img.Valid() && c < 3 && Fits(win, img)
    requires forall i, j :: win.top <= i < win.top + win.rows && win.left <= j < win.left + win.cols ==> Channel(img.px[i][j], c) == v
    ensures WindowSum(img, c, win) == v * Area(win.rows, win.cols)
    decreases win.rows
  {
    if win.rows > 0 {
      WindowSumConst(img, c, win.(rows := win.rows - 1), v);
      RowSumConst(img, c, win.top + win.rows - 1, win.left, win.cols, v);
      Distrib(v, Area(win.rows - 1, win.cols), win.cols);
    }
  }

  lemma {:induction false} RowSumConst(img: Image, c: nat, row: nat, left: nat, cols: nat, v: Byte)
    requires img.Valid() && c < 3 && row < img.h && left + cols <= img.w
    requires forall j :: left <= j < left + cols ==> Channel(img.px[row][j], c) == v
    ensures RowSum(img, c, row, left, cols) == v * cols
  {
    if cols > 0 {
      RowSumConst(img, c, row, left, cols - 1, v);
      Distrib(v, cols - 1, 1);
    }
  }

  /** The mean of a window whose channel `c` is `v` throughout is `v`. */
  lemma ChannelMeanConst(img: Image, c: nat, win: Window, v: Byte)
    requires img.Valid() && c < 3 && Fits(win, img) && win.rows > 0 && win.cols > 0
    requires forall i, j :: win.top <= i < win.top + win.rows && win.left <= j < win.left + win.cols ==> Channel(img.px[i][j], c) == v
    ensures ChannelMean(img, c, win) == v
  {
    var n := Area(win.rows, win.cols);
    var m := ChannelMean(img, c, win);
    ChannelMeanFloor(img, c, win);
    WindowSumConst(img, c, win, v);
    MulLeCancel(m, v, n);
    MulLtCancel(v, (m as int) + 1, n);
  }

  /** The mean of a tile of one colour is that colour. */
  lemma TileMeanConst(img: Image, win: Window, p: Pixel)
    requires img.Valid() && Fits(win, img) && win.rows > 0 && win.cols > 0
    requires forall i, j :: win.top <= i < win.top + win.rows && win.left <= j < win.left + win.cols ==> img.px[i][j] == p
    ensures TileMean(img, win) == p
  {
    ChannelMeanConst(img, 0, win, p.b);
    ChannelMeanConst(img, 1, win, p.g);
    ChannelMeanConst(img, 2, win, p.r);
  }

  /** A region of one colour comes out of the mosaic unchanged. */
  lemma MosaicOfConstant(region: Image, t: nat, p: Pixel)
    requires region.Valid() && t > 0
    requires forall i, j :: 0 <= i < region.h && 0 <= j < region.w ==> region.px[i][j] == p
    ensures MosaicOf(region, t) == region
  {
    var m := MosaicOf(region, t);
    forall i, j | 0 <= i < region.h && 0 <= j < region.w
      ensures m.px[i][j] == region.px[i][j]
    {
      TileMeanConst(region, TileAt(region.h, region.w, t, i, j), p);
    }
    ImageEquality(m, region);
  }

  /** After the mosaic, the tile holding `(i, j)` has one colour throughout: its mean in the region. */
  lemma MosaicTileUniform(region: Image, t: nat, i: nat, j: nat)
    requires region.Valid() && t > 0 && i < region.h && j < region.w
    ensures var tile := TileAt(region.h, region.w, t, i, j);
      forall r, c :: tile.top <= r < tile.top + tile.rows && tile.left <= c < tile.left + tile.cols ==>
        MosaicOf(region, t).px[r][c] == TileMean(region, tile)
  {
    var tile := TileAt(region.h, region.w, t, i, j);
    forall r, c | tile.top <= r < tile.top + tile.rows && tile.left <= c < tile.left + tile.cols
      ensures TileAt(region.h, region.w, t, r, c) == tile
    {
      TileStartOf(tile.top, t, r);
      TileStartOf(tile.left, t, c);
    }
  }

  /** Applying the mosaic twice is applying it once. */
  lemma MosaicIdempotent(region: Image, t: nat)
    requires region.Valid() && t > 0
    ensures MosaicOf(MosaicOf(region, t), t) == MosaicOf(region, t)
  {
    var m := MosaicOf(region, t);
    var mm := MosaicOf(m, t);
    forall i, j | 0 <= i < region.h && 0 <= j < region.w
      ensures mm.px[i][j] == m.px[i][j]
    {
      var tile := TileAt(region.h, region.w, t, i, j);
      MosaicTileUniform(region, t, i, j);
      TileMeanConst(m, tile, TileMean(region, tile));
    }
    ImageEquality(mm, m);
  }

  /** `apply_opacity(original, processed, opacity)`: the library's weighted blend of the two regions. */
  function ApplyOpacity(lib: Library, original: Image, processed: Image, opacity: int): (r: Image)
    requires original.Valid() && processed.Valid() && SameShape(original, processed)
    ensures lib.Valid() ==> r.Valid() && SameShape(r, processed)
  {
    lib.blend(original, processed, opacity)
  }

  // ------------------------------------------------------------ detectors

  /** `detectMultiScale` returns an empty tuple when it finds nothing and an array otherwise. */
  function CascadeRegions(lib: Library, c: Cascade, img: Image): (r: Regions)
    ensures r.boxes == lib.cascade(c, img)
    ensures r.ndarray <==> |r.boxes| > 0
  {
    var found := lib.cascade(c, img);
    Regions(found, |found| > 0)
  }

  function DetectFaces(lib: Library, img: Image): Regions { CascadeRegions(lib, FrontalFace, img) }
  function DetectEyes(lib: Library, img: Image): Regions { CascadeRegions(lib, EyeCascade, img) }
  function DetectFullBody(lib: Library, img: Image): Regions { CascadeRegions(lib, FullBody, img) }

  /** The plate test `2.0 <= w / h <= 5.0 and w > 80 and h > 20`, for a positive height, in integers. */
  predicate PlateShaped(b: Box)
  {
    2 * b.h <= b.w <= 5 * b.h && b.w > 80 && b.h > 20
  }

  /** The plate test rejects boxes shorter than 21 and narrower than 81, and bounds the aspect both ways. */
  lemma PlateShapedBounds(b: Box)
    requires PlateShaped(b)
    ensures b.w >= 81 && b.h >= 21 && b.w >= 42
    ensures b.w > b.h
  {
  }

  /** The filter loop of `detect_license_plates` over the bounding rectangles of the contours. */
  method FilterPlates(contours: seq<Box>) returns (plates: seq<Box>)
    requires forall i :: 0 <= i < |contours| ==> contours[i].h > 0
    ensures plates == FilterBoxes(contours, PlateShaped)
  {
    plates := [];
    for i := 0 to |contours|
      invariant plates == FilterBoxes(contours[..i], PlateShaped)
    {
      var b := contours[i];
      FilterBoxesAppend(contours[..i], b, PlateShaped);
      assert contours[..i + 1] == contours[..i] + [b];
      if PlateShaped(b) {
        plates := plates + [b];
      }
    }
    assert contours[..|contours|] == contours;
  }

  /** `detect_license_plates(image)`: the plate-shaped bounding rectangles, as an array. */
  method DetectLicensePlates(lib: Library, img: Image) returns (r: Regions)
    requires lib.Valid()
    ensures r.ndarray
    ensures r.boxes == FilterBoxes(lib.plateContours(img), PlateShaped)
    ensures forall b :: b in r.boxes <==> b in lib.plateContours(img) && PlateShaped(b)
  {
    var plates := FilterPlates(lib.plateContours(img));
    r := Regions(plates, true);
  }

  /** The OCR-path test of `detect_text`: a box of an entry whose confidence is over 30. */
  predicate OcrKept(e: OcrEntry)
    requires e.conf.ConfInt?
  {
    e.conf.value > 30 && e.width > 10 && e.height > 10
  }

  /** The fallback test of `detect_text` on the contours of the thresholded image. */
  predicate TextContourShaped(b: Box)
  {
    10 < b.w < 200 && 10 < b.h < 100
  }

  /**
   * The boxes the OCR path of `detect_text` keeps, or `None` when `int()`
   * raises on some confidence (which sends the whole call to the fallback).
   */
  function OcrBoxes(entries: seq<OcrEntry>): (r: Option<seq<Box>>)
    ensures r.None? <==> exists i :: 0 <= i < |entries| && entries[i].conf.ConfNotInt?
    ensures r.Some? ==> forall b :: b in r.value <==>
      exists i :: 0 <= i < |entries| && OcrKept(entries[i]) && b == EntryBox(entries[i])
  {
    if |entries| == 0 then Some([])
    else
      var e := entries[|entries| - 1];
      var prefix := OcrBoxes(entries[..|entries| - 1]);
      if e.conf.ConfNotInt? then None
      else if prefix.None? then None
      else Some(prefix.value + (if OcrKept(e) then [EntryBox(e)] else []))
  }

  /**
   * `detect_text(image)`: the OCR path's boxes, or the fallback contour boxes
   * when Tesseract fails or a confidence is not an integer.
   */
  method DetectText(lib: Library, img: Image) returns (r: Regions)
    ensures r.ndarray
    ensures var data := lib.ocr(GrayDefault, img);
      if data.Some? && OcrBoxes(data.value).Some? then r.boxes == OcrBoxes(data.value).value
      else r.boxes == FilterBoxes(lib.textContours(img), TextContourShaped)
  {
    var data := lib.ocr(GrayDefault, img);
    if data.Some? {
      var entries := data.value;
      var regions: seq<Box> := [];
      var failed := false;
      var i := 0;
      while i < |entries| && !failed
        invariant 0 <= i <= |entries|
        invariant !failed ==> OcrBoxes(entries[..i]) == Some(regions)
        invariant failed ==> OcrBoxes(entries[..i]) == None
      {
        var e := entries[i];
        assert entries[..i + 1][..i] == entries[..i];
        assert entries[..i + 1][i] == e;
        if e.conf.ConfNotInt? {
          failed := true;
        } else {
          assert OcrBoxes(entries[..i + 1]) == Some(regions + (if OcrKept(e) then [EntryBox(e)] else []));
          assert regions + [] == regions;
          if e.conf.value > 30 {
            if e.width > 10 && e.height > 10 {
              regions := regions + [EntryBox(e)];
            }
          }
        }
        i := i + 1;
      }
      if !failed {
        assert entries[..i] == entries;
        return Regions(regions, true);
      }
      OcrBoxesNonePrefix(entries, i);
    }
    var fallback := FilterText(lib.textContours(img));
    r := Regions(fallback, true);
  }

  /** Once a prefix holds an unreadable confidence, so does the whole list. */
  lemma OcrBoxesNonePrefix(entries: seq<OcrEntry>, i: nat)
    requires i <= |entries| && OcrBoxes(entries[..i]) == None
    ensures OcrBoxes(entries) == None
  {
    var k :| 0 <= k < i && entries[..i][k].conf.ConfNotInt?;
    assert entries[k].conf.ConfNotInt?;
  }

  /** The fallback filter loop of `detect_text`. */
  method FilterText(contours: seq<Box>) returns (regions: seq<Box>)
    ensures regions == FilterBoxes(contours, TextContourShaped)
  {
    regions := [];
    for i := 0 to |contours|
      invariant regions == FilterBoxes(contours[..i], TextContourShaped)
    {
      var b := contours[i];
      FilterBoxesAppend(contours[..i], b, TextContourShaped);
      assert contours[..i + 1] == contours[..i] + [b];
      if TextContourShaped(b) {
        regions := regions + [b];
      }
    }
    assert contours[..|contours|] == contours;
  }
}
