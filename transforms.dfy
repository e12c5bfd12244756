/**
 * What each transform of the image editor computes, as a function from the input
 * image to the output image, and the properties of those functions.
 */
module Transforms {
  import opened Pixels
  import opened Windows

  /** The image with f applied to every pixel: negative and the channel filters. */
  function MapPixels(g: Grid, f: Pixel -> Pixel): (r: Grid)
    ensures Height(r) == Height(g) && Width(r) == Width(g)
    ensures forall y, x :: InBounds(g, y, x) ==> r[y][x] == f(g[y][x])
  {
    seq(|g|, y requires 0 <= y < |g| =>
      seq(Width(g), x requires 0 <= x < Width(g) => f(g[y][x])))
  }

  function NegativeImage(g: Grid): Grid {
    MapPixels(g, Negate)
  }

  function RedFilterImage(g: Grid): Grid {
    MapPixels(g, KeepRed)
  }

  function GreenFilterImage(g: Grid): Grid {
    MapPixels(g, KeepGreen)
  }

  function BlueFilterImage(g: Grid): Grid {
    MapPixels(g, KeepBlue)
  }

  /** Column x of the output is column Width - 1 - x of the input. */
  function MirrorHorizontalImage(g: Grid): Grid {
    seq(|g|, y requires 0 <= y < |g| =>
      seq(Width(g), x requires 0 <= x < Width(g) => g[y][Width(g) - 1 - x]))
  }

  /** Row y of the output is row Height - 1 - y of the input. */
  function MirrorVerticalImage(g: Grid): Grid {
    seq(|g|, y requires 0 <= y < |g| => g[|g| - 1 - y])
  }

  /** The first row (or column) of the block of side `size` that v falls in. */
  function BlockStart(v: nat, size: nat): nat
    requires size > 0
  {
    v / size * size
  }

  /** The blocks of side size are the intervals [q * size, q * size + size). */
  lemma BlockOf(v: nat, size: nat, q: int)
    requires size > 0 && q * size <= v < q * size + size
    ensures BlockStart(v, size) == q * size
  {
    var d := v / size - q;
    assert size * d == (v - v % size) - q * size;
    ProductBetween(size, d);
  }

  lemma BlockStartBounds(v: nat, size: nat)
    requires size > 0
    ensures BlockStart(v, size) <= v < BlockStart(v, size) + size
  {
  }

  /**
   * The colour pixelate gives pixel (y, x): the mean of the in-bounds pixels of the
   * size-by-size block containing it. The block always holds (y, x) itself, so the count
   * the source divides by is at least one.
   */
  function PixelateAt(g: Grid, size: nat, y: nat, x: nat): Pixel
    requires size > 0 && InBounds(g, y, x)
  {
    BlockStartBounds(y, size);
    BlockStartBounds(x, size);
    WindowCountPositive(g, BlockStart(y, size), BlockStart(x, size), size, size, y, x);
    Mean(WindowTally(g, BlockStart(y, size), BlockStart(x, size), size, size))
  }

  function PixelateImage(g: Grid, size: nat): Grid
    requires size > 0
  {
    seq(|g|, y requires 0 <= y < |g| =>
      seq(Width(g), x requires 0 <= x < Width(g) => PixelateAt(g, size, y, x)))
  }

  /**
   * The colour blur gives pixel (y, x): the mean of the in-bounds pixels of the 3-by-3
   * window centred on it. The centre is always in bounds, so the count is at least one.
   */
  function BlurAt(g: Grid, y: nat, x: nat): Pixel
    requires InBounds(g, y, x)
  {
    WindowCountPositive(g, y - 1, x - 1, 3, 3, y, x);
    Mean(WindowTally(g, y - 1, x - 1, 3, 3))
  }

  function BlurImage(g: Grid): Grid {
    seq(|g|, y requires 0 <= y < |g| =>
      seq(Width(g), x requires 0 <= x < Width(g) => BlurAt(g, y, x)))
  }

  // ---------------------------------------------------------------------------
  // negative

  /** Negating twice gives back the original image exactly. */
  lemma NegativeInvolutive(g: Grid)
    ensures NegativeImage(NegativeImage(g)) == g
  {
    var n := NegativeImage(NegativeImage(g));
    SameGrid(n, g);
  }

  /** Every channel of the negative is 255 minus the input's, so stays in [0, 255]. */
  lemma NegativeValid(g: Grid)
    requires ValidGrid(g)
    ensures ValidGrid(NegativeImage(g))
    ensures forall y, x :: InBounds(g, y, x) ==>
      var p, q := g[y][x], NegativeImage(g)[y][x];
      q.r == MaxChannel - p.r && q.g == MaxChannel - p.g && q.b == MaxChannel - p.b
  {
  }

  // ---------------------------------------------------------------------------
  // mirrors

  /** Mirroring left to right twice gives back the original image. */
  lemma MirrorHorizontalInvolutive(g: Grid)
    ensures MirrorHorizontalImage(MirrorHorizontalImage(g)) == g
  {
    var m := MirrorHorizontalImage(MirrorHorizontalImage(g));
    SameGrid(m, g);
  }

  /** Mirroring top to bottom twice gives back the original image. */
  lemma MirrorVerticalInvolutive(g: Grid)
    ensures MirrorVerticalImage(MirrorVerticalImage(g)) == g
  {
    var m := MirrorVerticalImage(MirrorVerticalImage(g));
    SameGrid(m, g);
  }

  /** A mirror only moves pixels: every output pixel is an input pixel at the reflected index. */
  lemma MirrorsMovePixels(g: Grid)
    ensures forall y, x :: InBounds(g, y, x) ==>
      MirrorHorizontalImage(g)[y][x] == g[y][Width(g) - 1 - x] &&
      MirrorVerticalImage(g)[y][x] == g[Height(g) - 1 - y][x]
    ensures ValidGrid(g) ==> ValidGrid(MirrorHorizontalImage(g)) && ValidGrid(MirrorVerticalImage(g))
  {
  }

  // ---------------------------------------------------------------------------
  // channel filters

  /**
   * Each filter keeps its own channel and zeroes the other two, so the three filtered
   * images add up, channel by channel, to the original.
   */
  lemma FiltersSplitChannels(g: Grid)
    ensures forall y, x :: InBounds(g, y, x) ==>
      var p, r, gr, b := g[y][x], RedFilterImage(g)[y][x], GreenFilterImage(g)[y][x], BlueFilterImage(g)[y][x];
      r == Pixel(p.r, 0, 0) && gr == Pixel(0, p.g, 0) && b == Pixel(0, 0, p.b) &&
      Pixel(r.r + gr.r + b.r, r.g + gr.g + b.g, r.b + gr.b + b.b) == p
  {
  }

  /** Filtering an already filtered image changes nothing. */
  lemma FiltersIdempotent(g: Grid)
    ensures RedFilterImage(RedFilterImage(g)) == RedFilterImage(g)
    ensures GreenFilterImage(GreenFilterImage(g)) == GreenFilterImage(g)
    ensures BlueFilterImage(BlueFilterImage(g)) == BlueFilterImage(g)
  {
    SameGrid(RedFilterImage(RedFilterImage(g)), RedFilterImage(g));
    SameGrid(GreenFilterImage(GreenFilterImage(g)), GreenFilterImage(g));
    SameGrid(BlueFilterImage(BlueFilterImage(g)), BlueFilterImage(g));
  }

  // ---------------------------------------------------------------------------
  // pixelate

  /**
   * The block that starts at (top, left), with top = bi * size and left = bj * size:
   * every in-bounds pixel of it gets the block's own mean, its channel sums divided by
   * its in-bounds count, and that count is at least one.
   */
  lemma PixelateBlockColour(g: Grid, size: nat, top: nat, left: nat, bi: nat, bj: nat)
    requires size > 0 && top == bi * size && left == bj * size && InBounds(g, top, left)
    ensures WindowTally(g, top, left, size, size).count > 0
    ensures forall y, x :: top <= y < top + size && left <= x < left + size && InBounds(g, y, x) ==>
      PixelateImage(g, size)[y][x] == Mean(WindowTally(g, top, left, size, size))
  {
    WindowCountPositive(g, top, left, size, size, top, left);
    forall y, x | top <= y < top + size && left <= x < left + size && InBounds(g, y, x)
      ensures PixelateImage(g, size)[y][x] == Mean(WindowTally(g, top, left, size, size))
    {
      BlockOf(y, size, bi);
      BlockOf(x, size, bj);
    }
  }

  /** Two pixels of one block get the same colour. */
  lemma PixelateBlockUniform(g: Grid, size: nat, y1: nat, x1: nat, y2: nat, x2: nat)
    requires size > 0 && InBounds(g, y1, x1) && InBounds(g, y2, x2)
    requires y1 / size == y2 / size && x1 / size == x2 / size
    ensures PixelateImage(g, size)[y1][x1] == PixelateImage(g, size)[y2][x2]
  {
  }

  /** Pixelating valid pixels gives valid pixels: no block average leaves [0, 255]. */
  lemma PixelateValid(g: Grid, size: nat)
    requires size > 0 && ValidGrid(g)
    ensures ValidGrid(PixelateImage(g, size))
  {
    var p := PixelateImage(g, size);
    forall y, x | 0 <= y < |p| && 0 <= x < |p[y]|
      ensures ValidPixel(p[y][x])
    {
      BlockStartBounds(y, size);
      BlockStartBounds(x, size);
      WindowCountPositive(g, BlockStart(y, size), BlockStart(x, size), size, size, y, x);
      MeanValid(g, BlockStart(y, size), BlockStart(x, size), size, size);
    }
  }

  /** Pixelating with blocks of one pixel changes nothing. */
  lemma PixelateOne(g: Grid)
    ensures PixelateImage(g, 1) == g
  {
    var p := PixelateImage(g, 1);
    forall y, x | InBounds(p, y, x)
      ensures p[y][x] == g[y][x]
    {
      WindowCountPositive(g, y, x, 1, 1, y, x);
      MeanUniform(g, y, x, 1, 1, g[y][x]);
    }
    SameGrid(p, g);
  }

  /** Pixelating a pixelated image with the same block size changes nothing. */
  lemma PixelateIdempotent(g: Grid, size: nat)
    requires size > 0
    ensures PixelateImage(PixelateImage(g, size), size) == PixelateImage(g, size)
  {
    var p := PixelateImage(g, size);
    var pp := PixelateImage(p, size);
    forall y, x | InBounds(pp, y, x)
      ensures pp[y][x] == p[y][x]
    {
      var top, left := BlockStart(y, size), BlockStart(x, size);
      forall y', x' | top <= y' < top + size && left <= x' < left + size && InBounds(p, y', x')
        ensures p[y'][x'] == p[y][x]
      {
        BlockOf(y', size, y / size);
        BlockOf(x', size, x / size);
      }
      BlockStartBounds(y, size);
      BlockStartBounds(x, size);
      WindowCountPositive(p, top, left, size, size, y, x);
      MeanUniform(p, top, left, size, size, p[y][x]);
    }
    SameGrid(pp, p);
  }

  // ---------------------------------------------------------------------------
  // blur

  /**
   * Blur averages over the in-bounds cells of the 3-by-3 window: one to three rows times
   * one to three columns, so 9 inside, 6 on an edge and 4 in a corner.
   */
  lemma BlurCount(g: Grid, y: nat, x: nat)
    requires InBounds(g, y, x)
    ensures var n := WindowTally(g, y - 1, x - 1, 3, 3).count;
      n == (1 + (if y > 0 then 1 else 0) + (if y + 1 < Height(g) then 1 else 0))
         * (1 + (if x > 0 then 1 else 0) + (if x + 1 < Width(g) then 1 else 0)) &&
      1 <= n <= 9
  {
    WindowCount(g, y - 1, x - 1, 3, 3);
    var a, b := Span(y - 1, 3, Height(g)), Span(x - 1, 3, Width(g));
    assert 1 <= a <= 3 && 1 <= b <= 3;
    assert a * b <= 3 * b <= 9;
  }

  /** Blurring valid pixels gives valid pixels. */
  lemma BlurValid(g: Grid)
    requires ValidGrid(g)
    ensures ValidGrid(BlurImage(g))
  {
    var p := BlurImage(g);
    forall y, x | 0 <= y < |p| && 0 <= x < |p[y]|
      ensures ValidPixel(p[y][x])
    {
      WindowCountPositive(g, y - 1, x - 1, 3, 3, y, x);
      MeanValid(g, y - 1, x - 1, 3, 3);
    }
  }

  /** An image of one colour is its own blur. */
  lemma BlurUniform(g: Grid, v: Pixel)
    requires forall y, x :: InBounds(g, y, x) ==> g[y][x] == v
    ensures BlurImage(g) == g
  {
    var p := BlurImage(g);
    forall y, x | InBounds(p, y, x)
      ensures p[y][x] == g[y][x]
    {
      WindowCountPositive(g, y - 1, x - 1, 3, 3, y, x);
      MeanUniform(g, y - 1, x - 1, 3, 3, v);
    }
    SameGrid(p, g);
  }

  /** A 1-by-1 image is its own blur: its only pixel is the only sample. */
  lemma BlurSinglePixel(g: Grid)
    requires Height(g) == 1 && Width(g) == 1
    ensures BlurImage(g) == g
  {
    BlurUniform(g, g[0][0]);
  }
}
