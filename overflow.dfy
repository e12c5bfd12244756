/**
 * The channel sums of pixelate and blur as the source declares them: 32-bit Java `int`s,
 * divided with Java's truncating `/`. The rest of the model sums with unbounded integers.
 */
module Overflow {
  import opened Pixels
  import opened Windows

  const TwoTo31 := 0x8000_0000
  const TwoTo32 := 0x1_0000_0000

  /** Java `int` addition wraps: the value of v read back as a 32-bit two's-complement int. */
  function Int32(v: int): int {
    var m := v % TwoTo32;
    if m < TwoTo31 then m else m - TwoTo32
  }

  /** Java's `/` on `int`: rounds toward zero. */
  function JavaDiv(a: int, b: int): int
    requires b > 0
  {
    if a >= 0 then a / b else -((-a) / b)
  }

  /** Wrapping after every `+=` gives the same int as wrapping the exact sum once. */
  lemma Int32Add(a: int, b: int)
    ensures Int32(Int32(a) + b) == Int32(a + b)
  {
    var m := a % TwoTo32;
    assert (Int32(a) + b) % TwoTo32 == (m + b) % TwoTo32 == (a + b) % TwoTo32;
  }

  lemma Int32Exact(v: int)
    requires 0 <= v < TwoTo31
    ensures Int32(v) == v
  {
  }

  /**
   * The colour `new Color(red /= count, ...)` is asked for, with red, green and blue the
   * wrapped 32-bit sums. Java's Color rejects it when a channel is outside [0, 255].
   */
  function JavaMean(t: Tally): Pixel
    requires t.count > 0
  {
    Pixel(JavaDiv(Int32(t.r), t.count), JavaDiv(Int32(t.g), t.count), JavaDiv(Int32(t.b), t.count))
  }

  /** The largest block whose sums cannot overflow: 255 * 8421504 < 2^31 <= 255 * 8421505. */
  const MaxExactCount := 8421504

  /**
   * Up to MaxExactCount pixels the 32-bit computation is exact and equals Mean; this
   * covers every blur window (at most 9 pixels).
   */
  lemma JavaMeanExact(g: Grid, top: int, left: int, rows: nat, cols: nat)
    requires ValidGrid(g)
    requires 0 < WindowTally(g, top, left, rows, cols).count <= MaxExactCount
    ensures JavaMean(WindowTally(g, top, left, rows, cols)) == Mean(WindowTally(g, top, left, rows, cols))
  {
    var t := WindowTally(g, top, left, rows, cols);
    TallyBounds(g, top, left, rows, cols);
    assert MaxChannel * t.count <= MaxChannel * MaxExactCount < TwoTo31;
    Int32Exact(t.r);
    Int32Exact(t.g);
    Int32Exact(t.b);
  }

  /**
   * A white block of 2902 x 2902 in-bounds pixels (pixelate with pixelSize >= 2902 on an
   * image at least that large): the red sum wraps to a negative int and the colour
   * asked of `new Color` has red = -254.
   */
  lemma WhiteBlockOverflows(g: Grid, top: int, left: int, rows: nat, cols: nat)
    requires UniformOn(g, top, left, rows, cols, Pixel(MaxChannel, MaxChannel, MaxChannel))
    requires WindowTally(g, top, left, rows, cols).count == 2902 * 2902
    ensures JavaMean(WindowTally(g, top, left, rows, cols)).r == -254
    ensures !ValidPixel(JavaMean(WindowTally(g, top, left, rows, cols)))
  {
    WindowUniform(g, top, left, rows, cols, Pixel(MaxChannel, MaxChannel, MaxChannel));
  }
}
