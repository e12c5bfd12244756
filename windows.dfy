/**
 * Channel sums and pixel counts over rectangular windows of a grid, clipped to the
 * grid's bounds: what pixelate's and blur's inner loops accumulate before dividing.
 */
module Windows {
  import opened Pixels

  /** The locals red, green, blue and count of one window's accumulation. */
  datatype Tally = Tally(r: int, g: int, b: int, count: int)

  const Empty := Tally(0, 0, 0, 0)

  /** One in-bounds pixel added to the sums. */
  function Add(t: Tally, p: Pixel): Tally {
    Tally(t.r + p.r, t.g + p.g, t.b + p.b, t.count + 1)
  }

  function Plus(s: Tally, t: Tally): Tally {
    Tally(s.r + t.r, s.g + t.g, s.b + t.b, s.count + t.count)
  }

  /**
   * The in-bounds pixels of row y, columns left .. left + cols - 1, added left to right;
   * cells outside the grid are skipped, as the source's bounds test skips them.
   */
  function RowTally(g: Grid, y: int, left: int, cols: nat): Tally
  {
    if cols == 0 then Empty
    else
      var t := RowTally(g, y, left, cols - 1);
      if InBounds(g, y, left + cols - 1) then Add(t, g[y][left + cols - 1]) else t
  }

  /** The in-bounds pixels of rows top .. top + rows - 1 of a window, row after row. */
  function WindowTally(g: Grid, top: int, left: int, rows: nat, cols: nat): Tally
  {
    if rows == 0 then Empty
    else Plus(WindowTally(g, top, left, rows - 1, cols), RowTally(g, top + rows - 1, left, cols))
  }

  /** How many of start .. start + len - 1 lie in 0 .. bound - 1. */
  function Span(start: int, len: nat, bound: nat): nat
  {
    var lo := if start < 0 then 0 else start;
    var hi := if start + len < bound then start + len else bound;
    if hi <= lo then 0 else hi - lo
  }

  /**
   * The average colour: each channel sum divided by the count. Dafny's `/` rounds down
   * and Java's `/=` truncates toward zero; they agree on the non-negative sums that
   * valid pixels give (TallyBounds).
   */
  function Mean(t: Tally): Pixel
    requires t.count > 0
  {
    Pixel(t.r / t.count, t.g / t.count, t.b / t.count)
  }

  /** Every in-bounds pixel of the window has colour v. */
  ghost predicate UniformOn(g: Grid, top: int, left: int, rows: nat, cols: nat, v: Pixel) {
    forall y, x :: top <= y < top + rows && left <= x < left + cols && InBounds(g, y, x) ==> g[y][x] == v
  }

  lemma SpanStep(start: int, len: nat, bound: nat)
    requires len > 0
    ensures Span(start, len, bound)
         == Span(start, len - 1, bound) + (if 0 <= start + len - 1 < bound then 1 else 0)
  {
  }

  /** A row contributes as many pixels as its columns overlap the grid, if the row exists. */
  lemma {:induction false} RowCount(g: Grid, y: int, left: int, cols: nat)
    ensures RowTally(g, y, left, cols).count
         == if 0 <= y < Height(g) then Span(left, cols, Width(g)) else 0
  {
    if cols > 0 {
      RowCount(g, y, left, cols - 1);
      SpanStep(left, cols, Width(g));
    }
  }

  /** The count of a window is the number of its rows inside the grid times its columns inside. */
  lemma {:induction false} WindowCount(g: Grid, top: int, left: int, rows: nat, cols: nat)
    ensures WindowTally(g, top, left, rows, cols).count
         == Span(top, rows, Height(g)) * Span(left, cols, Width(g))
  {
    if rows > 0 {
      WindowCount(g, top, left, rows - 1, cols);
      RowCount(g, top + rows - 1, left, cols);
      SpanStep(top, rows, Height(g));
      var w := Span(left, cols, Width(g));
      var a := Span(top, rows - 1, Height(g));
      var e := if 0 <= top + rows - 1 < Height(g) then 1 else 0;
      assert (a + e) * w == a * w + e * w;
    }
  }

  /** A window that covers some pixel of the grid counts at least one pixel. */
  lemma WindowCountPositive(g: Grid, top: int, left: int, rows: nat, cols: nat, y: int, x: int)
    requires top <= y < top + rows && left <= x < left + cols && InBounds(g, y, x)
    ensures WindowTally(g, top, left, rows, cols).count >= 1
  {
    WindowCount(g, top, left, rows, cols);
    var a, b := Span(top, rows, Height(g)), Span(left, cols, Width(g));
    assert a >= 1 && b >= 1;
    assert a * b >= 1 * b;
  }

  /** Over valid pixels every channel sum lies between 0 and 255 times the count. */
  lemma {:induction false} RowBounds(g: Grid, y: int, left: int, cols: nat)
    requires ValidGrid(g)
    ensures var t := RowTally(g, y, left, cols);
      0 <= t.count &&
      0 <= t.r <= MaxChannel * t.count &&
      0 <= t.g <= MaxChannel * t.count &&
      0 <= t.b <= MaxChannel * t.count
  {
    if cols > 0 {
      RowBounds(g, y, left, cols - 1);
    }
  }

  lemma {:induction false} TallyBounds(g: Grid, top: int, left: int, rows: nat, cols: nat)
    requires ValidGrid(g)
    ensures var t := WindowTally(g, top, left, rows, cols);
      0 <= t.count &&
      0 <= t.r <= MaxChannel * t.count &&
      0 <= t.g <= MaxChannel * t.count &&
      0 <= t.b <= MaxChannel * t.count
  {
    if rows > 0 {
      TallyBounds(g, top, left, rows - 1, cols);
      RowBounds(g, top + rows - 1, left, cols);
    }
  }

  lemma ProductNonPositive(c: int, d: int)
    requires c > 0 && c * d <= 0
    ensures d <= 0
  {
  }

  lemma ProductBetween(c: int, d: int)
    requires c > 0 && -c < c * d < c
    ensures d == 0
  {
  }

  /** A sum of count channel values, divided by count, is again a channel value. */
  lemma ChannelMean(sum: int, count: int)
    requires 0 < count && 0 <= sum <= MaxChannel * count
    ensures IsChannel(sum / count)
  {
    var q := sum / count;
    assert count * (q - MaxChannel) == count * q - MaxChannel * count;
    ProductNonPositive(count, q - MaxChannel);
  }

  /** The mean of a window of valid pixels is a valid colour: `new Color` never rejects it. */
  lemma MeanValid(g: Grid, top: int, left: int, rows: nat, cols: nat)
    requires ValidGrid(g) && WindowTally(g, top, left, rows, cols).count > 0
    ensures ValidPixel(Mean(WindowTally(g, top, left, rows, cols)))
  {
    var t := WindowTally(g, top, left, rows, cols);
    TallyBounds(g, top, left, rows, cols);
    ChannelMean(t.r, t.count);
    ChannelMean(t.g, t.count);
    ChannelMean(t.b, t.count);
  }

  lemma {:induction false} RowUniform(g: Grid, y: int, left: int, cols: nat, v: Pixel)
    requires forall x :: left <= x < left + cols && InBounds(g, y, x) ==> g[y][x] == v
    ensures var t := RowTally(g, y, left, cols);
      t == Tally(t.count * v.r, t.count * v.g, t.count * v.b, t.count)
  {
    if cols > 0 {
      RowUniform(g, y, left, cols - 1, v);
      var t := RowTally(g, y, left, cols - 1);
      assert (t.count + 1) * v.r == t.count * v.r + v.r;
      assert (t.count + 1) * v.g == t.count * v.g + v.g;
      assert (t.count + 1) * v.b == t.count * v.b + v.b;
    }
  }

  /** A window whose in-bounds pixels all have colour v sums to count copies of v. */
  lemma {:induction false} WindowUniform(g: Grid, top: int, left: int, rows: nat, cols: nat, v: Pixel)
    requires UniformOn(g, top, left, rows, cols, v)
    ensures var t := WindowTally(g, top, left, rows, cols);
      t == Tally(t.count * v.r, t.count * v.g, t.count * v.b, t.count)
  {
    if rows > 0 {
      WindowUniform(g, top, left, rows - 1, cols, v);
      RowUniform(g, top + rows - 1, left, cols, v);
      var s := WindowTally(g, top, left, rows - 1, cols);
      var t := RowTally(g, top + rows - 1, left, cols);
      assert (s.count + t.count) * v.r == s.count * v.r + t.count * v.r;
      assert (s.count + t.count) * v.g == s.count * v.g + t.count * v.g;
      assert (s.count + t.count) * v.b == s.count * v.b + t.count * v.b;
    }
  }

  /** Averaging a window of one colour gives back that colour. */
  lemma MeanUniform(g: Grid, top: int, left: int, rows: nat, cols: nat, v: Pixel)
    requires UniformOn(g, top, left, rows, cols, v)
    requires WindowTally(g, top, left, rows, cols).count > 0
    ensures Mean(WindowTally(g, top, left, rows, cols)) == v
  {
    WindowUniform(g, top, left, rows, cols, v);
    var c := WindowTally(g, top, left, rows, cols).count;
    DivMul(v.r, c);
    DivMul(v.g, c);
    DivMul(v.b, c);
  }

  lemma DivMul(a: int, c: int)
    requires c > 0
    ensures c * a / c == a
  {
    var q, r := c * a / c, c * a % c;
    assert c * (a - q) == r;
    ProductBetween(c, a - q);
  }
}
