/**
 * The transforms of the image editor as the source runs them: nested row and column
 * loops that read the input image and fill a freshly allocated output image cell by
 * cell. None of these methods has a `modifies` clause, so none can write the input.
 * Each is proved to compute the corresponding function of the Transforms module.
 */
module ImageEditor {
  import opened Pixels
  import opened Windows
  import opened Transforms

  /** Java's ArithmeticException from `red /= count` with count == 0. */
  datatype Error = DivisionByZero

  datatype Result<T> = Ok(value: T) | Err(error: Error)

  /** The loop shared by negative and the three channel filters: f applied to every pixel. */
  method MapEachPixel(img: array2<Pixel>, f: Pixel -> Pixel) returns (out: array2<Pixel>)
    ensures fresh(out) && out.Length0 == img.Length0 && out.Length1 == img.Length1
    ensures Contents(out) == MapPixels(Contents(img), f)
  {
    var h, w := img.Length0, img.Length1;
    out := new Pixel[h, w]((_, _) => Black);
    var i := 0;
    while i < h
      invariant 0 <= i <= h
      invariant forall y, x :: 0 <= y < i && 0 <= x < w ==> out[y, x] == f(img[y, x])
    {
      var j := 0;
      while j < w
        invariant 0 <= j <= w
        invariant forall y, x :: 0 <= y < i && 0 <= x < w ==> out[y, x] == f(img[y, x])
        invariant forall x :: 0 <= x < j ==> out[i, x] == f(img[i, x])
      {
        out[i, j] := f(img[i, j]);
        j := j + 1;
      }
      i := i + 1;
    }
    ContentsAre(out, MapPixels(Contents(img), f));
  }

  /** Every channel c becomes 255 - c. */
  method Negative(img: array2<Pixel>) returns (out: array2<Pixel>)
    ensures fresh(out) && out.Length0 == img.Length0 && out.Length1 == img.Length1
    ensures Contents(out) == NegativeImage(Contents(img))
  {
    out := MapEachPixel(img, Negate);
  }

  /** Keeps the red channel and zeroes green and blue. */
  method RedFilter(img: array2<Pixel>) returns (out: array2<Pixel>)
    ensures fresh(out) && out.Length0 == img.Length0 && out.Length1 == img.Length1
    ensures Contents(out) == RedFilterImage(Contents(img))
  {
    out := MapEachPixel(img, KeepRed);
  }

  /** Keeps the green channel and zeroes red and blue. */
  method GreenFilter(img: array2<Pixel>) returns (out: array2<Pixel>)
    ensures fresh(out) && out.Length0 == img.Length0 && out.Length1 == img.Length1
    ensures Contents(out) == GreenFilterImage(Contents(img))
  {
    out := MapEachPixel(img, KeepGreen);
  }

  /** Keeps the blue channel and zeroes red and green. */
  method BlueFilter(img: array2<Pixel>) returns (out: array2<Pixel>)
    ensures fresh(out) && out.Length0 == img.Length0 && out.Length1 == img.Length1
    ensures Contents(out) == BlueFilterImage(Contents(img))
  {
    out := MapEachPixel(img, KeepBlue);
  }

  /** Output column j is input column w - j - 1. */
  method MirrorHorizontal(img: array2<Pixel>) returns (out: array2<Pixel>)
    ensures fresh(out) && out.Length0 == img.Length0 && out.Length1 == img.Length1
    ensures Contents(out) == MirrorHorizontalImage(Contents(img))
  {
    var h, w := img.Length0, img.Length1;
    out := new Pixel[h, w]((_, _) => Black);
    var i := 0;
    while i < h
      invariant 0 <= i <= h
      invariant forall y, x :: 0 <= y < i && 0 <= x < w ==> out[y, x] == img[y, w - x - 1]
    {
      var j := 0;
      while j < w
        invariant 0 <= j <= w
        invariant forall y, x :: 0 <= y < i && 0 <= x < w ==> out[y, x] == img[y, w - x - 1]
        invariant forall x :: 0 <= x < j ==> out[i, x] == img[i, w - x - 1]
      {
        out[i, j] := img[i, w - j - 1];
        j := j + 1;
      }
      i := i + 1;
    }
    ContentsAre(out, MirrorHorizontalImage(Contents(img)));
  }

  /** Output row i is input row h - i - 1. */
  method MirrorVertical(img: array2<Pixel>) returns (out: array2<Pixel>)
    ensures fresh(out) && out.Length0 == img.Length0 && out.Length1 == img.Length1
    ensures Contents(out) == MirrorVerticalImage(Contents(img))
  {
    var h, w := img.Length0, img.Length1;
    out := new Pixel[h, w]((_, _) => Black);
    var i := 0;
    while i < h
      invariant 0 <= i <= h
      invariant forall y, x :: 0 <= y < i && 0 <= x < w ==> out[y, x] == img[h - y - 1, x]
    {
      var j := 0;
      while j < w
        invariant 0 <= j <= w
        invariant forall y, x :: 0 <= y < i && 0 <= x < w ==> out[y, x] == img[h - y - 1, x]
        invariant forall x :: 0 <= x < j ==> out[i, x] == img[h - i - 1, x]
      {
        out[i, j] := img[h - i - 1, j];
        j := j + 1;
      }
      i := i + 1;
    }
    ContentsAre(out, MirrorVerticalImage(Contents(img)));
  }

  /**
   * The inner k/l loops of pixelate and blur: the channel sums and the number of the
   * in-bounds pixels of the window rows top .. top + rows - 1, columns
   * left .. left + cols - 1, row after row. (Pixelate's bounds test omits the `>= 0`
   * half because its window never starts at a negative index.)
   */
  method SumWindow(img: array2<Pixel>, top: int, left: int, rows: nat, cols: nat)
    returns (red: int, green: int, blue: int, count: int)
    ensures Tally(red, green, blue, count) == WindowTally(Contents(img), top, left, rows, cols)
  {
    ghost var g := Contents(img);
    red, green, blue, count := 0, 0, 0, 0;
    var k := 0;
    while k < rows
      invariant 0 <= k <= rows
      invariant Tally(red, green, blue, count) == WindowTally(g, top, left, k, cols)
    {
      var l := 0;
      while l < cols
        invariant 0 <= l <= cols
        invariant Tally(red, green, blue, count) == Plus(WindowTally(g, top, left, k, cols), RowTally(g, top + k, left, l))
      {
        var y, x := top + k, left + l;
        if 0 <= y < img.Length0 && 0 <= x < img.Length1 {
          var p := img[y, x];
          red, green, blue, count := red + p.r, green + p.g, blue + p.b, count + 1;
        }
        l := l + 1;
      }
      k := k + 1;
    }
  }

  /** Pixelate's second k/l loop pair: sets the in-bounds cells of one block to colour. */
  method PaintBlock(out: array2<Pixel>, top: nat, left: nat, size: nat, colour: Pixel)
    modifies out
    ensures forall y, x :: 0 <= y < out.Length0 && 0 <= x < out.Length1 ==>
      out[y, x] == if top <= y < top + size && left <= x < left + size then colour else old(out[y, x])
  {
    var k := 0;
    while k < size
      invariant 0 <= k <= size
      invariant forall y, x :: 0 <= y < out.Length0 && 0 <= x < out.Length1 ==>
        out[y, x] == if top <= y < top + k && left <= x < left + size then colour else old(out[y, x])
    {
      var l := 0;
      while l < size
        invariant 0 <= l <= size
        invariant forall y, x :: 0 <= y < out.Length0 && 0 <= x < out.Length1 ==>
          out[y, x] == if (top <= y < top + k && left <= x < left + size) || (y == top + k && left <= x < left + l)
                       then colour else old(out[y, x])
      {
        if top + k < out.Length0 && left + l < out.Length1 {
          out[top + k, left + l] := colour;
        }
        l := l + 1;
      }
      k := k + 1;
    }
  }

  /**
   * Replaces every pixelSize-by-pixelSize block (clipped at the right and bottom edges)
   * by the truncated mean of its in-bounds pixels. A pixelSize of zero or less leaves
   * the count at zero and the source divides by it.
   */
  method Pixelate(img: array2<Pixel>, pixelSize: int) returns (result: Result<array2<Pixel>>)
    ensures result.Err? <==> pixelSize <= 0
    ensures result.Err? ==> result.error == DivisionByZero
    ensures result.Ok? ==>
      var out := result.value;
      fresh(out) && out.Length0 == img.Length0 && out.Length1 == img.Length1 &&
      pixelSize > 0 && Contents(out) == PixelateImage(Contents(img), pixelSize)
  {
    if pixelSize <= 0 {
      return Err(DivisionByZero);
    }
    var s: nat := pixelSize;
    var h, w := img.Length0, img.Length1;
    ghost var g := Contents(img);
    var out := new Pixel[h, w]((_, _) => Black);
    var i := 0;
    ghost var bi: nat := 0;
    while i < h
      invariant i == bi * s
      invariant forall y, x :: 0 <= y < h && y < i && 0 <= x < w ==> out[y, x] == PixelateAt(g, s, y, x)
      decreases h - i
    {
      var j := 0;
      ghost var bj: nat := 0;
      while j < w
        invariant j == bj * s
        invariant forall y, x :: 0 <= y < h && 0 <= x < w && (y < i || (y < i + s && x < j)) ==>
          out[y, x] == PixelateAt(g, s, y, x)
        decreases w - j
      {
        var red, green, blue, count := SumWindow(img, i, j, s, s);
        PixelateBlockColour(g, s, i, j, bi, bj);
        var mean := Pixel(red / count, green / count, blue / count);
        PaintBlock(out, i, j, s, mean);
        forall y, x | 0 <= y < h && 0 <= x < w && (y < i || (y < i + s && x < j + s))
          ensures out[y, x] == PixelateAt(g, s, y, x)
        {
          if i <= y < i + s && j <= x {
            assert out[y, x] == mean == PixelateImage(g, s)[y][x];
          }
        }
        assert j + s == (bj + 1) * s;
        j, bj := j + s, bj + 1;
      }
      assert i + s == (bi + 1) * s;
      i, bi := i + s, bi + 1;
    }
    ContentsAre(out, PixelateImage(g, s));
    return Ok(out);
  }

  /** Every pixel becomes the truncated mean of the in-bounds pixels of its 3-by-3 neighbourhood. */
  method Blur(img: array2<Pixel>) returns (out: array2<Pixel>)
    ensures fresh(out) && out.Length0 == img.Length0 && out.Length1 == img.Length1
    ensures Contents(out) == BlurImage(Contents(img))
  {
    var h, w := img.Length0, img.Length1;
    ghost var g := Contents(img);
    out := new Pixel[h, w]((_, _) => Black);
    var i := 0;
    while i < h
      invariant 0 <= i <= h
      invariant forall y, x :: 0 <= y < i && 0 <= x < w ==> out[y, x] == BlurAt(g, y, x)
    {
      var j := 0;
      while j < w
        invariant 0 <= j <= w
        invariant forall y, x :: 0 <= y < i && 0 <= x < w ==> out[y, x] == BlurAt(g, y, x)
        invariant forall x :: 0 <= x < j ==> out[i, x] == BlurAt(g, i, x)
      {
        var red, green, blue, count := SumWindow(img, i - 1, j - 1, 3, 3);
        WindowCountPositive(g, i - 1, j - 1, 3, 3, i, j);
        out[i, j] := Pixel(red / count, green / count, blue / count);
        j := j + 1;
      }
      i := i + 1;
    }
    ContentsAre(out, BlurImage(g));
  }
}
