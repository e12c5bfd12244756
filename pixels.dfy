/** Pixels and pixel grids: the in-memory image the transforms read and write. */
module Pixels {

  /** One colour: red, green and blue channels. No alpha. */
  datatype Pixel = Pixel(r: int, g: int, b: int)

  /** The largest value a channel of `java.awt.Color` can hold. */
  const MaxChannel := 255

  /** The colour a freshly allocated 3-byte BGR image holds in every cell. */
  const Black := Pixel(0, 0, 0)

  predicate IsChannel(c: int) {
    0 <= c <= MaxChannel
  }

  /** A colour that `new Color(r, g, b)` accepts and `getRGB` can return. */
  predicate ValidPixel(p: Pixel) {
    IsChannel(p.r) && IsChannel(p.g) && IsChannel(p.b)
  }

  predicate Rectangular(rows: seq<seq<Pixel>>) {
    forall y :: 0 <= y < |rows| ==> |rows[y]| == |rows[0]|
  }

  /** An image as a value: `g[y][x]` is the pixel in row y, column x. */
  type Grid = rows: seq<seq<Pixel>> | Rectangular(rows) witness []

  function Height(g: Grid): nat {
    |g|
  }

  function Width(g: Grid): nat {
    if |g| == 0 then 0 else |g[0]|
  }

  predicate InBounds(g: Grid, y: int, x: int) {
    0 <= y < Height(g) && 0 <= x < Width(g)
  }

  /** Every pixel of the grid is a valid colour. */
  predicate ValidGrid(g: Grid) {
    forall y, x :: 0 <= y < |g| && 0 <= x < |g[y]| ==> ValidPixel(g[y][x])
  }

  /** The image an array holds, rows first (array index [y, x] is Java's getRGB(x, y)). */
  ghost function Contents(a: array2<Pixel>): (g: Grid)
    reads a
    ensures Height(g) == a.Length0 && (a.Length0 > 0 ==> Width(g) == a.Length1)
    ensures forall y, x :: 0 <= y < a.Length0 && 0 <= x < a.Length1 ==> g[y][x] == a[y, x]
  {
    seq(a.Length0, y requires 0 <= y < a.Length0 reads a =>
      seq(a.Length1, x requires 0 <= x < a.Length1 reads a => a[y, x]))
  }

  /** An array holds a grid when it has its dimensions and agrees with it cell by cell. */
  lemma ContentsAre(a: array2<Pixel>, g: Grid)
    requires Height(g) == a.Length0 && (a.Length0 > 0 ==> Width(g) == a.Length1)
    requires forall y, x :: 0 <= y < a.Length0 && 0 <= x < a.Length1 ==> a[y, x] == g[y][x]
    ensures Contents(a) == g
  {
    var c := Contents(a);
    forall y | 0 <= y < a.Length0
      ensures c[y] == g[y]
    {
      assert |c[y]| == |g[y]|;
    }
  }

  /** Two grids with the same rows, cell for cell, are equal. */
  lemma SameGrid(a: Grid, b: Grid)
    requires Height(a) == Height(b) && Width(a) == Width(b)
    requires forall y, x :: InBounds(a, y, x) ==> a[y][x] == b[y][x]
    ensures a == b
  {
    forall y | 0 <= y < |a|
      ensures a[y] == b[y]
    {
      assert |a[y]| == |b[y]|;
      forall x | 0 <= x < |a[y]|
        ensures a[y][x] == b[y][x]
      {
        assert InBounds(a, y, x);
      }
    }
  }

  /** The colour operations behind negative and the three channel filters. */
  function Negate(p: Pixel): Pixel {
    Pixel(MaxChannel - p.r, MaxChannel - p.g, MaxChannel - p.b)
  }

  function KeepRed(p: Pixel): Pixel {
    Pixel(p.r, 0, 0)
  }

  function KeepGreen(p: Pixel): Pixel {
    Pixel(0, p.g, 0)
  }

  function KeepBlue(p: Pixel): Pixel {
    Pixel(0, 0, p.b)
  }
}
