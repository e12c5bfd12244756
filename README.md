# Image editor pixel transforms, verified in Dafny

A model of the integer pixel transforms of `imageEditor.java`: `negative`,
`mirrorHorizontal`, `mirrorVertical`, `redFilter`, `greenFilter`, `blueFilter`,
`pixelate` and `blur`. Each Java transform reads an input `BufferedImage` with nested
row (`i`) and column (`j`) loops. It writes a newly allocated output image of the same
width and height through `setRGB`.

The model keeps that shape:

- `pixels.dfy` (module `Pixels`) holds the data model.
  - A `Pixel` is an (r, g, b) triple of integers, valid when every channel is in [0, 255].
  - An image in memory is an `array2<Pixel>`. Index `[y, x]` is Java's `getRGB(x, y)`.
  - Its value is a rectangular `Grid` (a sequence of rows), read off by the ghost function `Contents`.
- `transforms.dfy` (module `Transforms`) defines each transform as a function from `Grid`
  to `Grid`. The lemmas are proved about these functions.
- `windows.dfy` (module `Windows`) defines what the inner loops of `pixelate` and `blur`
  accumulate: a `Tally` of channel sums and a count over a window clipped to the image.
  It also holds the count, bound and uniform-window lemmas.
- `image_editor.dfy` (module `ImageEditor`) holds the Java methods as Dafny methods.
  - Each method allocates the output array and fills it with `while` loops.
  - Each is proved to produce `Contents(out) == <Transform>Image(Contents(img))`.
  - No method has a `modifies` clause for the input, so Dafny's frame rule guarantees that
    the input is never written. `fresh(out)` says the output is a new buffer that never
    aliases the input.
- `overflow.dfy` (module `Overflow`) models the Java `int` arithmetic of the averaging
  sums. It shows where that arithmetic agrees with the unbounded model and where it does not.

`pixelate` with `pixelSize <= 0` never enters its inner loops, so `count` stays 0 and
`red /= count` throws `ArithmeticException`. The model returns `Err(DivisionByZero)`
for every `pixelSize <= 0`. For every image a `BufferedImage` can hold (width and height
at least 1), the Java code throws in exactly these cases.

`Negative` and the three filters share one loop, `MapEachPixel`. `Pixelate` and `Blur`
share the accumulation loop `SumWindow`. `Pixelate` paints each block with `PaintBlock`,
which is its second `k`/`l` loop pair.

## Model

| member | source | states |
|---|---|---|
| `ImageEditor.MapEachPixel` | imageEditor.java:95-113 | the output is a fresh array of the input's dimensions whose every pixel is f of the input pixel at the same index |
| `ImageEditor.Negative` | imageEditor.java:90-117 | fresh output of the same width and height; every channel c becomes 255 - c |
| `ImageEditor.RedFilter` | imageEditor.java:302-325 | fresh output of the same dimensions; each pixel keeps its red channel, green and blue are 0 |
| `ImageEditor.GreenFilter` | imageEditor.java:333-356 | fresh output of the same dimensions; each pixel keeps its green channel, red and blue are 0 |
| `ImageEditor.BlueFilter` | imageEditor.java:364-387 | fresh output of the same dimensions; each pixel keeps its blue channel, red and green are 0 |
| `ImageEditor.MirrorHorizontal` | imageEditor.java:254-270 | fresh output of the same dimensions; output (j, i) is input (W - 1 - j, i), always an in-bounds read |
| `ImageEditor.MirrorVertical` | imageEditor.java:278-294 | fresh output of the same dimensions; output (j, i) is input (j, H - 1 - i), always an in-bounds read |
| `ImageEditor.SumWindow` | imageEditor.java:405-422 | the four accumulators end as the channel sums and the count of exactly the in-bounds pixels of the window |
| `ImageEditor.PaintBlock` | imageEditor.java:432-439 | every in-bounds cell of the block gets the colour and every other cell keeps its old value |
| `ImageEditor.Pixelate` | imageEditor.java:397-445 | pixelSize <= 0 gives the division-by-zero error and nothing else does; otherwise a fresh image of the same dimensions equal to PixelateImage of the input |
| `ImageEditor.Blur` | imageEditor.java:475-518 | fresh output of the same dimensions equal to BlurImage of the input: each pixel is the truncated mean of its in-bounds 3x3 neighbourhood |
| `Transforms.NegativeInvolutive` | imageEditor.java:103-108 | applying negative twice gives back the original image exactly |
| `Transforms.NegativeValid` | imageEditor.java:103-108 | each output channel is 255 minus the input channel, so a valid image stays valid and `new Color` never throws |
| `Transforms.MirrorHorizontalInvolutive` | imageEditor.java:260-265 | mirroring left to right twice is the identity |
| `Transforms.MirrorVerticalInvolutive` | imageEditor.java:284-289 | mirroring top to bottom twice is the identity |
| `Transforms.MirrorsMovePixels` | imageEditor.java:254-294 | every mirrored pixel is the input pixel at the reflected index, so valid images stay valid |
| `Transforms.FiltersSplitChannels` | imageEditor.java:313-377 | each filter keeps its own channel unchanged and zeroes the other two; the three filtered images add up to the original |
| `Transforms.FiltersIdempotent` | imageEditor.java:302-387 | filtering a filtered image with the same filter changes nothing |
| `Transforms.BlockOf` | imageEditor.java:403-404 | a row or column v with q * size <= v < q * size + size lies in the block that starts at q * size |
| `Transforms.PixelateBlockColour` | imageEditor.java:403-439 | every in-bounds pixel of the block at (bi * size, bj * size) gets the block's sums divided by its in-bounds count, and that count is at least 1 |
| `Transforms.PixelateBlockUniform` | imageEditor.java:432-439 | two pixels in the same block get the same colour |
| `Transforms.PixelateValid` | imageEditor.java:424-430 | every block average of a valid image is a valid colour |
| `Transforms.PixelateOne` | imageEditor.java:409-422 | with pixelSize 1 every block is one pixel and pixelate is the identity |
| `Transforms.PixelateIdempotent` | imageEditor.java:397-445 | pixelating a pixelated image with the same block size changes nothing |
| `Transforms.BlurCount` | imageEditor.java:487-501 | the count is (rows of the 3x3 window in the image) times (columns in the image): between 1 and 9, with 4 at a corner, 6 on an edge and 9 inside |
| `Transforms.BlurValid` | imageEditor.java:503-509 | every blurred pixel of a valid image is a valid colour |
| `Transforms.BlurUniform` | imageEditor.java:481-512 | an image of one colour is its own blur |
| `Transforms.BlurSinglePixel` | imageEditor.java:481-512 | a 1x1 image is returned unchanged |
| `Windows.RowCount` | imageEditor.java:410-420 | one row of a window counts as many pixels as its columns overlap the image, and none if the row is outside |
| `Windows.WindowCount` | imageEditor.java:409-422 | a window's count is its rows inside the image times its columns inside the image |
| `Windows.WindowCountPositive` | imageEditor.java:424-427 | a window that covers an in-bounds pixel has count at least 1, so `red /= count` is safe |
| `Windows.TallyBounds` | imageEditor.java:415-419 | over valid pixels each channel sum lies between 0 and 255 times the count |
| `Windows.ChannelMean` | imageEditor.java:504-506 | a sum of count channel values divided by count is again in [0, 255] |
| `Windows.MeanValid` | imageEditor.java:424-430 | the mean of a window of valid pixels is a colour `new Color` accepts |
| `Windows.WindowUniform` | imageEditor.java:409-422 | a window whose in-bounds pixels all have colour v sums to count copies of v |
| `Windows.MeanUniform` | imageEditor.java:424-427 | averaging a window of one colour gives back that colour |
| `Overflow.Int32Add` | imageEditor.java:416-418 | wrapping the sum after every `+=` gives the same int as wrapping the exact sum once |
| `Overflow.JavaMeanExact` | imageEditor.java:415-427 | with at most 8,421,504 in-bounds pixels the 32-bit sums and Java's truncating division give exactly the unbounded model's mean; this covers every blur window |
| `Overflow.WhiteBlockOverflows` | imageEditor.java:415-430 | a white block of 2902 x 2902 in-bounds pixels makes the wrapped red sum negative and asks `new Color` for red = -254 |

## Left out

- `grayScale` is left out. It copies RGB into a `TYPE_BYTE_GRAY` image, and the real conversion happens inside `BufferedImage`'s colour model, which is not part of this model.
- `changeBrightness` and `sepia` are left out. They multiply channels by `double` factors and truncate, which is floating-point arithmetic.
- `rotate` and `rotateCounterclockwise` are left out. Their source coordinates come from `Math.sin`/`Math.cos` on doubles.
- `printPixelValues` and `main` are left out. They are console output, `Scanner` input, menu dispatch and `ImageIO` JPEG reading and writing.
- Packing and unpacking colours to and from ARGB ints (`java.awt.Color`, `getRGB`/`setRGB`) is left out. Pixels are (r, g, b) integer triples. `new Color` rejecting a channel outside [0, 255] is modelled as the validity lemmas (`NegativeValid`, `PixelateValid`, `BlurValid`, `MirrorsMovePixels`): those outputs are always valid for a valid input.
- Zero-width or zero-height images cannot exist, because `BufferedImage` rejects them. The model accepts them anyway and returns an empty output of the same dimensions. `Pixelate` reports the error for `pixelSize <= 0` before it looks at the image.
- `ImageEditor.SumWindow` and `ImageEditor.Pixelate` use unbounded integers for the channel sums, which is the corrected behaviour under "## Findings". The Java `int` sums are modelled separately in `Overflow`.
- `ImageEditor.SumWindow` runs blur's window loops from offset 0 to 2 over a window that starts at (i - 1, j - 1). The source runs `k` and `l` from -1 to 1 around (i, j). Both visit the same pixels in the same order.
- The output buffer's colour type (`TYPE_3BYTE_BGR`) is not modelled. Every cell starts as `Black`, which is what a new 3-byte image holds.

## Findings

| source | as written | input that shows it | evidently intended | confidence | as-written member | corrected member |
|---|---|---|---|---|---|---|
| imageEditor.java:405-430 | `red`, `green` and `blue` are 32-bit `int` sums over the whole block, so they wrap once a block has more than 8,421,504 in-bounds pixels of high intensity | a white 2902 x 2902 image pixelated with `pixelSize` 2902 (one block of 8,421,604 pixels): the red sum 2,147,509,020 wraps to -2,147,458,276, `red /= count` gives -254, and `new Color` throws `IllegalArgumentException` | the block's mean colour, here white (255, 255, 255) | medium, not executed | `Overflow.WhiteBlockOverflows` | `Windows.MeanValid` |
