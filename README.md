# Drawing++ compositing core in Dafny

Drawing++ is a small C++ library that paints a list of drawables onto an RGBA
canvas backed by a PNG byte buffer. This project models its per-pixel
compositing engine and proves properties of that model:

- **Canvas buffer.** `Canvases.Canvas` is a class. Its `buffer` is a `height x width*4` `array2` of bytes. Its `drawables` are the ordered drawable list (`m_drawables`).
  - `InitBuffer` fills the buffer with the background colour, four bytes at a time.
  - `Draw` runs `DrawPixel` once per pixel, in row-major order.
  - `Compare` accumulates the three sums of the similarity score.
- **Per-pixel fold.** `drawPixel` loops over the drawables.
  - `Compositing.Over` is one iteration of that loop: `max` for alpha, `mix` for the colour channels, each weighted by the 0/1 shape factor.
  - `Compositing.Composite` is the whole fold, as a specification.
  - `Compositing.FoldDrawables` is the loop itself, proved equal to `Composite`.
- **Byte codec.** `ByteCodec` holds the write-back `round(v*255)` and the read `b/255` (C's `round`, halves away from zero), with their round trips.
- **Records.** `Types.Color` and `Types.Point` are the records of `Drawing++.hpp`; `Drawables.Drawable` is the drawable record.
  - The constructors of these records store their arguments unchanged, by construction of Dafny datatypes.
  - A drawable's colour comes either from a fixed colour (a figure) or from an `ImageFiles.ImageFile` read with `getPixel`.
- **Shapes.** `Shapes.SquareFilled` is the rectangle callback of both examples.
- **Three-square example.** `ThreeSquares` models the red, green and blue squares, with the composited colour of every region, and `DrawThreeSquares`, a model of the example's `main` drawing the three squares on a 640 x 480 canvas.

Numbers:
- C++ `double` is modelled as Dafny `real`, which is exact.
- Bytes are the subset type `Byte` (0..255).
- The channel count is fixed at 4 (8-bit RGBA), the format the examples use.

The model uses the normalised reading of `drawPixel`: the accumulators start from the pixel's bytes divided by 255 and are written back as `round(v*255)`. The same holds for `initBuffer`: the background colour's channels are in [0,1] and are stored as `round(v*255)`. The code as written does neither; see "## Findings".

## Model

| member | source | states |
|---|---|---|
| Compositing.Mix | Drawing++.cpp:148-150 | `mix(x,y,a)` is x when a = 0 and y when a = 1 |
| Compositing.MixBetween | Drawing++.cpp:148-150 | for a in [0,1], `mix(x,y,a)` lies between x and y, whichever order they are in |
| Compositing.MixAsStep | Drawing++.cpp:148-150 | `mix(x,y,a)` equals x + a·(y - x): a step from x towards y by the fraction a of the distance |
| Compositing.Max | Drawing++.cpp:152-155 | `max` is at least each argument and equals one of them |
| Compositing.Over | Drawing++.cpp:181-184 | definition: one loop step, alpha becomes max(a, colour alpha x shape) and each colour channel is `mix`ed towards colour x shape by colour alpha x shape |
| Compositing.Composite | Drawing++.cpp:168-184 | definition: `Over` applied for each drawable in list order, starting from the given accumulators |
| Compositing.FoldDrawables | Drawing++.cpp:168-184 | the loop over the drawables, applied in list order, ends with exactly `Composite` of the starting accumulators |
| Compositing.CompositeSnoc | Drawing++.cpp:168-184 | folding a list that ends in d is folding the prefix, then one step for d |
| Compositing.OverUncovered | Drawing++.cpp:169-184 | a drawable whose shape is 0 leaves r, g, b, a unchanged (for a non-negative alpha accumulator) |
| Compositing.OverTransparent | Drawing++.cpp:181-184 | a fully transparent colour (alpha 0, such as an image pixel with alpha 0 read by `getPixel`) leaves r, g, b, a unchanged whatever its shape factor (for a non-negative alpha accumulator) |
| Compositing.OverOpaque | Drawing++.cpp:181-184 | a covering drawable with alpha 1 sets r, g, b exactly to its colour and alpha to 1 |
| Compositing.OverOpaqueRgb | Drawing++.cpp:181-184 | a covering drawable with alpha 1 sets r, g, b to its colour whatever the accumulators held |
| Compositing.OverKeepsSameRgb | Drawing++.cpp:182-184 | each colour channel's step reads only that channel of the accumulators, so equal r, g, b stay equal |
| Compositing.OverInUnit | Drawing++.cpp:181-184 | one step keeps accumulators in [0,1] when the colour is in [0,1] and the shape is 0 or 1 |
| Compositing.CompositeInUnit | Drawing++.cpp:168-184 | the whole fold keeps the accumulators in [0,1] |
| Compositing.OverAlpha | Drawing++.cpp:181 | one step sets alpha to the max of the old alpha and the drawable's colour alpha times its shape |
| Compositing.AlphaNonDecreasing | Drawing++.cpp:168-184 | alpha after a longer prefix of the drawables is at least alpha after a shorter one |
| Compositing.AlphaIsUpperBound | Drawing++.cpp:168-184 | the final alpha is at least the starting alpha and at least every drawable's covered alpha |
| Compositing.AlphaIsAttained | Drawing++.cpp:168-184 | the final alpha equals the starting alpha or some drawable's covered alpha, so it is their maximum |
| Compositing.Covering | Drawing++.cpp:169-170 | every drawable it keeps covers the pixel, and every drawable of the list that covers the pixel is kept |
| Compositing.CoveringIsSubsequence | Drawing++.cpp:168-170 | `Covering` is a subsequence of the list: it takes the drawables at strictly increasing positions, and those positions are exactly the ones whose drawable covers the pixel |
| Compositing.UncoveredDrawablesVanish | Drawing++.cpp:168-184 | dropping the drawables whose shape is 0 does not change the result |
| Compositing.NothingCoveringKeepsAccumulators | Drawing++.cpp:168-184 | when no drawable covers the pixel, the accumulators are unchanged |
| Compositing.InvisibleDrawablesKeepAccumulators | Drawing++.cpp:168-184 | when every drawable contributes alpha 0 at the pixel (shape 0 or colour alpha 0), the accumulators are unchanged |
| Compositing.OpaqueHidesEarlier | Drawing++.cpp:168-184 | after an opaque covering drawable, r, g, b do not depend on the starting accumulators or on earlier drawables |
| Compositing.LastOpaqueWins | Drawing++.cpp:168-184 | the last opaque drawable covering the pixel, with none covering it after, determines r, g, b, and alpha is 1 |
| Compositing.RenderPixel | Drawing++.cpp:158-205 | definition: `drawPixel` on one pixel, reading its bytes as channels over 255, folding the drawables and writing `round(v*255)` back |
| Compositing.UncoveredPixelUnchanged | Drawing++.cpp:158-205 | `drawPixel` on a pixel no drawable covers writes back the same four bytes |
| Compositing.RawWriteBack | Drawing++.cpp:161-198 | definition: as written, the four values handed to the byte casts, `round(v*255)` of the fold started from the raw bytes |
| Compositing.RawReadScalesUncoveredPixel | Drawing++.cpp:161-164 | as written, an uncovered pixel is written back as 255 times its bytes (65025 for white), while the normalised model keeps it |
| ByteCodec.Round | Drawing++.cpp:195-198 | C `round`: within one half of v, with halves going away from zero |
| ByteCodec.RoundInteger | Drawing++.cpp:195-198 | `round` of a whole number is that number |
| ByteCodec.ChannelToByte | Drawing++.cpp:195-198 | the written byte is within half a step of v*255, and at a tie it is the upper byte, as `round` gives for v >= 0 |
| ByteCodec.ByteToChannel | Drawing++.cpp:77-80 | a byte read as a channel is in [0,1] and is the byte divided by 255 |
| ByteCodec.ByteRoundTrip | Drawing++.cpp:77-80 | reading a byte and writing it back gives the same byte |
| ByteCodec.ChannelRoundTrip | Drawing++.cpp:195-198 | writing a channel and reading it back moves it up by at most 1/510 and down by strictly less than 1/510 |
| ByteCodec.DecodePixel | Drawing++.cpp:77-80 | the four channels of a pixel are in [0,1] and are its bytes divided by 255 |
| ByteCodec.EncodePixel | Drawing++.cpp:195-198 | each written byte decodes to within 1/510 of its channel, rounding a tie up (0.5 gives 128, not 127) |
| ByteCodec.PixelRoundTrip | Drawing++.cpp:161-164 | decoding a pixel's bytes and encoding them again gives the same bytes |
| ByteCodec.StoreChannelAsWritten | Drawing++.cpp:139-142 | as written, a double channel stored into a byte keeps only its integer part |
| ByteCodec.StoreAsWrittenCollapses | Drawing++.cpp:139-142 | as written, every channel in [0,1) is stored as 0 and 1.0 as 1, whereas the scaled store keeps 0.5 as 128 |
| ImageFiles.ImageFile.GetPixel | Drawing++.cpp:71-83 | for a loaded row, r, g, b, a are bytes x, x+1, x+2, x+3 divided by 255; so every channel is in [0,1] and encodes back to exactly those bytes |
| Drawables.Drawable.Coverage | Drawing++.cpp:169-170 | a drawable without a shape callback has shape 1 |
| Drawables.Drawable.GetPixel | Drawing++.cpp:173 | a figure's colour is its fixed colour at every position; an image's colour is the image file's `getPixel` at that position, in [0,1] |
| Shapes.SquareFilled | Example/Example.cpp:6-10 | requires at least two points; returns 0 or 1 |
| Shapes.SquareFilledPixel | Examples/ThreeSquares/ThreeSquares.cpp:6-11 | the unsigned-coordinate callback agrees with the double one at every pixel |
| Shapes.SquareIsBox | Example/Example.cpp:8-9 | the shape is 1 exactly inside the inclusive box from points[0] to points[1], and reads only the first two points |
| Shapes.OrderedCornersGiveRectangle | Example/Example.cpp:8-9 | with ordered corners, the shape is exactly the normalised rectangle |
| Shapes.SwappedCornersGiveEmptyShape | Examples/ThreeSquares/ThreeSquares.cpp:9-10 | with swapped corners the shape is 0 everywhere, although the normalised rectangle would contain both corners |
| Shapes.SquareTranslates | Examples/ThreeSquares/ThreeSquares.cpp:17-39 | the square with translated corners covers the translated pixel exactly when the original covers the pixel |
| Similarity.PixelSums | Drawing++.cpp:243-250 | definition: what one pixel pair adds, (sumA - sumB)^2, sumA^2 and sumB^2 of the two channel sums |
| Similarity.CompareSums | Drawing++.cpp:238-252 | definition: those terms added over every pixel pair, rows top to bottom and each row left to right |
| Similarity.ChannelSum | Drawing++.cpp:243-244 | the four-byte sum is in 0..1020 and is 0 only for the all-zero pixel |
| Similarity.PixelSumsFacts | Drawing++.cpp:246-250 | each pixel pair adds non-negative terms. The diff term is 0 exactly when the channel sums agree. Swapping the pair swaps the A and B terms |
| Similarity.RowSumsSymmetric | Drawing++.cpp:239-251 | a row's sums with the canvases swapped are the same sums with A and B exchanged |
| Similarity.RowSumsNonNegative | Drawing++.cpp:239-251 | a row's three sums are non-negative |
| Similarity.RowDiffZeroIff | Drawing++.cpp:239-251 | a row's squared-difference sum is 0 exactly when every pixel pair has equal channel sums |
| Similarity.RowSquareZeroIff | Drawing++.cpp:239-251 | a row's sum of squares is 0 exactly when all its pixels are zero |
| Similarity.GridSumsSymmetric | Drawing++.cpp:238-252 | swapping the canvases exchanges the A and B sums and keeps the difference sum |
| Similarity.GridSumsNonNegative | Drawing++.cpp:238-252 | the three sums are non-negative |
| Similarity.GridDiffZeroIff | Drawing++.cpp:238-252 | the difference sum is 0 exactly when every pixel pair has equal channel sums |
| Similarity.GridSquareZeroIff | Drawing++.cpp:238-252 | a canvas's sum of squares is 0 exactly when it is all zero |
| Similarity.SquaredScore | Drawing++.cpp:254 | the square of the score is non-negative, and it is 0 exactly when the difference sum is 0 |
| Similarity.CompareSymmetric | Drawing++.cpp:224-255 | `compare` is symmetric in its two canvases |
| Similarity.CompareZeroIff | Drawing++.cpp:224-255 | for equally sized canvases that are not all zero, the score is defined, and it is 0 exactly when every pixel pair has equal channel sums |
| Similarity.CompareIdenticalIsZero | Drawing++.cpp:224-255 | a canvas compared with an identical, not all-zero canvas scores 0 |
| Similarity.CompareIgnoresChannelOrder | Drawing++.cpp:243-247 | an opaque red and an opaque green pixel score 0 against each other, because only channel sums are compared |
| Canvases.PixelAt | Drawing++.cpp:218 | the pixel of column x in row y is bytes x*4 .. x*4+3 of that row |
| Canvases.Grid | Drawing++.cpp:218 | definition: the buffer read as a height x width grid of pixels, each one `PixelAt` its row and column |
| Canvases.StorePixel | Drawing++.cpp:195-198 | writes the four bytes of one pixel and no other byte |
| Canvases.DrawPixel | Drawing++.cpp:158-205 | the pixel's new bytes are `RenderPixel` of its old bytes; every byte outside [x*4, x*4+4) of row y is unchanged |
| Canvases.Canvas.constructor | Drawing++.cpp:87-92 | a fresh width x height canvas, no drawables, every pixel holding the background colour's bytes |
| Canvases.Canvas.InitBuffer | Drawing++.cpp:129-145 | allocates a height x rowbytes buffer and writes the background's four bytes at every offset 0, 4, 8, ... of every row; the drawables are untouched |
| Canvases.Canvas.AddDrawable | Drawing++.hpp:63 | appends the drawable at the end of the ordered list and leaves the buffer alone |
| Canvases.Canvas.Draw | Drawing++.cpp:207-222 | every pixel ends as `RenderPixel` of its own previous bytes, so each pixel is drawn exactly once |
| Canvases.Canvas.Image | Drawing++.cpp:218 | definition: the canvas's pixels as the `Grid` of its buffer |
| Canvases.Canvas.DrawRow | Drawing++.cpp:217-220 | the inner loop over one row: every pixel of row y ends as `RenderPixel` of its previous bytes and every other row is unchanged |
| Canvases.Canvas.Compare | Drawing++.cpp:224-252 | the three accumulated sums are exactly `CompareSums` of the two canvases' pixel grids |
| Canvases.BufferRowSumsAreRowSums | Drawing++.cpp:239-251 | the sums the inner loop of `compare` accumulates over the first x pixels of row y, read from the two buffers, equal the row sums of the two pixel grids |
| Canvases.BufferSumsAreGridSums | Drawing++.cpp:238-252 | the sums accumulated over the first k rows of the two buffers equal the grid sums of their pixel grids |
| ThreeSquares.SquaresAreShifted | Examples/ThreeSquares/ThreeSquares.cpp:17-39 | green covers (x+20, y+20) exactly when red covers (x, y), and blue likewise relative to green |
| ThreeSquares.SceneRenderable | Example/Example.cpp:16-38 | all three squares can be composited at every pixel |
| ThreeSquares.SceneSteps | Example/Example.cpp:16-38 | the composite at any pixel is red, then green, then blue, one step each |
| ThreeSquares.CoverageIsBox | Example/Example.cpp:16-38 | each square's coverage is its inclusive box test |
| ThreeSquares.RedAlone | Example/Example.cpp:16-38 | a pixel inside red only ends as opaque red (1, 0, 0, 1), whatever the background |
| ThreeSquares.RedUnderGreen | Example/Example.cpp:16-38 | a pixel inside red and green but outside blue ends as (0.5, 0.5, 0, 1), whatever the background |
| ThreeSquares.GreenAlone | Example/Example.cpp:24-30 | a pixel covered only by green moves half way to green, with alpha at least one half |
| ThreeSquares.BlueOnTop | Example/Example.cpp:32-38 | a pixel inside blue ends as opaque blue, whatever lies below |
| ThreeSquares.OutsideKeepsBackground | Example/Example.cpp:16-38 | a pixel outside all three squares keeps the background |
| ThreeSquares.DrawThreeSquares | Examples/ThreeSquares/ThreeSquares.cpp:14-41 | after drawing on a 640 x 480 canvas, the overlap pixel (400, 310) holds bytes (128, 128, 0, 255), pixel (420, 330) holds (0, 0, 255, 255) and pixel (0, 0) keeps the background |

## Left out

- PNG decoding and encoding, file I/O and memory management are not modelled: `loadPNGFile`, `initImage`, `bufferToFile`, the destructor, `malloc`/`free` and `setjmp`. An `ImageFile` is its decoded rows; the canvas buffer is an `array2` allocated by `InitBuffer`.
- Canvases.Canvas.constructor: takes the background colour as a parameter. The library's default background is not in Drawing++.hpp, which declares `initBuffer()` without a parameter.
- Canvases.Canvas.AddDrawable: its body is not in Drawing++.cpp; it is modelled as appending to `m_drawables`, the ordered list the fold iterates.
- Similarity.SquaredScore: `compare` returns sumSquareDiff / sqrt(sumSquareA * sumSquareB). The model states the square of that score exactly and leaves out `sqrt` and floating-point division. `ScoreDefined` requires both sums of squares to be positive. It excludes two all-zero canvases, where the source computes 0/0, and a single all-zero canvas, where the source divides a positive difference sum by 0 and returns infinity.
- Canvases.Canvas.Compare: the sums are exact integers, whereas the source accumulates them in `double`. The two agree while every sum stays below 2^53, which holds up to about 8.6 billion pixels.
- Floating-point rounding in `mix`, `max` and `* 255` is not modelled: the accumulators are exact reals.
- Canvases.DrawPixel: uses the normalised accumulators, not the raw-byte reads as written (see "## Findings").
- Canvases.Canvas.InitBuffer: stores `round(v*255)` of each background channel, not the truncating store as written (see "## Findings").
- Only 8-bit RGBA (4 channels) is modelled. The row byte count is width * 4.
- Shape callbacks receive the drawable's points and the coordinates, not the whole drawable. The callbacks in the examples read nothing else.
- `mustache_shape` and `step` in the LoadPNG example are not modelled: they are trigonometric, floating-point procedural shapes.
- The `main` functions of the examples and the Compare example are not modelled: they are setup and console output. The three-square scene is modelled as `ThreeSquares.DrawThreeSquares`, without `bufferToFile`.
- The header names the `Color` fields `red/green/blue/alpha`, while the implementation uses `r/g/b/a`; the model uses `r/g/b/a`.
- `ImageFile`, `Figure` and `UniqueDrawable` are used but not declared in Drawing++.hpp. A figure is modelled as a drawable with a fixed colour (`Source.Solid`). An image file is modelled as a drawable whose colour is read from its rows (`Source.Image`). `Figure::getPixel` is modelled as returning its colour, as the examples use it.
- Renderability: the model requires every drawable's colour to lie in [0,1] and its shape to return 0 or 1. The source does not check either. It also requires the shape callback's own precondition to hold (at least two points for the rectangle, the `assert` at Example/Example.cpp:7), and, for an image drawable, that bytes 4x..4x+3 of row y exist in the image. `Draw` therefore needs every image drawable to cover the whole canvas, whereas the source reads `row[x]..row[x+3]` without a bounds check (Drawing++.cpp:75-80). All of these hold for the drawables of the Example and ThreeSquares scenes. The LoadPNG example's `mustache_shape` can return -1 (where its first step is 0 and its second is 1), which the model does not cover.
- Rectangles are not normalised: the shape follows the code (swapped corners cover nothing), not a normalised rectangle; see `Shapes.SwappedCornersGiveEmptyShape`.

## Findings

| source | as written | input that shows it | evidently intended | confidence | as-written member | corrected member |
|---|---|---|---|---|---|---|
| Drawing++.cpp:161-164 | `drawPixel` starts its accumulators from the raw bytes 0..255 but writes back `round(v*255)` | an opaque white pixel (255,255,255,255) that no drawable covers is written back as 65025 per channel before the byte cast | read `pixel[i] / 255.0`, so that an uncovered pixel keeps its bytes | high, not executed | Compositing.RawReadScalesUncoveredPixel | Compositing.UncoveredPixelUnchanged |
| Drawing++.cpp:139-142 | `initBuffer` stores each double channel of the background colour straight into a byte, truncating it | a background channel of 0.5 is stored as byte 0 | store `round(v*255)`, so 0.5 becomes 128 | high, not executed | ByteCodec.StoreAsWrittenCollapses | ByteCodec.ChannelToByte |

For channels that are exactly 0 or 1 the two defects partly cancel. A 1.0 background channel is stored as byte 1, which the raw read takes as 1.0, and the write-back then turns it into 255. Backgrounds made only of 0 and 1 channels therefore come out as intended after one `draw`.
