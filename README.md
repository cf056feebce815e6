# Runigram in Dafny

A model of `Runigram.java`, a small teaching library of image transforms. An image is a
rectangular grid of RGB colours. The library reads a plain PPM image, flips it horizontally or
vertically, turns it grey, rescales it by nearest-neighbour sampling, blends two colours or two
images, and morphs one image into another over a number of frames.

Layout, one module per component:

- `pixels.dfy` — module `Pixels`: the colour value, luminance, and the blend of two colours.
  A channel is an `int` in [0, 255], which is what `java.awt.Color` accepts. The blend weight
  `alpha` is exact: either a rational `num / den` with `0 <= num <= den` or `NotANumber`.
- `images.dfy` — module `Images`: the grid as a value (`seq<seq<Color>>`), the error kinds, the
  `Result` type, and `Cells`, which gives the value held by a 2-D array.
- `transforms.dfy` — module `Transforms`: each transform twice. First as a function on grids, with
  lemmas about it. Then as the method that allocates a fresh `array2` and fills it with the same
  nested loops as the Java code, in the same loop order. Each method is proved to produce the
  value of its function.
- `decoder.dfy` — module `Decoder`: `Decode` over a token sequence, its lemmas, and the method
  `Read`, which fills the array row-major as it reads the tokens. The inner loop of `read` is its
  own method, `ReadRow`.
- `morph.dfy` — module `Morph`: `MorphFrames`, the sequence of frames, and the method `Morph`,
  which runs the frame loop and returns the frames in display order.

Choices the model makes:

- Input comes as tokens, not a file. A token is `Word(text)` or `Number(value)`. An integer literal in
  the file is always a `Number`; a `Word` never spells one. `in.readString()` accepts any token. `in.readInt()` needs an integer literal within Java's `int` range. When the
  input runs out, the error is `Truncated`. When a token is not an integer, it is `NotAnInteger`.
  A negative dimension gives `NegativeSize`, because `new Color[rows][cols]` throws there. A
  channel outside [0, 255] gives `ChannelOutOfRange`, because the `Color` constructor throws.
  These errors happen in reading order, so the first problem met is the one reported.
- Arithmetic done in `double` in the source is exact here. Luminance is
  `(299 r + 587 g + 114 b) / 1000`, rounded down. A blended channel is
  `(num * v1 + (den - num) * v2) / den`, rounded down. Java's `(int)` cast truncates toward zero.
  Every value here is non-negative, so that is the same as `floor`. The scaled source row is
  `min(r * h0 / height, h0 - 1)`.
- The grid blend on images of different sizes returns the error `DimensionMismatch`. The source
  instead prints "Invalid Dimensions" and returns an array it never filled.
- Edge cases where the model follows the Java code:
  - `scaled` with a target height or width of 0 does not crash. `h0 / 0.0` is infinity in
    `double`, and the loops that would use it do not run. The result is an empty grid.
  - `morph` with `n = 0` gives one frame. Its weight is `1.0 - 0.0 / 0`, which is NaN. Java's
    `(int)` cast of NaN is 0, so that frame is all black (`MorphZeroSteps`).
  - `morph` with a negative `n` gives no frames.

## Model

| member | source | states |
|---|---|---|
| Pixels.Luminance | Runigram.java:104-110 | all three channels are equal; the level is the floor of 0.299 r + 0.587 g + 0.114 b (1000·level ≤ 299 r + 587 g + 114 b < 1000·(level + 1)); the level lies between the smallest and largest input channel, so it stays in [0, 255] |
| Pixels.LuminanceOfGrey | Runigram.java:104-109 | a grey pixel (v, v, v) is its own luminance, in exact arithmetic (see "## Left out") |
| Pixels.LuminanceIdempotent | Runigram.java:104-110 | the luminance of a luminance is the same pixel, in exact arithmetic (see "## Left out") |
| Pixels.Mix | Runigram.java:169-171 | one blended channel is the floor of alpha·v1 + (1 − alpha)·v2 with alpha = num/den, and lies between min(v1, v2) and max(v1, v2) |
| Pixels.Blend | Runigram.java:168-174 | for a numeric alpha in [0, 1] each channel is the floor of alpha·v1 + (1 − alpha)·v2 and lies between the two input channels, so the result is a valid Color; a NaN alpha gives (0, 0, 0) |
| Pixels.BlendFull | Runigram.java:168-174 | alpha = 1 returns the first colour exactly |
| Pixels.BlendNone | Runigram.java:168-174 | alpha = 0 returns the second colour exactly |
| Pixels.BlendSame | Runigram.java:168-174 | a colour blended with itself is unchanged, for every alpha in [0, 1], in exact arithmetic (see "## Left out") |
| Pixels.BlendHalfExample | Runigram.java:168-174 | blend((100,100,100), (0,0,0), 1/2) = (50,50,50) |
| Transforms.HorizontalFlip | Runigram.java:76-85 | the flipped grid is rectangular, with the input's rows and columns |
| Transforms.HorizontalFlipAt | Runigram.java:80 | out[r][c] = in[r][cols − 1 − c] |
| Transforms.HorizontalFlipInvolution | Runigram.java:76-85 | flipping horizontally twice returns the original grid |
| Transforms.VerticalFlip | Runigram.java:90-99 | the flipped grid is rectangular, with the input's rows and columns |
| Transforms.VerticalFlipAt | Runigram.java:94 | out[r][c] = in[rows − 1 − r][c] |
| Transforms.VerticalFlipInvolution | Runigram.java:90-99 | flipping vertically twice returns the original grid |
| Transforms.FlipsCommute | Runigram.java:76-99 | a horizontal then vertical flip equals a vertical then horizontal flip |
| Transforms.GrayScale | Runigram.java:115-124 | the grey grid is rectangular, with the input's rows and columns |
| Transforms.GrayScaleAt | Runigram.java:119 | cell (r, c) is the luminance of input cell (r, c), and is grey |
| Transforms.GrayScaleIdempotent | Runigram.java:115-124 | grey-scaling a grey-scaled grid changes nothing, in exact arithmetic (see "## Left out") |
| Transforms.SourceIndex | Runigram.java:147-153 | the sampled source index is always below the source dimension: no read out of bounds |
| Transforms.SourceIndexUnclamped | Runigram.java:150-153 | in exact arithmetic the clamp never fires: the index equals floor(i·n0/n), and k·n ≤ i·n0 < (k + 1)·n (see "## Left out") |
| Transforms.SourceIndexSameSize | Runigram.java:140-148 | with the same source and target size, every index maps to itself |
| Transforms.Resample | Runigram.java:132-160 | the result has exactly height rows of width columns |
| Transforms.ResampleAt | Runigram.java:155 | out[r][c] = in[SourceIndex(r)][SourceIndex(c)], in exact arithmetic (see "## Left out") |
| Transforms.ResampleSamples | Runigram.java:143-156 | every output cell equals some input cell: sampling, not averaging |
| Transforms.ResampleIdentity | Runigram.java:132-160 | scaling a grid to its own size returns it unchanged |
| Transforms.ResampleSinglePixel | Runigram.java:132-160 | a 1 × 1 grid scaled to any size has its one pixel in every cell |
| Transforms.BlendCells | Runigram.java:183-190 | the blended grid has the first grid's rows and columns |
| Transforms.BlendCellsAt | Runigram.java:188 | cell (r, c) is the pixel blend of the two grids' cells (r, c) |
| Transforms.BlendCellsFull | Runigram.java:182-199 | alpha = 1 gives the first grid |
| Transforms.BlendCellsNone | Runigram.java:182-199 | alpha = 0 gives the second grid |
| Transforms.BlendGrids | Runigram.java:182-199 | succeeds exactly when both grids have the same rows and columns; otherwise the error is DimensionMismatch |
| Transforms.BlendGridsCells | Runigram.java:185-190 | on success the grid has the first grid's size and each cell is the pixel blend of the matching cells |
| Transforms.FlippedHorizontally | Runigram.java:76-85 | returns a fresh array whose value is HorizontalFlip of the input's value |
| Transforms.FlippedVertically | Runigram.java:90-99 | returns a fresh array whose value is VerticalFlip of the input's value |
| Transforms.GrayScaled | Runigram.java:115-124 | returns a fresh array whose value is GrayScale of the input's value |
| Transforms.Scaled | Runigram.java:132-160 | returns a fresh height × width array whose value is Resample of the input's value |
| Transforms.BlendImages | Runigram.java:182-199 | returns the error BlendGrids gives, or a fresh array whose value is the BlendGrids grid |
| Decoder.ReadInt | Runigram.java:34-36 | `in.readInt()` on token i: succeeds exactly when the token exists and is a Java int, and then returns its value; otherwise `Truncated` exactly when the input has run out, else `NotAnInteger` |
| Decoder.ParseHeader | Runigram.java:33-38 | the header is read exactly when tokens 1, 2 and 3 are Java ints and both sizes are non-negative, with columns from token 1 and rows from token 2; `NegativeSize` is reported exactly when all three ints were read and a size is negative |
| Decoder.ReadPixel | Runigram.java:41 | a read pixel is the colour of the three tokens at 4 + 3k, in red, green, blue order; `ChannelOutOfRange` is reported exactly when those three are Java ints but one is outside [0, 255] |
| Decoder.ReadPixelOk | Runigram.java:41 | pixel k can be read exactly when tokens 4 + 3k .. 6 + 3k exist, are Java ints and are in [0, 255]; it is then the colour made of those three tokens |
| Decoder.ReadPixels | Runigram.java:39-44 | a successful read of n pixels yields exactly n pixels |
| Decoder.ReadPixelsOk | Runigram.java:39-44 | n pixels can be read exactly when each of them can; pixel k of the result is pixel k of the input |
| Decoder.ReadPixelsStop | Runigram.java:39-44 | after the first pixel that fails, reading more pixels fails with that pixel's error |
| Decoder.PixelTokensOfReadable | Runigram.java:39-44 | when n pixels can be read, every token from 4 up to 4 + 3n is a Java int in [0, 255] |
| Decoder.ReadableOfPixelTokens | Runigram.java:39-44 | when 4 + 3n tokens exist and every pixel token is a Java int in [0, 255], all n pixels can be read |
| Decoder.Reshape | Runigram.java:38-44 | cutting rows·cols pixels into rows gives a grid of exactly rows × cols |
| Decoder.ReshapeAt | Runigram.java:39-41 | cell (r, c) of the reshaped grid is pixel r·cols + c |
| Decoder.Decode | Runigram.java:30-47 | a header error is the result's error; a decoded image is rows × cols with rows = token 2 and cols = token 1 |
| Decoder.DecodeSucceedsIff | Runigram.java:30-47 | decoding succeeds exactly when there is a four-token header whose sizes are non-negative Java ints and whose maximum value (token 3, otherwise ignored) is a Java int, followed by at least 3·rows·cols tokens that are all Java ints in [0, 255] |
| Decoder.DecodeCells | Runigram.java:34-44 | a decoded image is rows × cols (rows = token 2, cols = token 1), and cell (r, c) is the triple at token 4 + 3·(r·cols + c) |
| Decoder.DecodeTruncated | Runigram.java:39-41 | with a valid header but fewer than 3·rows·cols pixel tokens, decoding fails |
| Decoder.DecodeShortInput | Runigram.java:39-41 | with a valid header, an input that ends before 3·rows·cols pixel tokens, all present ones in-range Java ints, fails with `Truncated` (the reader runs out of input) |
| Decoder.DecodeStopsAt | Runigram.java:39-41 | when pixel k < rows · cols is the first that cannot be read, decoding ends with that pixel's own error |
| Decoder.ReadRow | Runigram.java:40-43 | the inner loop fills row r and no other row; it returns the row of cols pixels read next, in order, or the error that ends decoding |
| Decoder.Read | Runigram.java:30-47 | returns the error Decode gives, or a fresh array whose value is the decoded grid |
| Decoder.ExamplePixels | Runigram.java:39-44 | the example's sixteen tokens yield the pixels red, green, blue, white in reading order |
| Decoder.DecodeExample | Runigram.java:30-47 | the 2 × 2 example decodes to red, green / blue, white |
| Decoder.DecodeFlipExample | Runigram.java:76-85 | the example decodes to its literal grid, and flipping that grid horizontally gives green, red / white, blue |
| Morph.MorphAlpha | Runigram.java:211 | frame s of n > 0 steps has weight (n − s)/n, that is 1 − s/n, and the weight is valid |
| Morph.FrameCount | Runigram.java:210 | the loop `s = 0 .. n` runs not at all exactly when n is negative, and otherwise its last frame index is n |
| Morph.MorphFrames | Runigram.java:207-216 | there are n + 1 frames (none for negative n), each with the source's rows and columns |
| Morph.MorphFrameIs | Runigram.java:208-211 | frame s is the blend of the source with the scaled target at MorphAlpha(s, n) |
| Morph.MorphFrameAt | Runigram.java:211 | cell (r, c) of frame s is blend(source[r][c], scaledTarget[r][c], (n − s)/n) |
| Morph.MorphFirstFrame | Runigram.java:207-216 | for n ≥ 1, frame 0 is the source |
| Morph.MorphLastFrame | Runigram.java:207-216 | for n ≥ 1, frame n is the target scaled to the source's size |
| Morph.MorphEndsOnTarget | Runigram.java:207-216 | morphing into a target of the same size ends exactly on the target |
| Morph.MorphZeroSteps | Runigram.java:210-211 | with n = 0 there is one frame, and every cell is black (NaN weight) |
| Morph.Morph | Runigram.java:207-216 | returns n + 1 fresh frames in display order; frame s holds MorphFrames(source, target, n)[s] |

## Left out

- `main` (Runigram.java:6-26): it only wires file names to calls.
- `print(Color)` and `print(Color[][])`: console formatting only.
- `setCanvas`, `display` and the `StdDraw.pause(500)` in `morph`: drawing and timing. `Morph.Morph` returns the frames instead of drawing them.
- The `In` file reader: replaced by a sequence of tokens.
- Images with no rows or no columns as input: the model's image (`Images.WellFormed`) has at least one row and one column; Runigram.java itself needs only the row, to read `image[0]`, and a column only for the clamp in `scaled`. On an image with rows but no columns, Java's flips, `grayScaled` and grid `blend` return an empty-rowed result without error, and `scaled` reads out of bounds (`Math.min(0, w0 - 1)` is -1); the model does not cover those inputs. `Read` can still produce an empty grid, as the Java code does.
- Ragged `Color[][]` arrays: the model uses a rectangular `array2`, so rows of different lengths cannot occur.
- `Color` objects shared between arrays (as in `scaled`): colours here are values, and `Color` is immutable in Java.
- Pixels.Blend: supports only alpha = num/den in [0, 1] and NaN. Other doubles, and the exception `Color` throws when a blend falls out of range, are not modelled. Inside [0, 1] the model is exact, while Java rounds each product and sum to a `double`; at Runigram.java:169-171 `blend((3,3,3), (3,3,3), 0.3)` gives (2,2,2), because `3 * 0.3 + 3 * 0.7` falls just below 3. `Pixels.BlendSame` is therefore a fact of the exact model only, and the interior frames of `morph` can differ from the model's by one in a channel in the same way.
- Pixels.Luminance: uses exact arithmetic. The IEEE-754 `double` sums can differ by one at exact integer boundaries, and every grey pixel sits on one: at Runigram.java:105-108 `luminance(Color(1,1,1))` is `(int) 0.9999999999999999`, which is 0, and 65 of the 256 grey levels (1, 2, 4, 8, 11, ...) drop by one, so Java's `grayScaled` keeps darkening a grey image. `Pixels.LuminanceOfGrey`, `Pixels.LuminanceIdempotent` and `Transforms.GrayScaleIdempotent` are facts of the exact model only.
- Transforms.Scaled: computes the source index in exact integers. The `double` ratio `h0 / height` rounds differently on ordinary sizes: with h0 = 26, height = 46 and r = 23, Java computes `(int) (23 * (26 / 46.0))`, which is `(int) 12.999999999999998` = 12, while the model's `SourceIndex(23, 26, 46)` is 13; there are 11 such (h0, height, r) triples with h0 and height below 60. `Transforms.SourceIndexUnclamped` and `Transforms.ResampleAt` describe the exact model; the clamp still keeps Java's index in bounds. A negative height or width is excluded by the type `nat`; Java would throw `NegativeArraySizeException`.
- Morph.Morph: `n` is an unbounded integer. With `n` equal to Java's largest `int`, the loop counter would wrap, after which the weight is about 2 and the loop runs on or throws `IllegalArgumentException` at the first extrapolated channel outside [0, 255]; that case is not modelled.
- Running out of memory for huge declared sizes in `read` is not modelled.
