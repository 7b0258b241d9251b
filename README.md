# canvas-dither in Dafny

A model of the dither engine of `canvas-dither` (`main.ts`). The engine has
five in-place transforms over the RGBA byte buffer of a canvas `ImageData`:

- `grayscale`
- `threshold`
- `bayer` (ordered dithering with a 4x4 table)
- `floydsteinberg` (error diffusion)
- `atkinson` (error diffusion)

There are five modules:

- `Uint8Clamped` (`uint8_clamped.dfy`) models how numbers are stored into a
  `Uint8ClampedArray`. ToUint8Clamp (section 7.1.12 of ECMA-262) clamps to
  0..255 and rounds half to even. Stores to indices outside the array are
  dropped (section 10.4.5 of ECMA-262). Numbers are exact: luminance
  `0.299 R + 0.587 G + 0.114 B` is kept as the integer `N = 299 R + 587 G + 114 B`,
  which stands for `N / 1000`.
- `DitherSpec` (`dither_spec.dfy`) says what each transform computes, as
  functions on the buffer's byte sequence. The error diffusers scan the
  scratch luminance plane one cell at a time: `PlaneAt(p0, kern, k)` is the
  plane when the scan reaches cell `k`, and `DiffusedValues` is the black or
  white byte each cell is painted with.
- `Dither` (`dither.dfy`) holds the transforms themselves. They are methods
  with loop invariants over an `ImageData` class (`width`, `height`,
  `data: array<int>`) and a scratch `array<int>` luminance plane. Each method
  is proved to leave the buffer equal to its `DitherSpec` function and to
  leave every alpha byte alone.
- `DitherProperties` (`dither_properties.dfy`) proves what the transforms
  promise about those functions.
- `DitherExamples` (`dither_examples.dfy`) mirrors the test suite's 1x1
  cases. They call the `Dither` methods on a fresh `ImageData`.

Three facts about the code that are easy to get wrong:

- A store into a `Uint8ClampedArray` rounds half to even; it does not
  floor. Grayscale therefore turns the pixel (2, 0, 0), whose luminance is
  0.598, into 1 and not 0. `Uint8Clamped.ToUint8Clamp` models the rounding.
- At width 1 the tap `l + width - 1` is `l` itself, so the error of a cell
  is partly written back into that cell after its output byte has been
  painted (`DitherProperties.KernelsForward`,
  `DitherProperties.WidthOneWriteBack`). The painted byte is not revised:
  the pass loops keep every byte before the current pixel equal to its
  final value (`Dither.FloydSteinbergPass`, `Dither.AtkinsonPass`).
- The test at `main.test.ts:31` is titled "becomes #fff", but its assertions
  expect black. The model agrees with the assertions
  (`DitherExamples.FloydSteinbergRed`).

## Model

| member | source | states |
|---|---|---|
| Uint8Clamped.ToUint8Clamp | main.ts:10 | the stored byte lies in 0..255; a number at or below 0 stores 0 and one at or above 255 stores 255; in between it stores a nearest integer, and an exact half goes to the even neighbour |
| Uint8Clamped.ClampInteger | main.ts:27 | storing an integer saturates it to 0..255 and keeps every value in between |
| Uint8Clamped.AddAt | main.ts:77 | `plane[k] += delta` on a Uint8ClampedArray keeps the length of the plane |
| Uint8Clamped.AddAtIndex | main.ts:77-80 | `plane[k] += delta` gives the target, when inside the plane, the clamped sum; every other index keeps its value; a target outside the plane is dropped; a plane of bytes stays one |
| Uint8Clamped.AddAssign | main.ts:77 | the array after `a[k] += delta` is the clamped update of the old contents, or the old contents when k is out of range |
| Uint8Clamped.Fill | main.ts:10 | `fill(x, start, end)` stores ToUint8Clamp(x) at every index of [start, end) and leaves every other index alone |
| DitherSpec.Luminance | main.ts:8-9 | the luminance of bytes lies in 0..255 (as thousandths); a gray pixel with R = G = B = v has luminance exactly v, since the weights sum to 1 |
| DitherSpec.PixelLuminance | main.ts:8-9 | the luminance of pixel p of a byte buffer lies in 0..255 (as thousandths) |
| DitherSpec.Paint | main.ts:10 | filling R, G and B of every pixel with its byte, as every transform does (main.ts:10, 27, 54, 75, 101), keeps the length of the buffer, and a byte buffer stays one |
| DitherSpec.LuminancePlane | main.ts:65-70 | one luminance byte per pixel, each in 0..255 |
| DitherSpec.Grayscaled | main.ts:6-12 | grayscale keeps the length of the buffer, and a byte buffer stays one |
| DitherSpec.ThresholdValue | main.ts:26 | the threshold decision is black or white, and black exactly when the rational luminance `n / 1000` is strictly below the threshold |
| DitherSpec.ThresholdValues | main.ts:22-27 | threshold computes one byte per pixel, each a byte |
| DitherSpec.Thresholded | main.ts:21-29 | threshold keeps the length of the buffer, and a byte buffer stays one |
| DitherSpec.BayerBias | main.ts:39-44 | every entry of the 4x4 table is a multiple of 15 in 15..240 |
| DitherSpec.PixelBias | main.ts:50-52 | the bias of pixel p, at column p % width and row p / width, lies in 15..240 |
| DitherSpec.BayerValue | main.ts:52-53 | the Bayer decision is black or white; it is black exactly when `floor((n / 1000 + bias) / 2) < t` over the rationals, and white exactly when `n + 1000 * bias >= 2000 * t` |
| DitherSpec.BayerValues | main.ts:46-54 | bayer computes one byte per pixel, each a byte |
| DitherSpec.BayerDithered | main.ts:38-56 | bayer keeps the length of the buffer, and a byte buffer stays one |
| DitherSpec.PaintSameAlpha | main.ts:10 | filling the colour bytes of every pixel keeps the length and every alpha byte |
| DitherSpec.FloydSteinbergKernel | main.ts:77-80 | the Floyd-Steinberg kernel divides the error by 16 and has four taps whose weights sum to 16, so the whole error is handed on |
| DitherSpec.AtkinsonKernel | main.ts:103-108 | the Atkinson kernel divides the error by 8 and has six taps whose weights sum to only 6, so a quarter of the error is dropped |
| DitherSpec.Quantize | main.ts:73 | a cell is painted black or white, black exactly when it is below 129; on a byte the painted value lies within 128 below and 126 above the cell |
| DitherSpec.QuantError | main.ts:74 | the error is the floor of the quantisation difference divided by the divisor: its d-fold does not exceed the difference, and the next multiple does |
| DitherSpec.Spread | main.ts:77-80 | applying the remaining taps in source order keeps the length of the plane |
| DitherSpec.Visit | main.ts:73-80 | one visit of a cell keeps the length of the plane |
| DitherSpec.PlaneAt | main.ts:72-81 | the plane at every step of the scan has the length of the plane built by pass 1 |
| DitherSpec.ScanValues | main.ts:72-75 | the scan has emitted exactly one output byte for each cell it has passed |
| DitherSpec.DiffusedValues | main.ts:72-81 | pass 2 emits exactly one output byte per cell of the plane |
| DitherSpec.ScanValueAt | main.ts:72-75 | the byte painted for cell l is the quantised value of the plane when the scan reached l |
| DitherSpec.DiffusedValueAt | main.ts:73-75 | each output byte of a diffuser is the plane cell quantised at its visit, and is 0 or 255 |
| DitherSpec.DiffusedValuesBytes | main.ts:73 | every output byte of a diffuser is a byte |
| DitherSpec.FloydSteinbergVisit | main.ts:77-80 | the four clamped `+=` statements, run in source order, equal spreading the error with the Floyd-Steinberg taps |
| DitherSpec.AtkinsonVisit | main.ts:103-108 | the six clamped `+=` statements, run in source order, equal spreading the error with the Atkinson taps |
| Dither.ImageData.constructor | main.test.ts:5 | `new ImageData(w, h)` has the given width and height and a fresh buffer of `w * h * 4` zero bytes |
| Dither.FillPixel | main.ts:10 | `data.fill(value, i, i + 3)` at pixel i / 4, as every transform does (main.ts:10, 27, 54, 75, 101), extends the painted prefix by one pixel and leaves the rest alone |
| Dither.Grayscale | main.ts:6-12 | the buffer becomes `Grayscaled` of the old buffer, stays a byte buffer and keeps every alpha byte |
| Dither.Threshold | main.ts:21-29 | the buffer becomes `Thresholded` of the old buffer at the given threshold, stays a byte buffer and keeps every alpha byte |
| Dither.Bayer | main.ts:38-56 | the buffer becomes `BayerDithered` of the old buffer for the image width and threshold, stays a byte buffer and keeps every alpha byte |
| Dither.LuminancePass | main.ts:65-70 | pass 1 fills a fresh plane of width * height cells with the stored luminance of every pixel |
| Dither.SpreadFloydSteinberg | main.ts:77-80 | the four `+=` statements turn the plane into one Floyd-Steinberg visit of cell l |
| Dither.VisitFloydSteinberg | main.ts:73-80 | one pass-2 iteration paints pixel l with its scan value and advances the plane from cell l to cell l + 1 |
| Dither.FloydSteinbergPass | main.ts:72-81 | pass 2 paints every pixel with the scan's output bytes for the plane built by pass 1 |
| DitherSpec.ErrorDiffused | main.ts:63-110 | either error diffuser keeps the length of the buffer |
| DitherSpec.FloydSteinbergDithered | main.ts:63-82 | `floydsteinberg` keeps the length of the buffer |
| DitherSpec.AtkinsonDithered | main.ts:89-110 | `atkinson` keeps the length of the buffer |
| Dither.FloydSteinberg | main.ts:63-82 | the buffer becomes `FloydSteinbergDithered` of the old buffer for the image width, stays a byte buffer and keeps every alpha byte |
| Dither.SpreadAtkinson | main.ts:103-108 | the six `+=` statements turn the plane into one Atkinson visit of cell l |
| Dither.VisitAtkinson | main.ts:99-108 | one pass-2 iteration paints pixel l with its scan value and advances the plane from cell l to cell l + 1 |
| Dither.AtkinsonPass | main.ts:98-109 | pass 2 paints every pixel with the scan's output bytes for the plane built by pass 1 |
| Dither.Atkinson | main.ts:89-110 | the buffer becomes `AtkinsonDithered` of the old buffer for the image width, stays a byte buffer and keeps every alpha byte |
| DitherProperties.PaintPixel | main.ts:10 | after the fill of a pixel, its three colour bytes hold the filled value and its alpha is the old alpha |
| DitherProperties.AlphaKept | main.ts:10 | none of the five transforms changes the buffer length or any alpha byte |
| DitherProperties.GrayscaledPixel | main.ts:7-10 | after grayscale, R = G = B = ToUint8Clamp of the pixel's original luminance, and alpha is kept |
| DitherProperties.GrayscaledLuminance | main.ts:8-10 | a grayscaled buffer has the same luminance plane as the original |
| DitherProperties.GrayscaleIdempotent | main.ts:6-12 | grayscale applied twice equals grayscale applied once |
| DitherProperties.ThresholdedPixel | main.ts:22-27 | after threshold, pixel p is black exactly when its luminance is strictly below t, and white exactly otherwise, on all three colour bytes; alpha is kept |
| DitherProperties.ThresholdMonotone | main.ts:26 | raising the threshold never turns a black pixel white |
| DitherProperties.ThresholdIdempotent | main.ts:21-29 | on a byte buffer, for every threshold, threshold applied twice equals threshold applied once |
| DitherProperties.BayerIsBiasedThreshold | main.ts:52-53 | the Bayer decision is the threshold decision at 2t for the luminance raised by the bias |
| DitherProperties.BayerDitheredPixel | main.ts:46-54 | after bayer, pixel p is white exactly when `floor((luminance + bias(p % width, p / width)) / 2) >= t`, black exactly otherwise, on all three colour bytes; alpha is kept |
| DitherProperties.BayerExtremes | main.ts:52-53 | on a byte buffer a threshold of at most 7 makes every pixel white, and one of at least 248 makes every pixel black |
| DitherProperties.KernelsForward | main.ts:77-80 | every tap of either kernel points past the visited cell exactly when the width is at least 2 |
| DitherProperties.QuantErrorBounds | main.ts:74 | on a byte cell the error lies in -8..8 for sixteenths and -16..16 for eighths; it is non-negative for a cell painted black and non-positive for one painted white |
| DitherProperties.SpreadBytes | main.ts:77-80 | spreading the error keeps every plane cell a byte |
| DitherProperties.PlaneAtBytes | main.ts:72-81 | every cell of the scratch plane stays a byte throughout the scan |
| DitherProperties.LuminancePlaneAtBytes | main.ts:65-81 | the plane built by pass 1 stays a plane of bytes throughout pass 2 |
| DitherProperties.SpreadUntouched | main.ts:77-80 | a cell that no remaining tap targets keeps its value |
| DitherProperties.SpreadTarget | main.ts:77-80 | a cell targeted by exactly one of the remaining taps gets the clamped sum of its value and that tap's weighted error, whatever the other taps hit |
| DitherProperties.FloydSteinbergVisitTargets | main.ts:74-80 | a visit gives each of l + 1 (from width 3), l + w - 1 (at every width but 2), l + w (from width 2) and l + w + 1 (always), when inside the plane, the clamped sum with 7, 3, 5 and 1 times the error |
| DitherProperties.FloydSteinbergVisitUntouched | main.ts:77-80 | a visit leaves every cell other than its four targets alone, for every width |
| DitherProperties.AtkinsonVisitTargets | main.ts:100-108 | for width of at least 4, a visit gives l + 1, l + 2, l + w - 1, l + w, l + w + 1 and l + 2w, when inside the plane, the clamped sum with the error |
| DitherProperties.AtkinsonVisitUntouched | main.ts:103-108 | a visit leaves every cell other than its six targets alone, for every width |
| DitherProperties.AtkinsonTaps | main.ts:103-108 | the Atkinson taps are +1, +2, +w - 1, +w, +w + 1 and +2w, each of weight 1, and no two coincide once the width is at least 4 |
| DitherProperties.VisitForward | main.ts:77-80 | with every tap ahead of the visited cell, a visit leaves that cell and all earlier cells alone |
| DitherProperties.VisitedCellFinal | main.ts:72-81 | with every tap ahead of the visited cell, a cell never changes once the scan has reached it |
| DitherProperties.DiffusedFromFinalPlane | main.ts:72-81 | with every tap ahead of the visited cell, each output byte is its cell of the final plane quantised |
| DitherProperties.WidthOneWriteBack | main.ts:78 | at width 1 the tap `l + width - 1` writes back into the visited cell: a cell of 120 is painted black but the plane is left holding 141 |
| DitherProperties.ErrorDiffusedPixel | main.ts:72-75 | after either diffuser, pixel p is black exactly when its plane cell was below 129 when the scan reached it, white exactly otherwise, on all three colour bytes; alpha is kept |
| DitherExamples.Pixel | main.test.ts:5-6 | a fresh 1x1 image holding the pixel (r, 0, 0, a) |
| DitherExamples.GrayscaleRed | main.test.ts:40-47 | grayscale turns a red pixel into gray 76 |
| DitherExamples.ThresholdRed | main.test.ts:49-65 | threshold turns a red pixel white for t up to 76 and black from 77 |
| DitherExamples.BayerRed | main.test.ts:13-29 | bayer turns a red pixel white for t up to 45 (so at 40) and black from 46 (so at 77) |
| DitherExamples.FloydSteinbergRed | main.test.ts:31-38 | Floyd-Steinberg turns a red pixel black |
| DitherExamples.AtkinsonRed | main.test.ts:4-11 | Atkinson turns a red pixel black |
| DitherExamples.AllTransforms | main.test.ts:69-74 | running atkinson, bayer, floydsteinberg, grayscale and threshold in that order keeps every alpha byte of any image |
| DitherExamples.AlphaSurvives | main.test.ts:67-76 | a pixel of alpha 133 still has alpha 133 after all five transforms |

## Left out

- Floating point. Luminance is the exact rational `N / 1000`. In IEEE-754
  doubles `0.299 R + 0.587 G + 0.114 B` can miss that value by a unit or
  two in the last place. This matters in two places. A store that sits exactly on
  a .5 tie can round the other way. And a strict comparison with an integer
  can flip when the exact luminance is a whole number: the gray pixel
  (1, 1, 1) has exact luminance 1, but its double luminance is just below
  1, so `threshold` at 1 paints it black where the model paints it white.
  65 of the 256 gray levels have a double luminance below their value.
- DitherSpec.Luminance: "a gray pixel of value v has luminance exactly v"
  holds in exact arithmetic only.
- DitherProperties.ThresholdedPixel: the decision at a luminance that is
  exactly a whole number is an exact-arithmetic claim; the code's double
  can fall just below it and the pixel then turns black instead of white.
- DitherProperties.BayerDitheredPixel: the same holds where luminance plus
  bias is exactly an even number, so that `floor((luminance + bias) / 2)`
  sits on a whole number.
- Grayscale's results, including `DitherProperties.GrayscaleIdempotent`,
  are not affected by the doubles away from .5 ties, because the store
  rounds to nearest.
- The `threshold` argument is an integer. Non-integer, NaN and infinite
  thresholds are not modelled, so the NaN branch of ToUint8Clamp never
  arises.
- The `ImageData` and canvas host types, and `Uint8ClampedArray` as a
  class. An image is `width`, `height` and an `array<int>` of bytes. The
  clamping store and the dropped out-of-range write are written out
  explicitly.
- Malformed buffers. The source has no error path for a buffer whose length
  is not `width * height * 4`, so the methods require that length
  (`ImageData.Valid`) and a buffer of bytes.
- Nothing special happens at row edges; the taps wrap around exactly as
  the code has them. `l + width - 1` at column 0 lands at the end of the same
  row, and `l + 1` at the last column lands at the start of the next row.
  Only writes past the end of the plane are dropped.
- The Deno test harness. Its cases appear only as the methods of
  `DitherExamples`.
- DitherProperties.FloydSteinbergVisitTargets: states the effect only of
  the taps that hit a cell no other tap of the visit hits. At width 2 the
  taps `l + 1` and `l + width - 1` hit the same cell, and at width 1 the
  taps `l + 1` and `l + width` do. Such a cell receives two clamped
  additions in turn; `Spread` covers that case, and the lemma does not
  restate it.
- DitherProperties.AtkinsonVisitTargets: states the effect of each tap only
  for widths of at least 4, where the six targets are distinct. Below that,
  coinciding taps add in turn, as `Spread` has it.
