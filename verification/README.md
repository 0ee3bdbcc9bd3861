# MosquitoKiller highlight detection, modelled in Dafny

MosquitoKiller shows a live camera frame as a blue-tinted grey picture. Small
dark objects that stand out from their neighbourhood are painted over it in
a blue -> red -> yellow gradient. This project models the per-frame detection
pass of `ImageProcessor` and proves properties of the model. The modelled
parts are:

- the grey value of each pixel of the original frame;
- the integral image (summed-area table) of those grey values, built as in
  `computeIntegralImage`;
- the adaptive local-contrast test of `findAndOverlaySharpHighlights`. Each
  pixel has a window of half-width `(width / 12) / 2`, clamped into the
  frame. The window's average is read from the integral image. The pixel is
  flagged when its grey value is more than 9 below that average;
- `getHighContrastColor`, which maps the darkness difference to a colour;
- the overlay of flagged pixels onto the backdrop.

Layout:

- `grids.dfy` (module `Grids`): a `width` x `height` field stored row-major
  in one flat sequence (`At`, `Set`). It also defines brute-force row and
  rectangle sums (`RowSum`, `RectSum`, `Prefix`) and the lemmas that split
  and bound them.
- `integral.dfy` (module `IntegralImage`): the nested-loop construction of
  the integral image and its properties.
- `colors.dfy` (module `Colors`): the luminance and the colour gradient, in
  exact rational arithmetic with explicit truncation.
- `detector.dfy` (module `Detector`): the half-window, clamped windows,
  pixel count, corner sum and truncating division. It holds the per-pixel
  overlay loop and a brute-force reference average.
- `pipeline.dfy` (module `Pipeline`): `findAndOverlaySharpHighlights` end to
  end, and a small concrete field.

Modelling conventions:

- Grey values, integral entries and averages are unbounded `int`s.
  `IntegralImage.IntegralFitsInt32` shows the source's 32-bit `Int` cannot
  overflow when `255 * W * H < 2^31`.
- Kotlin's `Int` division truncates toward zero, so it is `Detector.TruncDiv`.
  Dafny's own `/` is Euclidean.
- The source's `Float`/`Double` arithmetic is exact `real` arithmetic here.
  Its `toInt()` is `Colors.Truncate`, which rounds toward zero.
- The ratio 12 and the threshold 9 are the constants
  `Detector.AdaptiveBlockSizeRatio` and `Detector.AdaptiveThresholdConstant`.
  The operations take the half-window, the ratio and the threshold as
  parameters.

The corner sum at `ImageProcessor.kt:63` uses the clamped corners
themselves. So it sums the grey values over `x1 < x' <= x2`,
`y1 < y' <= y2`, leaving out the window's first row and column, but divides
by the inclusive count `(x2-x1+1)(y2-y1+1)`. The model reproduces this
exactly (`Detector.WindowSum`, `IntegralImage.InclusionExclusion`).

A consequence: on the 4 x 4 field of two dark (50) and two bright (200)
quadrants, with half-window 1, the dark pixel (1, 1) next to both bright
quadrants gets average 55 and is not flagged. A mean over its full 3 x 3
window would be 116 (`Pipeline.QuadrantsInnerDarkPixelNotFlagged`). No pixel
of that field is flagged (`Pipeline.QuadrantsNoneFlagged`). The dark pixels
bordering the bright quadrants go unflagged because line 63 leaves out the
window's first row and column while line 62 still counts them.

The code truncates rather than rounds in four places: the luminance
(`.toInt()` at line 45) and the gradient channels (lines 82, 83 and 88). The
model truncates, as the code does.

## Model

| member | source | states |
|---|---|---|
| Grids.Grid.Set | app/src/main/java/com/example/mosquitokiller/ImageProcessor.kt:68 | the assignment `a[y * width + x] = v` (here `pixels[i]`, and the integral entries written at line 105) leaves a field of the same shape in which cell `(x, y)` holds `v` and every other in-bounds cell is unchanged |
| Grids.Filled | app/src/main/java/com/example/mosquitokiller/ImageProcessor.kt:48 | a freshly allocated `IntArray(width * height)` has the frame's shape and holds the same value in every cell |
| IntegralImage.ComputeIntegralImage | app/src/main/java/com/example/mosquitokiller/ImageProcessor.kt:105 | after the row-prefix-sum-plus-row-above loop, every entry `I[y*w+x]` equals the brute-force sum of the grey values over all `x' <= x`, `y' <= y`; the result has the input's shape |
| IntegralImage.IntegralMonotone | app/src/main/java/com/example/mosquitokiller/ImageProcessor.kt:105 | over non-negative grey values, the integral image never decreases along a row or down a column |
| IntegralImage.InclusionExclusion | app/src/main/java/com/example/mosquitokiller/ImageProcessor.kt:63 | the four-corner combination `I[y2][x2] - I[y1][x2] - I[y2][x1] + I[y1][x1]` equals the brute-force sum over `x1 < x' <= x2`, `y1 < y' <= y2` (corner row and column excluded) |
| IntegralImage.IntegralFitsInt32 | app/src/main/java/com/example/mosquitokiller/ImageProcessor.kt:48-49 | with grey values in `[0, 255]` and `255*W*H < 2^31`, every integral entry lies in `[0, 2^31)`, so the 32-bit `Int` array cannot overflow |
| Colors.Truncate | app/src/main/java/com/example/mosquitokiller/ImageProcessor.kt:82-83 | `toInt()` gives the integer next to the value on the side of zero: `n <= v < n+1` for non-negative `v`, `n-1 < v <= n` for negative `v` |
| Colors.ClampReal | app/src/main/java/com/example/mosquitokiller/ImageProcessor.kt:77 | `coerceIn(0, 1)` returns a value in the range, the input itself when it is already inside, and the nearer end otherwise |
| Colors.Luminance | app/src/main/java/com/example/mosquitokiller/ImageProcessor.kt:45 | the truncated weighted sum of channels in `[0, 255]` is again in `[0, 255]` (the weights sum to 1), and a grey pixel `(v, v, v)` has luminance exactly `v` |
| Colors.LuminanceInThousandths | app/src/main/java/com/example/mosquitokiller/ImageProcessor.kt:45 | the luminance equals the integer formula `(299R + 587G + 114B) / 1000` |
| Colors.LuminanceMonotone | app/src/main/java/com/example/mosquitokiller/ImageProcessor.kt:45 | raising any channel never lowers the luminance |
| Colors.HighContrastColor | app/src/main/java/com/example/mosquitokiller/ImageProcessor.kt:76-91 | every channel is in `[0, 255]`; a difference `<= 0` gives blue (0,0,255), 40 gives red (255,0,0), `>= 80` gives yellow (255,255,0); below 40 green is 0 and red + blue = 255; from 40 on red is 255 and blue is 0 |
| Colors.HighContrastColorMonotone | app/src/main/java/com/example/mosquitokiller/ImageProcessor.kt:76-91 | as the difference grows, red and green never fall and blue never rises, over the whole gradient |
| Colors.HighContrastColorOnIntegers | app/src/main/java/com/example/mosquitokiller/ImageProcessor.kt:67-68 | for the whole-number differences the detector passes, the exact-rational gradient equals the integer gradient: red `255c/40` below 40 and green `255(c-40)/40` from 40 on, where `c` is the difference clamped to `[0, 80]` |
| Detector.HalfBlock | app/src/main/java/com/example/mosquitokiller/ImageProcessor.kt:51-52 | the half-window `h = (width/ratio)/2` satisfies `2*ratio*h <= width < 2*ratio*(h+1)` |
| Detector.HalfBlockZeroIffNarrow | app/src/main/java/com/example/mosquitokiller/ImageProcessor.kt:18 | with the ratio 12, the half-window is 0 exactly when the frame is narrower than 24 pixels |
| Detector.HalfBlockZeroIfNarrow | app/src/main/java/com/example/mosquitokiller/ImageProcessor.kt:51-52 | for any ratio, a frame narrower than twice the ratio gets half-window 0 |
| Detector.CoerceIn | app/src/main/java/com/example/mosquitokiller/ImageProcessor.kt:57-60 | `coerceIn(lo, hi)` returns a value in `[lo, hi]`: the input if it is inside, else the nearer bound |
| Detector.TruncDiv | app/src/main/java/com/example/mosquitokiller/ImageProcessor.kt:64 | `Int` division by a positive count leaves a remainder in `[0, b)` for non-negative sums and in `(-b, 0]` for negative ones (truncation toward zero) |
| Detector.ClampedWindow | app/src/main/java/com/example/mosquitokiller/ImageProcessor.kt:57-60 | the clamped corners satisfy `0 <= x1 <= x <= x2 <= width-1` and `0 <= y1 <= y <= y2 <= height-1`, lie within `half` of the pixel, and each is either the unclamped offset or the frame edge, so every index read at line 63 is in range |
| Detector.PixelCount | app/src/main/java/com/example/mosquitokiller/ImageProcessor.kt:62 | the count is at least 1 (the division cannot fail) and exceeds the number of pixels the corner sum covers |
| Detector.OverlayHighlights | app/src/main/java/com/example/mosquitokiller/ImageProcessor.kt:54-71 | after the nested loop, a pixel whose grey value is below the local average minus the threshold holds `getHighContrastColor(localAverage - gray)`; every other pixel keeps its backdrop value |
| Detector.LocalAverageIsReference | app/src/main/java/com/example/mosquitokiller/ImageProcessor.kt:57-64 | read from a correct integral image, the local average equals the brute-force sum over `x1 < x' <= x2`, `y1 < y' <= y2` divided (truncating) by the inclusive count |
| Detector.LocalAverageInRange | app/src/main/java/com/example/mosquitokiller/ImageProcessor.kt:63-64 | with grey values in `[0, 255]`, every local average lies in `[0, 255]` |
| Detector.NoHighlightWithoutWindow | app/src/main/java/com/example/mosquitokiller/ImageProcessor.kt:63-66 | with half-window 0 the corner sum cancels, the local average is 0, and no non-negative grey value is flagged for a non-negative threshold |
| Detector.ThresholdMonotone | app/src/main/java/com/example/mosquitokiller/ImageProcessor.kt:66 | raising the threshold never adds a pixel to the flagged set, so the number of flagged pixels never grows |
| Pipeline.GrayField | app/src/main/java/com/example/mosquitokiller/ImageProcessor.kt:40-46 | the grey array has the frame's shape, holds each pixel's luminance, and lies in `[0, 255]` |
| Pipeline.FindAndOverlaySharpHighlights | app/src/main/java/com/example/mosquitokiller/ImageProcessor.kt:34-73 | each output pixel is the backdrop pixel, unless the original's luminance is more than the threshold below the brute-force local average; then it is the gradient colour of the difference. A frame narrower than twice the ratio comes back unchanged for a non-negative threshold |
| Pipeline.QuadrantsTotal | app/src/main/java/com/example/mosquitokiller/ImageProcessor.kt:105 | on the 4 x 4 two-level quadrant field, the bottom-right summed-area value is 2000 |
| Pipeline.QuadrantsInnerDarkPixelNotFlagged | app/src/main/java/com/example/mosquitokiller/ImageProcessor.kt:57-66 | on that field with half-window 1, the dark pixel (1, 1) has local average 55 and is not flagged, while the mean over its full 3 x 3 window is 116 |
| Pipeline.QuadrantsPixelNotFlagged | app/src/main/java/com/example/mosquitokiller/ImageProcessor.kt:57-66 | on that field with half-window 1 and threshold 9, every one of the sixteen pixels fails the test `gray < localAverage - 9` against the brute-force local average |
| Pipeline.QuadrantsNoneFlagged | app/src/main/java/com/example/mosquitokiller/ImageProcessor.kt:57-66 | read from any correct integral image of that field, the detector's set of flagged pixels (line 66) is empty, including the dark pixels bordering the bright quadrants |

## Left out

- `processImage` (`ImageProcessor.kt:21-31`) only chains calls into Android code. Its one modelled stage is `findAndOverlaySharpHighlights`.
- `yuvToBitmap` (line 106): it joins the camera's NV21 planes and round-trips them through JPEG compression in Android libraries. That is lossy foreign code, so the decoded frame is an input.
- `createBlueTintedGrayscaleBackground` (lines 95-103) is an Android `ColorMatrix` drawn on a `Canvas`. The backdrop is an input raster.
- `rotateBitmap` (line 107) calls `Matrix.postRotate` and `Bitmap.createBitmap` with filtering. All it does itself is return the input unchanged for angle 0.
- `Bitmap.getPixels`/`setPixels` copy pixels between a bitmap and an `IntArray`. Here rasters are `Grid<Rgb>` values.
- ARGB packing (`Color.rgb`, `Color.red`/`green`/`blue`) and the alpha channel: pixels are `(r, g, b)` triples.
- `MainActivity.kt`: camera binding, the analyzer executor, backpressure, zoom, focus, torch, permissions and lifecycle. It is all platform glue.
- Floating-point rounding at lines 45 and 77-89: the arithmetic is exact over the rationals, with truncation made explicit. A `Float` product such as `255 * t` (lines 82-88), or the `Double` weighted sum at line 45, can land just below a whole number where the exact value is whole. The source's `toInt()` then gives one less than the model; the `Colors.HighContrastColorOnIntegers`, `Colors.Luminance`, `Colors.LuminanceInThousandths` and `Pipeline.GrayField` lines below give the counts and examples.
- `Colors.HighContrastColor` takes an exact `real` difference, not a 32-bit `Float`. The detector only ever passes whole numbers, and those are exact in `Float`.
- Kotlin's `coerceIn` throws when its range is empty (a zero-width or zero-height frame). The loops never reach it in that case, so `Detector.CoerceIn` requires a non-empty range.
- `Colors.HighContrastColorOnIntegers`: the equality with the integer gradient holds for the exact-rational model, not for the program's `Float` steps. Worked in IEEE single precision, a difference of 56 gives green 101 (`255 * t` is 101.99999) and 72 gives green 203, where the model and `Colors.GradientOfInt` give 102 and 204.
- `Colors.Luminance`: the grey identity `(v, v, v) -> v` holds for the exact-rational model only. In `Double`, evaluated left to right as at line 45, the weighted sum lands just below a whole number, and `toInt()` gives one less than the model, for 3,464 of the 2^24 colours. 65 of them are grey (v = 1, 2, 4, 8, 11, ...; for v = 1 the sum is 0.9999999999999999, giving 0). Every such colour has a whole-number exact sum, and no colour comes out higher than the model.
- `Colors.LuminanceInThousandths`: the equality with `(299R + 587G + 114B) / 1000` holds for the exact-rational model. The program's `Double` luminance is one lower on the same 3,464 colours, for example `(0, 72, 24)`, which gives 44 where the formula gives 45.
- `Pipeline.GrayField`: the grey field holds the exact-rational luminance, so on those 3,464 colours its value is one above the program's `originalGrayPixels` entry.
- 32-bit wrap-around of the integral image: frames with `255 * W * H >= 2^31` (about 8.4 megapixels) are not covered by `IntegralImage.IntegralFitsInt32`, and the program's integral entries can wrap there. Line 63's four-corner combination is exact modulo `2^32`, so the averages still agree with the model as long as each window's true sum stays below `2^31`; the model does not prove this.
