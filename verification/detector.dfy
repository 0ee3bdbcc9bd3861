/**
  The adaptive local-contrast detector and the overlay of
  `findAndOverlaySharpHighlights`: for every pixel, a windowed average of the
  luminance is read from the integral image, and a pixel sufficiently darker
  than that average is painted over the backdrop with a gradient colour.
 */
module Detector {
  import opened Grids
  import opened IntegralImage
  import opened Colors

  /** The window width is the frame width divided by this ratio. */
  const AdaptiveBlockSizeRatio: nat := 12
  /** A pixel must be more than this much darker than its local average. */
  const AdaptiveThresholdConstant: int := 9

  /** Half the window width, `(width / ratio) / 2` in integer division. */
  function HalfBlock(width: nat, ratio: nat): (half: nat)
    requires 0 < ratio
    ensures 2 * ratio * half <= width < 2 * ratio * (half + 1)
  {
    HalvedQuotientBounds(width, ratio);
    (width / ratio) / 2
  }

  lemma HalvedQuotientBounds(width: nat, ratio: nat)
    requires 0 < ratio
    ensures 2 * ratio * ((width / ratio) / 2) <= width < 2 * ratio * ((width / ratio) / 2 + 1)
  {
    var blockSize := width / ratio;
    assert blockSize * ratio <= width < (blockSize + 1) * ratio;
    var half := blockSize / 2;
    assert 2 * half <= blockSize < 2 * (half + 1);
    assert 2 * half * ratio <= blockSize * ratio;
    assert (blockSize + 1) * ratio <= 2 * (half + 1) * ratio;
  }

  /** With the default ratio, the window degenerates to one pixel exactly for
      frames narrower than 24 pixels. */
  lemma HalfBlockZeroIffNarrow(width: nat)
    ensures HalfBlock(width, AdaptiveBlockSizeRatio) == 0 <==> width < 24
  {
  }

  /** For any ratio, frames narrower than twice the ratio get a zero half-window. */
  lemma HalfBlockZeroIfNarrow(width: nat, ratio: nat)
    requires 0 < ratio && width < 2 * ratio
    ensures HalfBlock(width, ratio) == 0
  {
  }

  /** Kotlin's `coerceIn(lo, hi)` on an `Int`. */
  function CoerceIn(v: int, lo: int, hi: int): (c: int)
    requires lo <= hi
    ensures lo <= c <= hi
    ensures lo <= v <= hi ==> c == v
    ensures v < lo ==> c == lo
    ensures hi < v ==> c == hi
  {
    if v < lo then lo else if hi < v then hi else v
  }

  /** Kotlin's `Int` division, which truncates toward zero (Dafny's `/` is Euclidean). */
  function TruncDiv(a: int, b: int): (q: int)
    requires 0 < b
    ensures 0 <= a ==> 0 <= a - q * b < b
    ensures a < 0 ==> -b < a - q * b <= 0
  {
    if 0 <= a then a / b else -((-a) / b)
  }

  /** The corners `(x1, y1)` and `(x2, y2)` of a pixel's window. */
  datatype Window = Window(x1: int, y1: int, x2: int, y2: int)

  /** The window `[x - half, x + half] x [y - half, y + half]` with each
      corner coordinate clamped into the frame. */
  function ClampedWindow(width: nat, height: nat, half: nat, x: int, y: int): (win: Window)
    requires 0 <= x < width && 0 <= y < height
    ensures 0 <= win.x1 <= x <= win.x2 < width
    ensures 0 <= win.y1 <= y <= win.y2 < height
    ensures x - half <= win.x1 && win.x2 <= x + half
    ensures y - half <= win.y1 && win.y2 <= y + half
    ensures (win.x1 == 0 || win.x1 == x - half) && (win.x2 == width - 1 || win.x2 == x + half)
    ensures (win.y1 == 0 || win.y1 == y - half) && (win.y2 == height - 1 || win.y2 == y + half)
  {
    Window(CoerceIn(x - half, 0, width - 1), CoerceIn(y - half, 0, height - 1),
           CoerceIn(x + half, 0, width - 1), CoerceIn(y + half, 0, height - 1))
  }

  /** The number of pixels of the window, corners included: the divisor. */
  function PixelCount(win: Window): (n: int)
    requires win.x1 <= win.x2 && win.y1 <= win.y2
    ensures 1 <= n
    ensures (win.x2 - win.x1) * (win.y2 - win.y1) < n
  {
    (win.x2 - win.x1 + 1) * (win.y2 - win.y1 + 1)
  }

  /** The four-corner integral-image combination, taken at the clamped corners
      themselves. */
  function CornerSum(integral: Grid<int>, win: Window): int
    requires integral.Valid()
    requires integral.InBounds(win.x1, win.y1) && integral.InBounds(win.x2, win.y2)
  {
    integral.At(win.x2, win.y2) - integral.At(win.x2, win.y1) - integral.At(win.x1, win.y2) + integral.At(win.x1, win.y1)
  }

  /** The local average of pixel `(x, y)` as the source computes it. */
  function LocalAverage(integral: Grid<int>, half: nat, x: int, y: int): int
    requires integral.Valid() && integral.InBounds(x, y)
  {
    var win := ClampedWindow(integral.width, integral.height, half, x, y);
    TruncDiv(CornerSum(integral, win), PixelCount(win))
  }

  /** The detection test: darker than the local average minus the threshold. */
  predicate IsHighlight(gray: Grid<int>, integral: Grid<int>, half: nat, threshold: int, x: int, y: int)
    requires gray.Valid() && integral.Valid() && SameShape(gray, integral) && gray.InBounds(x, y)
  {
    gray.At(x, y) < LocalAverage(integral, half, x, y) - threshold
  }

  /** The colour of pixel `(x, y)` after the overlay. */
  function Composite(pixels: Grid<Rgb>, gray: Grid<int>, integral: Grid<int>, half: nat, threshold: int, x: int, y: int): Rgb
    requires pixels.Valid() && gray.Valid() && integral.Valid()
    requires SameShape(pixels, gray) && SameShape(gray, integral) && gray.InBounds(x, y)
  {
    if IsHighlight(gray, integral, half, threshold, x, y)
    then HighContrastColor((LocalAverage(integral, half, x, y) - gray.At(x, y)) as real)
    else pixels.At(x, y)
  }

  /** The per-pixel loop: every pixel that passes the detection test is
      overwritten with the gradient colour of its difference from the local
      average; every other pixel keeps its backdrop colour. */
  method OverlayHighlights(pixels: Grid<Rgb>, gray: Grid<int>, integral: Grid<int>, half: nat, threshold: int)
    returns (out: Grid<Rgb>)
    requires pixels.Valid() && gray.Valid() && integral.Valid()
    requires SameShape(pixels, gray) && SameShape(gray, integral)
    ensures out.Valid() && SameShape(out, pixels)
    ensures forall x, y :: pixels.InBounds(x, y) && IsHighlight(gray, integral, half, threshold, x, y) ==>
              out.At(x, y) == HighContrastColor((LocalAverage(integral, half, x, y) - gray.At(x, y)) as real)
    ensures forall x, y :: pixels.InBounds(x, y) && !IsHighlight(gray, integral, half, threshold, x, y) ==>
              out.At(x, y) == pixels.At(x, y)
  {
    var width, height := pixels.width, pixels.height;
    var acc := pixels;
    var y := 0;
    while y < height
      invariant 0 <= y <= height
      invariant acc.Valid() && SameShape(acc, pixels)
      invariant forall xx, yy :: pixels.InBounds(xx, yy) ==>
                  acc.At(xx, yy) == if yy < y then Composite(pixels, gray, integral, half, threshold, xx, yy) else pixels.At(xx, yy)
    {
      var x := 0;
      while x < width
        invariant 0 <= x <= width
        invariant acc.Valid() && SameShape(acc, pixels)
        invariant forall xx, yy :: pixels.InBounds(xx, yy) ==>
                    acc.At(xx, yy) == if yy < y || (yy == y && xx < x)
                                      then Composite(pixels, gray, integral, half, threshold, xx, yy)
                                      else pixels.At(xx, yy)
      {
        var win := ClampedWindow(width, height, half, x, y);
        var count := PixelCount(win);
        var sum := CornerSum(integral, win);
        var localAverage := TruncDiv(sum, count);
        if gray.At(x, y) < localAverage - threshold {
          var diff := (localAverage - gray.At(x, y)) as real;
          acc := acc.Set(x, y, HighContrastColor(diff));
        }
        x := x + 1;
      }
      y := y + 1;
    }
    out := acc;
  }

  /** Brute-force sum of the luminance over the part of the window the corner
      combination covers: `x1 < x' <= x2`, `y1 < y' <= y2`. */
  function WindowSum(gray: Grid<int>, win: Window): int
    requires gray.Valid()
    requires 0 <= win.x1 && win.x2 < gray.width && 0 <= win.y1 && win.y2 < gray.height
  {
    RectSum(gray, win.x1 + 1, win.x2 + 1, win.y1 + 1, win.y2 + 1)
  }

  /** The local average defined directly from the luminance field. */
  function ReferenceAverage(gray: Grid<int>, half: nat, x: int, y: int): int
    requires gray.Valid() && gray.InBounds(x, y)
  {
    var win := ClampedWindow(gray.width, gray.height, half, x, y);
    TruncDiv(WindowSum(gray, win), PixelCount(win))
  }

  /** The colour of pixel `(x, y)` after the overlay, defined directly from the
      luminance field. */
  function ReferenceComposite(pixels: Grid<Rgb>, gray: Grid<int>, half: nat, threshold: int, x: int, y: int): Rgb
    requires pixels.Valid() && gray.Valid() && SameShape(pixels, gray) && gray.InBounds(x, y)
  {
    var average := ReferenceAverage(gray, half, x, y);
    if gray.At(x, y) < average - threshold
    then HighContrastColor((average - gray.At(x, y)) as real)
    else pixels.At(x, y)
  }

  /** Read from the integral image, the local average is the brute-force
      window sum divided by the inclusive pixel count. */
  lemma LocalAverageIsReference(integral: Grid<int>, gray: Grid<int>, half: nat, x: int, y: int)
    requires IsIntegralOf(integral, gray) && gray.InBounds(x, y)
    ensures LocalAverage(integral, half, x, y) == ReferenceAverage(gray, half, x, y)
  {
    var win := ClampedWindow(gray.width, gray.height, half, x, y);
    InclusionExclusion(integral, gray, win.x1, win.y1, win.x2, win.y2);
  }

  /** With luminance in `[0, 255]` the local average lies in `[0, 255]`. */
  lemma LocalAverageInRange(integral: Grid<int>, gray: Grid<int>, half: nat, x: int, y: int)
    requires IsIntegralOf(integral, gray) && Between(gray, 0, 255) && gray.InBounds(x, y)
    ensures 0 <= LocalAverage(integral, half, x, y) <= 255
  {
    LocalAverageIsReference(integral, gray, half, x, y);
    var win := ClampedWindow(gray.width, gray.height, half, x, y);
    var n := PixelCount(win);
    var s := WindowSum(gray, win);
    RectSumBounds(gray, 255, win.x1 + 1, win.x2 + 1, win.y1 + 1, win.y2 + 1);
    ScaledAreaBelow(255, win.x2 - win.x1, win.y2 - win.y1, n);
    QuotientAtMost(s, n, 255);
    assert ReferenceAverage(gray, half, x, y) == s / n;
  }

  lemma ScaledAreaBelow(k: nat, a: nat, b: nat, n: int)
    requires a * b < n
    ensures k * a * b <= k * n
  {
  }

  lemma QuotientAtMost(a: int, b: int, k: int)
    requires 0 <= a <= k * b && 0 < b
    ensures 0 <= a / b <= k
  {
  }

  /** With a zero half-window every window is its own pixel, the corner
      combination cancels to zero, the local average is zero, and no pixel of
      non-negative luminance is flagged for a non-negative threshold. */
  lemma NoHighlightWithoutWindow(gray: Grid<int>, integral: Grid<int>, threshold: int, x: int, y: int)
    requires gray.Valid() && integral.Valid() && SameShape(gray, integral) && gray.InBounds(x, y)
    requires NonNegative(gray) && 0 <= threshold
    ensures LocalAverage(integral, 0, x, y) == 0
    ensures !IsHighlight(gray, integral, 0, threshold, x, y)
  {
  }

  /** The pixels flagged by the detector. */
  function Highlights(gray: Grid<int>, integral: Grid<int>, half: nat, threshold: int): set<(int, int)>
    requires gray.Valid() && integral.Valid() && SameShape(gray, integral)
  {
    set x, y | 0 <= x < gray.width && 0 <= y < gray.height && IsHighlight(gray, integral, half, threshold, x, y) :: (x, y)
  }

  /** Raising the threshold never flags an extra pixel. */
  lemma ThresholdMonotone(gray: Grid<int>, integral: Grid<int>, half: nat, t1: int, t2: int)
    requires gray.Valid() && integral.Valid() && SameShape(gray, integral)
    requires t1 <= t2
    ensures Highlights(gray, integral, half, t2) <= Highlights(gray, integral, half, t1)
    ensures |Highlights(gray, integral, half, t2)| <= |Highlights(gray, integral, half, t1)|
  {
    var a, b := Highlights(gray, integral, half, t2), Highlights(gray, integral, half, t1);
    assert a <= b;
    SubsetCardinality(a, b);
  }

  lemma SubsetCardinality<T>(a: set<T>, b: set<T>)
    requires a <= b
    ensures |a| <= |b|
  {
    assert b == a + (b - a);
  }
}
