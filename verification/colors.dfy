/**
  Colour arithmetic of the pipeline: the perceptual luminance of a pixel and
  the blue -> red -> yellow gradient that renders a highlight's strength.

  The source computes both in `Double`/`Float` and truncates with `toInt()`;
  here the arithmetic is exact (`real`) and the truncation is explicit.
 */
module Colors {

  /** One pixel's colour channels (alpha is not modelled). */
  datatype Rgb = Rgb(r: int, g: int, b: int) {
    predicate InGamut() {
      0 <= r <= 255 && 0 <= g <= 255 && 0 <= b <= 255
    }
  }

  /** Kotlin's `toInt()` on a floating-point value: rounds toward zero. */
  function Truncate(v: real): (n: int)
    ensures 0.0 <= v ==> 0 <= n && n as real <= v < n as real + 1.0
    ensures v < 0.0 ==> n <= 0 && n as real - 1.0 < v <= n as real
  {
    if v >= 0.0 then v.Floor else -((-v).Floor)
  }

  /** Kotlin's `coerceIn(lo, hi)` on a floating-point value. */
  function ClampReal(v: real, lo: real, hi: real): (c: real)
    requires lo <= hi
    ensures lo <= c <= hi
    ensures lo <= v <= hi ==> c == v
    ensures v < lo ==> c == lo
    ensures hi < v ==> c == hi
  {
    if v < lo then lo else if hi < v then hi else v
  }

  /** Grey level of a pixel: the weighted sum `0.299 R + 0.587 G + 0.114 B`,
      truncated. The weights sum to one, so the result is again a channel value. */
  function Luminance(c: Rgb): (v: int)
    requires c.InGamut()
    ensures 0 <= v <= 255
    ensures c.r == c.g == c.b ==> v == c.r
  {
    Truncate(0.299 * c.r as real + 0.587 * c.g as real + 0.114 * c.b as real)
  }

  /** Luminance in integer arithmetic: the weights in thousandths, floored. */
  lemma LuminanceInThousandths(c: Rgb)
    requires c.InGamut()
    ensures Luminance(c) == (299 * c.r + 587 * c.g + 114 * c.b) / 1000
  {
    var n := 299 * c.r + 587 * c.g + 114 * c.b;
    FloorOfQuotient(n, 1000);
    assert 0.299 * c.r as real + 0.587 * c.g as real + 0.114 * c.b as real == n as real / 1000.0;
  }

  /** Raising any one channel never lowers the luminance. */
  lemma LuminanceMonotone(c: Rgb, d: Rgb)
    requires c.InGamut() && d.InGamut()
    requires c.r <= d.r && c.g <= d.g && c.b <= d.b
    ensures Luminance(c) <= Luminance(d)
  {
    LuminanceInThousandths(c);
    LuminanceInThousandths(d);
  }

  /** The divisor that turns a luminance difference into a confidence. */
  const ConfidenceScale: real := 80.0

  /** `getHighContrastColor`: confidence `difference / 80` clamped to `[0, 1]`;
      below one half the colour runs from blue to red, from one half on it runs
      from red to yellow. */
  function HighContrastColor(difference: real): (c: Rgb)
    ensures c.InGamut()
    ensures difference <= 0.0 ==> c == Rgb(0, 0, 255)
    ensures difference == ConfidenceScale / 2.0 ==> c == Rgb(255, 0, 0)
    ensures difference >= ConfidenceScale ==> c == Rgb(255, 255, 0)
    ensures difference < ConfidenceScale / 2.0 ==> c.g == 0 && c.r + c.b == 255
    ensures difference >= ConfidenceScale / 2.0 ==> c.r == 255 && c.b == 0
  {
    var confidence := ClampReal(difference / ConfidenceScale, 0.0, 1.0);
    if confidence < 0.5 then
      var t := confidence / 0.5;
      Rgb(Truncate(255.0 * t), 0, 255 - Truncate(255.0 * t))
    else
      var t := (confidence - 0.5) / 0.5;
      Rgb(255, Truncate(255.0 * t), 0)
  }

  /** Along the whole gradient red and green never fall and blue never rises
      as the difference grows. */
  lemma HighContrastColorMonotone(d1: real, d2: real)
    requires d1 <= d2
    ensures HighContrastColor(d1).r <= HighContrastColor(d2).r
    ensures HighContrastColor(d1).g <= HighContrastColor(d2).g
    ensures HighContrastColor(d1).b >= HighContrastColor(d2).b
  {
    var c1 := ClampReal(d1 / ConfidenceScale, 0.0, 1.0);
    var c2 := ClampReal(d2 / ConfidenceScale, 0.0, 1.0);
    assert c1 <= c2;
    if c2 < 0.5 {
      FloorMonotone(255.0 * (c1 / 0.5), 255.0 * (c2 / 0.5));
    } else if 0.5 <= c1 {
      FloorMonotone(255.0 * ((c1 - 0.5) / 0.5), 255.0 * ((c2 - 0.5) / 0.5));
    }
  }

  /** The gradient on a whole-number difference, in integer arithmetic: with
      `c` the difference clamped to `[0, 80]`, red is `255 c / 40` floored
      below 40, and green is `255 (c - 40) / 40` floored from 40 on. */
  function GradientOfInt(difference: int): Rgb {
    var c := if difference < 0 then 0 else if 80 < difference then 80 else difference;
    if c < 40 then Rgb(255 * c / 40, 0, 255 - 255 * c / 40)
    else Rgb(255, 255 * (c - 40) / 40, 0)
  }

  /** On whole-number differences (the only ones the detector passes) the
      exact-rational gradient is the integer one. */
  lemma HighContrastColorOnIntegers(difference: int)
    ensures HighContrastColor(difference as real) == GradientOfInt(difference)
  {
    var c := if difference < 0 then 0 else if 80 < difference then 80 else difference;
    var confidence := ClampReal(difference as real / ConfidenceScale, 0.0, 1.0);
    assert confidence == c as real / 80.0;
    if c < 40 {
      assert 255.0 * (confidence / 0.5) == (255 * c) as real / 40.0;
      FloorOfQuotient(255 * c, 40);
    } else {
      assert 255.0 * ((confidence - 0.5) / 0.5) == (255 * (c - 40)) as real / 40.0;
      FloorOfQuotient(255 * (c - 40), 40);
    }
  }

  lemma FloorOfQuotient(n: nat, k: nat)
    requires 0 < k
    ensures (n as real / k as real).Floor == n / k
  {
    var q, r := n / k, n % k;
    assert n == q * k + r;
    assert n as real / k as real == q as real + r as real / k as real;
  }

  lemma FloorMonotone(u: real, v: real)
    requires u <= v
    ensures u.Floor <= v.Floor
  {
  }
}
