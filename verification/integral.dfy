/**
  The integral image (summed-area table) of a luminance field, built the way
  `computeIntegralImage` builds it: a running sum along each row, plus the
  entry directly above.
 */
module IntegralImage {
  import opened Grids

  /** `integral` has the shape of `gray`, and each entry is the sum of `gray`
      over every cell at or above and to the left of it. */
  ghost predicate IsIntegralOf(integral: Grid<int>, gray: Grid<int>) {
    && gray.Valid() && integral.Valid()
    && integral.width == gray.width && integral.height == gray.height
    && forall x, y :: gray.InBounds(x, y) ==> integral.At(x, y) == Prefix(gray, x, y)
  }

  /** The nested loop: row prefix sum `rowSum`, stored as is in row 0 and added
      to the entry of the row above in every later row. */
  method ComputeIntegralImage(gray: Grid<int>) returns (integral: Grid<int>)
    requires gray.Valid()
    ensures integral.Valid() && integral.width == gray.width && integral.height == gray.height
    ensures forall x, y :: gray.InBounds(x, y) ==> integral.At(x, y) == RectSum(gray, 0, x + 1, 0, y + 1)
  {
    var w, h := gray.width, gray.height;
    var acc := Filled(w, h, 0);
    var y := 0;
    while y < h
      invariant 0 <= y <= h
      invariant acc.Valid() && acc.width == w && acc.height == h
      invariant forall xx, yy :: 0 <= xx < w && 0 <= yy < y ==> acc.At(xx, yy) == Prefix(gray, xx, yy)
    {
      var rowSum := 0;
      var x := 0;
      while x < w
        invariant 0 <= x <= w
        invariant acc.Valid() && acc.width == w && acc.height == h
        invariant rowSum == RowSum(gray, y, 0, x)
        invariant forall xx, yy :: 0 <= xx < w && 0 <= yy < y ==> acc.At(xx, yy) == Prefix(gray, xx, yy)
        invariant forall xx :: 0 <= xx < x ==> acc.At(xx, y) == Prefix(gray, xx, y)
      {
        rowSum := rowSum + gray.At(x, y);
        var entry;
        assert rowSum == RowSum(gray, y, 0, x + 1);
        if y == 0 {
          entry := rowSum;
          assert RectSum(gray, 0, x + 1, 0, y) == 0;
        } else {
          entry := rowSum + acc.At(x, y - 1);
          assert acc.At(x, y - 1) == Prefix(gray, x, y - 1);
        }
        acc := acc.Set(x, y, entry);
        x := x + 1;
      }
      y := y + 1;
    }
    integral := acc;
  }

  /** Over a non-negative field the integral image never decreases to the
      right along a row, nor downwards along a column. */
  lemma IntegralMonotone(integral: Grid<int>, gray: Grid<int>)
    requires IsIntegralOf(integral, gray) && NonNegative(gray)
    ensures forall x, y :: gray.InBounds(x, y) && x + 1 < gray.width ==> integral.At(x, y) <= integral.At(x + 1, y)
    ensures forall x, y :: gray.InBounds(x, y) && y + 1 < gray.height ==> integral.At(x, y) <= integral.At(x, y + 1)
  {
    forall x, y | gray.InBounds(x, y) && x + 1 < gray.width
      ensures integral.At(x, y) <= integral.At(x + 1, y)
    {
      RectSumSplitColumns(gray, 0, x + 1, x + 2, 0, y + 1);
      RectSumNonNegative(gray, x + 1, x + 2, 0, y + 1);
    }
    forall x, y | gray.InBounds(x, y) && y + 1 < gray.height
      ensures integral.At(x, y) <= integral.At(x, y + 1)
    {
      RectSumSplitRows(gray, 0, x + 1, 0, y + 1, y + 2);
      RectSumNonNegative(gray, 0, x + 1, y + 1, y + 2);
    }
  }

  /** The four-corner combination of integral entries at corners `(x1, y1)` and
      `(x2, y2)` is the sum of `gray` over `x1 < x' <= x2`, `y1 < y' <= y2`:
      the corners' own row `y1` and column `x1` are excluded. */
  lemma InclusionExclusion(integral: Grid<int>, gray: Grid<int>, x1: int, y1: int, x2: int, y2: int)
    requires IsIntegralOf(integral, gray)
    requires 0 <= x1 <= x2 < gray.width && 0 <= y1 <= y2 < gray.height
    ensures integral.At(x2, y2) - integral.At(x2, y1) - integral.At(x1, y2) + integral.At(x1, y1)
            == RectSum(gray, x1 + 1, x2 + 1, y1 + 1, y2 + 1)
  {
    RectSumSplitRows(gray, 0, x2 + 1, 0, y1 + 1, y2 + 1);
    RectSumSplitRows(gray, 0, x1 + 1, 0, y1 + 1, y2 + 1);
    RectSumSplitColumns(gray, 0, x1 + 1, x2 + 1, y1 + 1, y2 + 1);
  }

  /** With luminance in `[0, 255]` and `255 * W * H` below `2^31`, every entry
      fits in a signed 32-bit integer, so unbounded integers model the
      source's `Int` entries faithfully. */
  lemma IntegralFitsInt32(integral: Grid<int>, gray: Grid<int>)
    requires IsIntegralOf(integral, gray) && Between(gray, 0, 255)
    requires 255 * gray.width * gray.height < 0x8000_0000
    ensures forall x, y :: gray.InBounds(x, y) ==> 0 <= integral.At(x, y) < 0x8000_0000
  {
    forall x, y | gray.InBounds(x, y)
      ensures 0 <= integral.At(x, y) < 0x8000_0000
    {
      RectSumBounds(gray, 255, 0, x + 1, 0, y + 1);
      ProductMonotone(255, x + 1, y + 1, gray.width, gray.height);
    }
  }

  lemma ProductMonotone(k: nat, a: nat, b: nat, c: nat, d: nat)
    requires a <= c && b <= d
    ensures k * a * b <= k * c * d
  {
  }
}
