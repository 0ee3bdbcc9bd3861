/**
  `findAndOverlaySharpHighlights` end to end: the luminance of the original
  frame, its integral image, the half-window derived from the frame width,
  and the overlay onto the backdrop (the blue-tinted copy of the frame,
  taken here as an input).
 */
module Pipeline {
  import opened Grids
  import opened IntegralImage
  import opened Colors
  import opened Detector

  /** Every pixel of the frame has channels in `[0, 255]`. */
  ghost predicate AllInGamut(g: Grid<Rgb>)
    requires g.Valid()
  {
    forall x, y :: g.InBounds(x, y) ==> g.At(x, y).InGamut()
  }

  /** The grey array of the original frame: the luminance of each pixel. */
  function GrayField(original: Grid<Rgb>): (gray: Grid<int>)
    requires original.Valid() && AllInGamut(original)
    ensures gray.Valid() && SameShape(gray, original)
    ensures forall x, y :: original.InBounds(x, y) ==> gray.At(x, y) == Luminance(original.At(x, y))
    ensures Between(gray, 0, 255)
  {
    var n := |original.cells|;
    assert forall i :: 0 <= i < n ==> original.cells[i].InGamut() by {
      forall i | 0 <= i < n
        ensures original.cells[i].InGamut()
      {
        IndexCovers(original.width, original.height, i);
        assert original.cells[i] == original.At(i % original.width, i / original.width);
      }
    }
    var gray := Grid(original.width, original.height, seq(n, i requires 0 <= i < n => Luminance(original.cells[i])));
    assert forall x, y :: original.InBounds(x, y) ==> gray.At(x, y) == Luminance(original.At(x, y)) by {
      forall x, y | original.InBounds(x, y)
        ensures gray.At(x, y) == Luminance(original.At(x, y))
      {
        IndexInRange(original.width, original.height, x, y);
      }
    }
    assert Between(gray, 0, 255) by {
      forall x, y | gray.InBounds(x, y)
        ensures 0 <= gray.At(x, y) <= 255
      {
        IndexInRange(original.width, original.height, x, y);
        assert gray.At(x, y) == Luminance(original.At(x, y));
      }
    }
    gray
  }

  /** The whole detection pass. Each output pixel is the backdrop pixel unless
      the original's luminance there is more than `threshold` below the
      brute-force local average, in which case it is the gradient colour of
      the difference. A frame narrower than twice the ratio (24 pixels by
      default) comes back unchanged for a non-negative threshold. */
  method FindAndOverlaySharpHighlights(base: Grid<Rgb>, original: Grid<Rgb>, ratio: nat, threshold: int)
    returns (out: Grid<Rgb>)
    requires base.Valid() && original.Valid() && SameShape(base, original)
    requires AllInGamut(original) && 0 < ratio
    ensures out.Valid() && SameShape(out, base)
    ensures forall x, y :: base.InBounds(x, y) ==>
              out.At(x, y) == ReferenceComposite(base, GrayField(original), HalfBlock(base.width, ratio), threshold, x, y)
    ensures base.width < 2 * ratio && 0 <= threshold ==> out == base
  {
    var gray := GrayField(original);
    var integral := ComputeIntegralImage(gray);
    var half := HalfBlock(base.width, ratio);
    out := OverlayHighlights(base, gray, integral, half, threshold);
    forall x, y | base.InBounds(x, y)
      ensures out.At(x, y) == ReferenceComposite(base, gray, half, threshold, x, y)
    {
      LocalAverageIsReference(integral, gray, half, x, y);
    }
    if base.width < 2 * ratio && 0 <= threshold {
      HalfBlockZeroIfNarrow(base.width, ratio);
      assert NonNegative(gray);
      forall x, y | base.InBounds(x, y)
        ensures out.At(x, y) == base.At(x, y)
      {
        NoHighlightWithoutWindow(gray, integral, threshold, x, y);
      }
      Extensionality(out, base);
    }
  }

  /** A 4 x 4 luminance field: two dark and two bright quadrants. */
  function Quadrants(): Grid<int> {
    Grid(4, 4, [ 50,  50, 200, 200,
                 50,  50, 200, 200,
                200, 200,  50,  50,
                200, 200,  50,  50])
  }

  /** Its total luminance is 2000. */
  lemma QuadrantsTotal()
    ensures Prefix(Quadrants(), 3, 3) == 2000
  {
  }

  /** The dark pixel (1, 1) borders both bright quadrants, yet with half-window
      1 and the default threshold it is not flagged: the corner combination
      sums only the window's lower-right 2 x 2 block (500) while the count
      keeps all 9 pixels, giving 55, whereas the mean over the whole 3 x 3
      window would be 116. */
  lemma QuadrantsInnerDarkPixelNotFlagged()
    ensures ReferenceAverage(Quadrants(), 1, 1, 1) == 55
    ensures !(Quadrants().At(1, 1) < ReferenceAverage(Quadrants(), 1, 1, 1) - AdaptiveThresholdConstant)
    ensures RectSum(Quadrants(), 0, 3, 0, 3) / 9 == 116
  {
    assert ClampedWindow(4, 4, 1, 1, 1) == Window(0, 0, 2, 2);
    assert WindowSum(Quadrants(), Window(0, 0, 2, 2)) == 500;
  }

  /** The other fifteen pixels, one lemma each: the clamped window, the sum
      the corner combination covers, and the resulting average. */
  lemma QuadrantsPixel00()
    ensures ReferenceAverage(Quadrants(), 1, 0, 0) == 12
    ensures !(Quadrants().At(0, 0) < ReferenceAverage(Quadrants(), 1, 0, 0) - AdaptiveThresholdConstant)
  {
    assert ClampedWindow(4, 4, 1, 0, 0) == Window(0, 0, 1, 1);
    assert WindowSum(Quadrants(), Window(0, 0, 1, 1)) == 50;
  }

  lemma QuadrantsPixel10()
    ensures ReferenceAverage(Quadrants(), 1, 1, 0) == 41
    ensures !(Quadrants().At(1, 0) < ReferenceAverage(Quadrants(), 1, 1, 0) - AdaptiveThresholdConstant)
  {
    assert ClampedWindow(4, 4, 1, 1, 0) == Window(0, 0, 2, 1);
    assert WindowSum(Quadrants(), Window(0, 0, 2, 1)) == 250;
  }

  lemma QuadrantsPixel20()
    ensures ReferenceAverage(Quadrants(), 1, 2, 0) == 66
    ensures !(Quadrants().At(2, 0) < ReferenceAverage(Quadrants(), 1, 2, 0) - AdaptiveThresholdConstant)
  {
    assert ClampedWindow(4, 4, 1, 2, 0) == Window(1, 0, 3, 1);
    assert WindowSum(Quadrants(), Window(1, 0, 3, 1)) == 400;
  }

  lemma QuadrantsPixel30()
    ensures ReferenceAverage(Quadrants(), 1, 3, 0) == 50
    ensures !(Quadrants().At(3, 0) < ReferenceAverage(Quadrants(), 1, 3, 0) - AdaptiveThresholdConstant)
  {
    assert ClampedWindow(4, 4, 1, 3, 0) == Window(2, 0, 3, 1);
    assert WindowSum(Quadrants(), Window(2, 0, 3, 1)) == 200;
  }

  lemma QuadrantsPixel01()
    ensures ReferenceAverage(Quadrants(), 1, 0, 1) == 41
    ensures !(Quadrants().At(0, 1) < ReferenceAverage(Quadrants(), 1, 0, 1) - AdaptiveThresholdConstant)
  {
    assert ClampedWindow(4, 4, 1, 0, 1) == Window(0, 0, 1, 2);
    assert WindowSum(Quadrants(), Window(0, 0, 1, 2)) == 250;
  }

  lemma QuadrantsPixel21()
    ensures ReferenceAverage(Quadrants(), 1, 2, 1) == 55
    ensures !(Quadrants().At(2, 1) < ReferenceAverage(Quadrants(), 1, 2, 1) - AdaptiveThresholdConstant)
  {
    assert ClampedWindow(4, 4, 1, 2, 1) == Window(1, 0, 3, 2);
    assert WindowSum(Quadrants(), Window(1, 0, 3, 2)) == 500;
  }

  lemma QuadrantsPixel31()
    ensures ReferenceAverage(Quadrants(), 1, 3, 1) == 41
    ensures !(Quadrants().At(3, 1) < ReferenceAverage(Quadrants(), 1, 3, 1) - AdaptiveThresholdConstant)
  {
    assert ClampedWindow(4, 4, 1, 3, 1) == Window(2, 0, 3, 2);
    assert WindowSum(Quadrants(), Window(2, 0, 3, 2)) == 250;
  }

  lemma QuadrantsPixel02()
    ensures ReferenceAverage(Quadrants(), 1, 0, 2) == 66
    ensures !(Quadrants().At(0, 2) < ReferenceAverage(Quadrants(), 1, 0, 2) - AdaptiveThresholdConstant)
  {
    assert ClampedWindow(4, 4, 1, 0, 2) == Window(0, 1, 1, 3);
    assert WindowSum(Quadrants(), Window(0, 1, 1, 3)) == 400;
  }

  lemma QuadrantsPixel12()
    ensures ReferenceAverage(Quadrants(), 1, 1, 2) == 55
    ensures !(Quadrants().At(1, 2) < ReferenceAverage(Quadrants(), 1, 1, 2) - AdaptiveThresholdConstant)
  {
    assert ClampedWindow(4, 4, 1, 1, 2) == Window(0, 1, 2, 3);
    assert WindowSum(Quadrants(), Window(0, 1, 2, 3)) == 500;
  }

  lemma QuadrantsPixel22()
    ensures ReferenceAverage(Quadrants(), 1, 2, 2) == 22
    ensures !(Quadrants().At(2, 2) < ReferenceAverage(Quadrants(), 1, 2, 2) - AdaptiveThresholdConstant)
  {
    assert ClampedWindow(4, 4, 1, 2, 2) == Window(1, 1, 3, 3);
    assert WindowSum(Quadrants(), Window(1, 1, 3, 3)) == 200;
  }

  lemma QuadrantsPixel32()
    ensures ReferenceAverage(Quadrants(), 1, 3, 2) == 16
    ensures !(Quadrants().At(3, 2) < ReferenceAverage(Quadrants(), 1, 3, 2) - AdaptiveThresholdConstant)
  {
    assert ClampedWindow(4, 4, 1, 3, 2) == Window(2, 1, 3, 3);
    assert WindowSum(Quadrants(), Window(2, 1, 3, 3)) == 100;
  }

  lemma QuadrantsPixel03()
    ensures ReferenceAverage(Quadrants(), 1, 0, 3) == 50
    ensures !(Quadrants().At(0, 3) < ReferenceAverage(Quadrants(), 1, 0, 3) - AdaptiveThresholdConstant)
  {
    assert ClampedWindow(4, 4, 1, 0, 3) == Window(0, 2, 1, 3);
    assert WindowSum(Quadrants(), Window(0, 2, 1, 3)) == 200;
  }

  lemma QuadrantsPixel13()
    ensures ReferenceAverage(Quadrants(), 1, 1, 3) == 41
    ensures !(Quadrants().At(1, 3) < ReferenceAverage(Quadrants(), 1, 1, 3) - AdaptiveThresholdConstant)
  {
    assert ClampedWindow(4, 4, 1, 1, 3) == Window(0, 2, 2, 3);
    assert WindowSum(Quadrants(), Window(0, 2, 2, 3)) == 250;
  }

  lemma QuadrantsPixel23()
    ensures ReferenceAverage(Quadrants(), 1, 2, 3) == 16
    ensures !(Quadrants().At(2, 3) < ReferenceAverage(Quadrants(), 1, 2, 3) - AdaptiveThresholdConstant)
  {
    assert ClampedWindow(4, 4, 1, 2, 3) == Window(1, 2, 3, 3);
    assert WindowSum(Quadrants(), Window(1, 2, 3, 3)) == 100;
  }

  lemma QuadrantsPixel33()
    ensures ReferenceAverage(Quadrants(), 1, 3, 3) == 12
    ensures !(Quadrants().At(3, 3) < ReferenceAverage(Quadrants(), 1, 3, 3) - AdaptiveThresholdConstant)
  {
    assert ClampedWindow(4, 4, 1, 3, 3) == Window(2, 2, 3, 3);
    assert WindowSum(Quadrants(), Window(2, 2, 3, 3)) == 50;
  }

  /** No pixel of the quadrant field passes the detection test with
      half-window 1 and the default threshold. */
  lemma QuadrantsPixelNotFlagged(x: int, y: int)
    requires 0 <= x < 4 && 0 <= y < 4
    ensures !(Quadrants().At(x, y) < ReferenceAverage(Quadrants(), 1, x, y) - AdaptiveThresholdConstant)
  {
    if x == 0 && y == 0 {
      QuadrantsPixel00();
    } else if x == 1 && y == 0 {
      QuadrantsPixel10();
    } else if x == 2 && y == 0 {
      QuadrantsPixel20();
    } else if x == 3 && y == 0 {
      QuadrantsPixel30();
    } else if x == 0 && y == 1 {
      QuadrantsPixel01();
    } else if x == 1 && y == 1 {
      QuadrantsInnerDarkPixelNotFlagged();
    } else if x == 2 && y == 1 {
      QuadrantsPixel21();
    } else if x == 3 && y == 1 {
      QuadrantsPixel31();
    } else if x == 0 && y == 2 {
      QuadrantsPixel02();
    } else if x == 1 && y == 2 {
      QuadrantsPixel12();
    } else if x == 2 && y == 2 {
      QuadrantsPixel22();
    } else if x == 3 && y == 2 {
      QuadrantsPixel32();
    } else if x == 0 && y == 3 {
      QuadrantsPixel03();
    } else if x == 1 && y == 3 {
      QuadrantsPixel13();
    } else if x == 2 && y == 3 {
      QuadrantsPixel23();
    } else {
      QuadrantsPixel33();
    }
  }

  /** Read from a correct integral image, the detector flags no pixel of the
      quadrant field with half-window 1 and the default threshold. */
  lemma QuadrantsNoneFlagged(integral: Grid<int>)
    requires IsIntegralOf(integral, Quadrants())
    ensures Highlights(Quadrants(), integral, 1, AdaptiveThresholdConstant) == {}
  {
    forall x, y | 0 <= x < 4 && 0 <= y < 4
      ensures !IsHighlight(Quadrants(), integral, 1, AdaptiveThresholdConstant, x, y)
    {
      LocalAverageIsReference(integral, Quadrants(), 1, x, y);
      QuadrantsPixelNotFlagged(x, y);
    }
  }
}
