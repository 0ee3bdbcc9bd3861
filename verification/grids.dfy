/**
  Row-major two-dimensional fields stored as one flat sequence, the layout
  the highlight pipeline uses for its pixel, luminance and integral arrays:
  the cell of column `x` and row `y` lives at index `y * width + x`.

  Also the brute-force sums over rectangles of an integer field, against
  which the integral image and the windowed averages are checked.
 */
module Grids {

  /** A `width` x `height` field; `cells` is row-major, origin top-left. */
  datatype Grid<T> = Grid(width: nat, height: nat, cells: seq<T>) {

    predicate Valid() {
      |cells| == width * height
    }

    predicate InBounds(x: int, y: int) {
      0 <= x < width && 0 <= y < height
    }

    /** The cell at column `x`, row `y` (the source's `a[y * width + x]`). */
    function At(x: int, y: int): T
      requires Valid() && InBounds(x, y)
    {
      IndexInRange(width, height, x, y);
      cells[Index(width, x, y)]
    }

    /** The field after the assignment `a[y * width + x] = v`. */
    function Set(x: int, y: int, v: T): (g: Grid<T>)
      requires Valid() && InBounds(x, y)
      ensures g.Valid() && g.width == width && g.height == height
      ensures g.At(x, y) == v
      ensures forall xx, yy :: InBounds(xx, yy) && (xx != x || yy != y) ==> g.At(xx, yy) == At(xx, yy)
    {
      IndexInRange(width, height, x, y);
      var g := Grid(width, height, cells[Index(width, x, y) := v]);
      assert forall xx, yy :: InBounds(xx, yy) && (xx != x || yy != y) ==> g.At(xx, yy) == At(xx, yy) by {
        forall xx, yy | InBounds(xx, yy) && (xx != x || yy != y)
          ensures g.At(xx, yy) == At(xx, yy)
        {
          IndexInRange(width, height, xx, yy);
          IndexInjective(width, height, x, y, xx, yy);
        }
      }
      g
    }
  }

  /** A fresh `w` x `h` field holding `v` everywhere (the source's `IntArray(w * h)`). */
  function Filled<T>(w: nat, h: nat, v: T): (g: Grid<T>)
    ensures g.Valid() && g.width == w && g.height == h
    ensures forall x, y :: g.InBounds(x, y) ==> g.At(x, y) == v
  {
    var g := Grid(w, h, seq(w * h, _ => v));
    assert forall x, y :: g.InBounds(x, y) ==> g.At(x, y) == v by {
      forall x, y | g.InBounds(x, y) ensures g.At(x, y) == v {
        IndexInRange(w, h, x, y);
      }
    }
    g
  }

  /** The row-major flat index `y * w + x`, written as `y` additions of `w`
      so that the solver unfolds it only on demand. */
  function Index(w: nat, x: nat, y: nat): nat
  {
    if y == 0 then x else Index(w, x, y - 1) + w
  }

  lemma {:induction false} IndexIsRowMajor(w: nat, x: nat, y: nat)
    ensures Index(w, x, y) == y * w + x
  {
    if y > 0 {
      IndexIsRowMajor(w, x, y - 1);
    }
  }

  /** The flat index of an in-bounds cell is a valid index of the cell sequence. */
  lemma IndexInRange(w: nat, h: nat, x: int, y: int)
    requires 0 <= x < w && 0 <= y < h
    ensures Index(w, x, y) < w * h
  {
    IndexIsRowMajor(w, x, y);
    assert y * w <= (h - 1) * w;
  }

  /** Distinct in-bounds cells have distinct flat indices. */
  lemma IndexInjective(w: nat, h: nat, x: int, y: int, x': int, y': int)
    requires 0 <= x < w && 0 <= y < h && 0 <= x' < w && 0 <= y' < h
    requires x != x' || y != y'
    ensures Index(w, x, y) != Index(w, x', y')
  {
  }

  /** Every cell of `g` lies in `[lo, hi]`. */
  ghost predicate Between(g: Grid<int>, lo: int, hi: int)
    requires g.Valid()
  {
    forall x, y :: g.InBounds(x, y) ==> lo <= g.At(x, y) <= hi
  }

  /** Every cell of `g` is at least zero. */
  ghost predicate NonNegative(g: Grid<int>)
    requires g.Valid()
  {
    forall x, y :: g.InBounds(x, y) ==> 0 <= g.At(x, y)
  }

  /** Brute-force sum of row `y` over the columns `x0 <= x < x1`. */
  function RowSum(g: Grid<int>, y: int, x0: int, x1: int): int
    requires g.Valid() && 0 <= y < g.height && 0 <= x0 && x1 <= g.width
    decreases x1 - x0
  {
    if x1 <= x0 then 0 else RowSum(g, y, x0, x1 - 1) + g.At(x1 - 1, y)
  }

  /** Brute-force sum over the rectangle `x0 <= x < x1`, `y0 <= y < y1`. */
  function RectSum(g: Grid<int>, x0: int, x1: int, y0: int, y1: int): int
    requires g.Valid() && 0 <= x0 && x1 <= g.width && 0 <= y0 && y1 <= g.height
    decreases y1 - y0
  {
    if y1 <= y0 then 0 else RectSum(g, x0, x1, y0, y1 - 1) + RowSum(g, y1 - 1, x0, x1)
  }

  /** Sum over every cell at or above and to the left of `(x, y)`: the summed-area value. */
  function Prefix(g: Grid<int>, x: int, y: int): int
    requires g.Valid() && g.InBounds(x, y)
  {
    RectSum(g, 0, x + 1, 0, y + 1)
  }

  /** A row sum splits at any column in between. */
  lemma {:induction false} RowSumSplit(g: Grid<int>, y: int, x0: int, m: int, x1: int)
    requires g.Valid() && 0 <= y < g.height && 0 <= x0 <= m <= x1 <= g.width
    ensures RowSum(g, y, x0, x1) == RowSum(g, y, x0, m) + RowSum(g, y, m, x1)
    decreases x1 - m
  {
    if m < x1 {
      RowSumSplit(g, y, x0, m, x1 - 1);
    }
  }

  /** A rectangle sum splits at any column in between. */
  lemma {:induction false} RectSumSplitColumns(g: Grid<int>, x0: int, m: int, x1: int, y0: int, y1: int)
    requires g.Valid() && 0 <= x0 <= m <= x1 <= g.width && 0 <= y0 && y1 <= g.height
    ensures RectSum(g, x0, x1, y0, y1) == RectSum(g, x0, m, y0, y1) + RectSum(g, m, x1, y0, y1)
    decreases y1 - y0
  {
    if y0 < y1 {
      RectSumSplitColumns(g, x0, m, x1, y0, y1 - 1);
      RowSumSplit(g, y1 - 1, x0, m, x1);
    }
  }

  /** A rectangle sum splits at any row in between. */
  lemma {:induction false} RectSumSplitRows(g: Grid<int>, x0: int, x1: int, y0: int, m: int, y1: int)
    requires g.Valid() && 0 <= x0 && x1 <= g.width && 0 <= y0 <= m <= y1 <= g.height
    ensures RectSum(g, x0, x1, y0, y1) == RectSum(g, x0, x1, y0, m) + RectSum(g, x0, x1, m, y1)
    decreases y1 - m
  {
    if m < y1 {
      RectSumSplitRows(g, x0, x1, y0, m, y1 - 1);
    }
  }

  /** Over a non-negative field every row sum is non-negative. */
  lemma {:induction false} RowSumNonNegative(g: Grid<int>, y: int, x0: int, x1: int)
    requires g.Valid() && NonNegative(g) && 0 <= y < g.height && 0 <= x0 && x1 <= g.width
    ensures 0 <= RowSum(g, y, x0, x1)
    decreases x1 - x0
  {
    if x0 < x1 {
      RowSumNonNegative(g, y, x0, x1 - 1);
    }
  }

  /** Over a non-negative field every rectangle sum is non-negative. */
  lemma {:induction false} RectSumNonNegative(g: Grid<int>, x0: int, x1: int, y0: int, y1: int)
    requires g.Valid() && NonNegative(g) && 0 <= x0 && x1 <= g.width && 0 <= y0 && y1 <= g.height
    ensures 0 <= RectSum(g, x0, x1, y0, y1)
    decreases y1 - y0
  {
    if y0 < y1 {
      RectSumNonNegative(g, x0, x1, y0, y1 - 1);
      RowSumNonNegative(g, y1 - 1, x0, x1);
    }
  }

  /** With every cell in `[0, hi]`, a row sum over `n` columns lies in `[0, hi * n]`. */
  lemma {:induction false} RowSumBounds(g: Grid<int>, hi: int, y: int, x0: int, x1: int)
    requires g.Valid() && Between(g, 0, hi) && 0 <= y < g.height && 0 <= x0 <= x1 <= g.width
    ensures 0 <= RowSum(g, y, x0, x1) <= hi * (x1 - x0)
    decreases x1 - x0
  {
    RowSumNonNegative(g, y, x0, x1);
    if x0 < x1 {
      RowSumBounds(g, hi, y, x0, x1 - 1);
      assert hi * (x1 - x0) == hi * (x1 - 1 - x0) + hi;
    }
  }

  /** With every cell in `[0, hi]`, a rectangle sum lies in `[0, hi * area]`. */
  lemma {:induction false} RectSumBounds(g: Grid<int>, hi: int, x0: int, x1: int, y0: int, y1: int)
    requires g.Valid() && Between(g, 0, hi) && 0 <= x0 <= x1 <= g.width && 0 <= y0 <= y1 <= g.height
    ensures 0 <= RectSum(g, x0, x1, y0, y1) <= hi * (x1 - x0) * (y1 - y0)
    decreases y1 - y0
  {
    RectSumNonNegative(g, x0, x1, y0, y1);
    if y0 < y1 {
      RectSumBounds(g, hi, x0, x1, y0, y1 - 1);
      RowSumBounds(g, hi, y1 - 1, x0, x1);
      assert hi * (x1 - x0) * (y1 - y0) == hi * (x1 - x0) * (y1 - 1 - y0) + hi * (x1 - x0);
    }
  }

  /** Two fields of the same width and height. */
  predicate SameShape<A, B>(a: Grid<A>, b: Grid<B>) {
    a.width == b.width && a.height == b.height
  }

  /** Every flat index is the index of exactly the cell in column `i % w`, row `i / w`. */
  lemma IndexCovers(w: nat, h: nat, i: int)
    requires 0 <= i < w * h
    ensures 0 < w && 0 <= i % w < w && 0 <= i / w < h && Index(w, i % w, i / w) == i
  {
    var q, r := i / w, i % w;
    assert i == q * w + r;
    IndexIsRowMajor(w, r, q);
  }

  /** Fields of one shape that agree on every cell are equal. */
  lemma Extensionality<T>(a: Grid<T>, b: Grid<T>)
    requires a.Valid() && b.Valid() && SameShape(a, b)
    requires forall x, y :: a.InBounds(x, y) ==> a.At(x, y) == b.At(x, y)
    ensures a == b
  {
    forall i | 0 <= i < |a.cells|
      ensures a.cells[i] == b.cells[i]
    {
      IndexCovers(a.width, a.height, i);
      assert a.At(i % a.width, i / a.width) == b.At(i % a.width, i / a.width);
    }
  }
}
