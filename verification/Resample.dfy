/**
 `scale` of the icon script: pixel replication when both ratios are integral,
 area averaging otherwise. The averaging is the specification of both.
 */
module Resample {
  import opened Bytes
  import opened Windows

  // One channel of a picture: its value at row y, column x.
  type Plane = (int, int) -> byte

  function RowSum(p: Plane, y: int, x0: int, x1: int): nat
    decreases x1 - x0
  {
    if x1 <= x0 then 0 else RowSum(p, y, x0, x1 - 1) + p(y, x1 - 1)
  }

  function BoxSum(p: Plane, y0: int, y1: int, x0: int, x1: int): nat
    decreases y1 - y0
  {
    if y1 <= y0 then 0 else BoxSum(p, y0, y1 - 1, x0, x1) + RowSum(p, y1 - 1, x0, x1)
  }

  ghost predicate Within(p: Plane, y0: int, y1: int, x0: int, x1: int, low: int, high: int) {
    forall y, x :: y0 <= y < y1 && x0 <= x < x1 ==> low <= p(y, x) <= high
  }

  lemma {:induction false} RowBounds(p: Plane, y: int, x0: int, x1: int, low: int, high: int)
    requires x0 <= x1 && Within(p, y, y + 1, x0, x1, low, high)
    ensures low * (x1 - x0) <= RowSum(p, y, x0, x1) <= high * (x1 - x0)
    decreases x1 - x0
  {
    if x0 < x1 {
      RowBounds(p, y, x0, x1 - 1, low, high);
      assert low <= p(y, x1 - 1) <= high;
      assert low * (x1 - x0) == low * (x1 - 1 - x0) + low;
      assert high * (x1 - x0) == high * (x1 - 1 - x0) + high;
    }
  }

  lemma AreaStep(rows: int, width: int, value: int)
    ensures value * (rows * width) == value * ((rows - 1) * width) + value * width
  {
    var area := (rows - 1) * width;
    assert rows * width == area + width;
    assert value * (area + width) == value * area + value * width;
  }

  lemma {:induction false} BoxBounds(p: Plane, y0: int, y1: int, x0: int, x1: int, low: int, high: int)
    requires y0 <= y1 && x0 <= x1 && Within(p, y0, y1, x0, x1, low, high)
    ensures low * ((y1 - y0) * (x1 - x0)) <= BoxSum(p, y0, y1, x0, x1) <= high * ((y1 - y0) * (x1 - x0))
    decreases y1 - y0
  {
    if y0 < y1 {
      var width := x1 - x0;
      BoxBounds(p, y0, y1 - 1, x0, x1, low, high);
      RowBounds(p, y1 - 1, x0, x1, low, high);
      AreaStep(y1 - y0, width, low);
      AreaStep(y1 - y0, width, high);
    }
  }

  lemma DivBetween(sum: nat, count: nat, low: int, high: int)
    requires count > 0 && low * count <= sum <= high * count
    ensures low <= sum / count <= high
  {
    DivBounds(sum, count);
    var q := sum / count;
    MulOrder(q + 1, low, count);
    MulOrder(high + 1, q, count);
    assert (q + 1) * count == q * count + count && (high + 1) * count == high * count + count;
  }

  lemma AreaPositive(a: int, b: int)
    requires a > 0 && b > 0
    ensures a * b > 0
  {
  }

  function Average(p: Plane, y0: int, y1: int, x0: int, x1: int): byte
    requires y0 < y1 && x0 < x1
  {
    BoxBounds(p, y0, y1, x0, x1, 0, 255);
    AreaPositive(y1 - y0, x1 - x0);
    DivBetween(BoxSum(p, y0, y1, x0, x1), (y1 - y0) * (x1 - x0), 0, 255);
    BoxSum(p, y0, y1, x0, x1) / ((y1 - y0) * (x1 - x0))
  }

  /** An average lies between any bounds of what it averages. */
  lemma AverageBetween(p: Plane, y0: int, y1: int, x0: int, x1: int, low: int, high: int)
    requires y0 < y1 && x0 < x1 && Within(p, y0, y1, x0, x1, low, high)
    ensures low <= Average(p, y0, y1, x0, x1) <= high
  {
    BoxBounds(p, y0, y1, x0, x1, low, high);
    AreaPositive(y1 - y0, x1 - x0);
    DivBetween(BoxSum(p, y0, y1, x0, x1), (y1 - y0) * (x1 - x0), low, high);
  }

  // The floor of the mean of a window's values: its total over its area.
  ghost predicate IsMean(p: Plane, y0: nat, y1: nat, x0: nat, x1: nat, value: byte) {
    && y0 < y1 && x0 < x1
    && value * ((y1 - y0) * (x1 - x0)) <= BoxSum(p, y0, y1, x0, x1)
         < value * ((y1 - y0) * (x1 - x0)) + (y1 - y0) * (x1 - x0)
  }

  lemma AverageIsMean(p: Plane, y0: nat, y1: nat, x0: nat, x1: nat)
    requires y0 < y1 && x0 < x1
    ensures IsMean(p, y0, y1, x0, x1, Average(p, y0, y1, x0, x1))
  {
    AreaPositive(y1 - y0, x1 - x0);
    DivBounds(BoxSum(p, y0, y1, x0, x1), (y1 - y0) * (x1 - x0));
  }

  // Output (y, x) is the floored mean of its window of the channel.
  ghost predicate IsWindowMean(p: Plane, width: nat, height: nat, size: nat, y: nat, x: nat, value: byte) {
    exists y0: nat, y1: nat, x0: nat, x1: nat ::
      IsWindow(y, height, size, y0, y1) && IsWindow(x, width, size, x0, x1) && IsMean(p, y0, y1, x0, x1, value)
  }

  /** Every averaged value is the floored mean of the window that the output's place gives. */
  lemma AverageAtIsMean(p: Plane, width: nat, height: nat, size: nat, y: nat, x: nat)
    requires size > 0
    ensures IsWindowMean(p, width, height, size, y, x, AverageAt(p, width, height, size, y, x))
  {
    WindowIs(y, height, size);
    WindowIs(x, width, size);
    AverageIsMean(p, Lo(y, height, size), Hi(y, height, size), Lo(x, width, size), Hi(x, width, size));
  }

  // The averaged value of output pixel (y, x) for a source of `width` by `height`.
  function AverageAt(p: Plane, width: nat, height: nat, size: nat, y: nat, x: nat): byte
    requires size > 0
  {
    Average(p, Lo(y, height, size), Hi(y, height, size), Lo(x, width, size), Hi(x, width, size))
  }

  /**
   The windows of an output pixel stay inside the picture, and its value lies
   between the least and greatest value it looked at.
   */
  lemma ScaledBetween(p: Plane, width: nat, height: nat, size: nat, y: nat, x: nat, low: int, high: int)
    requires width > 0 && height > 0 && y < size && x < size
    requires Within(p, Lo(y, height, size), Hi(y, height, size), Lo(x, width, size), Hi(x, width, size), low, high)
    ensures 0 <= Lo(y, height, size) < Hi(y, height, size) <= height
    ensures 0 <= Lo(x, width, size) < Hi(x, width, size) <= width
    ensures low <= AverageAt(p, width, height, size, y, x) <= high
  {
    WindowInRange(y, height, size);
    WindowInRange(x, width, size);
    AverageBetween(p, Lo(y, height, size), Hi(y, height, size), Lo(x, width, size), Hi(x, width, size), low, high);
  }

  // ---- Conservation ----

  lemma {:induction false} RowSumSplit(p: Plane, y: int, a: int, b: int, c: int)
    requires a <= b <= c
    ensures RowSum(p, y, a, b) + RowSum(p, y, b, c) == RowSum(p, y, a, c)
    decreases c - b
  {
    if b < c {
      RowSumSplit(p, y, a, b, c - 1);
    }
  }

  lemma {:induction false} BoxSumSplitX(p: Plane, y0: int, y1: int, a: int, b: int, c: int)
    requires a <= b <= c
    ensures BoxSum(p, y0, y1, a, b) + BoxSum(p, y0, y1, b, c) == BoxSum(p, y0, y1, a, c)
    decreases y1 - y0
  {
    if y0 < y1 {
      BoxSumSplitX(p, y0, y1 - 1, a, b, c);
      RowSumSplit(p, y1 - 1, a, b, c);
    }
  }

  lemma {:induction false} BoxSumSplitY(p: Plane, a: int, b: int, c: int, x0: int, x1: int)
    requires a <= b <= c
    ensures BoxSum(p, a, b, x0, x1) + BoxSum(p, b, c, x0, x1) == BoxSum(p, a, c, x0, x1)
    decreases c - b
  {
    if b < c {
      BoxSumSplitY(p, a, b, c - 1, x0, x1);
    }
  }

  lemma {:induction false} BoxSumEmpty(p: Plane, y0: int, y1: int, x: int)
    ensures BoxSum(p, y0, y1, x, x) == 0
    decreases y1 - y0
  {
    if y0 < y1 {
      BoxSumEmpty(p, y0, y1 - 1, x);
    }
  }

  // The window totals of the first `xs` outputs of a row of windows.
  function AcrossTotal(p: Plane, y0: int, y1: int, width: nat, size: nat, xs: nat): nat
    requires size > 0
  {
    if xs == 0 then 0 else
      AcrossTotal(p, y0, y1, width, size, xs - 1)
        + BoxSum(p, y0, y1, Lo(xs - 1, width, size), Hi(xs - 1, width, size))
  }

  // The window totals of the first `ys` rows of outputs.
  function WindowTotal(p: Plane, width: nat, height: nat, size: nat, ys: nat): nat
    requires size > 0
  {
    if ys == 0 then 0 else
      WindowTotal(p, width, height, size, ys - 1)
        + AcrossTotal(p, Lo(ys - 1, height, size), Hi(ys - 1, height, size), width, size, size)
  }

  lemma {:induction false} AcrossTelescopes(p: Plane, y0: int, y1: int, width: nat, size: nat, xs: nat)
    requires 0 < size <= width
    ensures AcrossTotal(p, y0, y1, width, size, xs) == BoxSum(p, y0, y1, 0, Lo(xs, width, size))
  {
    LoEnds(width, size);
    if xs == 0 {
      BoxSumEmpty(p, y0, y1, 0);
    } else {
      AcrossTelescopes(p, y0, y1, width, size, xs - 1);
      WindowsMeet(xs - 1, width, size);
      BoxSumSplitX(p, y0, y1, 0, Lo(xs - 1, width, size), Lo(xs, width, size));
    }
  }

  lemma {:induction false} DownTelescopes(p: Plane, width: nat, height: nat, size: nat, ys: nat)
    requires 0 < size <= width && size <= height
    ensures WindowTotal(p, width, height, size, ys) == BoxSum(p, 0, Lo(ys, height, size), 0, width)
  {
    LoEnds(height, size);
    LoEnds(width, size);
    if ys > 0 {
      DownTelescopes(p, width, height, size, ys - 1);
      WindowsMeet(ys - 1, height, size);
      AcrossTelescopes(p, Lo(ys - 1, height, size), Lo(ys, height, size), width, size, size);
      BoxSumSplitY(p, 0, Lo(ys - 1, height, size), Lo(ys, height, size), 0, width);
    }
  }

  /** Shrinking loses nothing: the window totals of all outputs add up to the whole channel. */
  lemma WindowTotalsConserve(p: Plane, width: nat, height: nat, size: nat)
    requires 0 < size <= width && size <= height
    ensures WindowTotal(p, width, height, size, size) == BoxSum(p, 0, height, 0, width)
  {
    LoEnds(height, size);
    DownTelescopes(p, width, height, size, size);
  }

  // ---- The fast branch refines the general one ----

  lemma AverageOfOne(p: Plane, y: int, x: int)
    ensures Average(p, y, y + 1, x, x + 1) == p(y, x)
  {
    AverageBetween(p, y, y + 1, x, x + 1, p(y, x), p(y, x));
  }

  /** When both ratios are integral the average is the replicated source pixel. */
  lemma ReplicationIsAverage(p: Plane, width: nat, height: nat, size: nat, y: nat, x: nat)
    requires width > 0 && height > 0 && size > 0 && size % width == 0 && size % height == 0
    ensures size / width > 0 && size / height > 0
    ensures AverageAt(p, width, height, size, y, x) == p(y / (size / height), x / (size / width))
  {
    WindowOfFactor(x, width, size);
    WindowOfFactor(y, height, size);
    AverageOfOne(p, Lo(y, height, size), Lo(x, width, size));
  }

  /** Averaging k by k blocks of a plane made of k by k blocks gives the block's value. */
  lemma BlockAverage(p: Plane, q: Plane, n: nat, k: nat, y: nat, x: nat)
    requires n > 0 && k > 0
    requires forall y', x' :: y * k <= y' < y * k + k && x * k <= x' < x * k + k ==> q(y', x') == p(y, x)
    ensures AverageAt(q, k * n, k * n, n, y, x) == p(y, x)
  {
    LoOfDivisor(y, n, k);
    LoOfDivisor(x, n, k);
    LoOfDivisor(y + 1, n, k);
    LoOfDivisor(x + 1, n, k);
    assert k * (y + 1) == y * k + k && k * (x + 1) == x * k + k;
    AverageBetween(q, y * k, y * k + k, x * k, x * k + k, p(y, x), p(y, x));
  }
}
