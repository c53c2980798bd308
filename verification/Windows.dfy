/**
 The integer windows an area average uses along one axis: output `i` of `size`
 covers source positions [Lo, Hi) of `n`, never empty.
 */
module Windows {

  function Lo(i: nat, n: nat, size: nat): nat
    requires size > 0
  {
    i * n / size
  }

  function Hi(i: nat, n: nat, size: nat): (hi: nat)
    requires size > 0
    ensures Lo(i, n, size) < hi
  {
    var plain := Lo(i + 1, n, size);
    if plain > Lo(i, n, size) then plain else Lo(i, n, size) + 1
  }

  // [lo, hi) is the window of output i: from the floor of i * n / size up to that of the next, or one on.
  ghost predicate IsWindow(i: nat, n: nat, size: nat, lo: nat, hi: nat) {
    && lo * size <= i * n < lo * size + size
    && (if (lo + 1) * size <= (i + 1) * n then hi * size <= (i + 1) * n < hi * size + size else hi == lo + 1)
  }

  lemma WindowIs(i: nat, n: nat, size: nat)
    requires size > 0
    ensures IsWindow(i, n, size, Lo(i, n, size), Hi(i, n, size))
  {
    var lo, plain := Lo(i, n, size), Lo(i + 1, n, size);
    DivBounds(i * n, size);
    DivBounds((i + 1) * n, size);
    MulOrder(lo + 1, plain, size);
    MulOrder(plain + 1, lo + 1, size);
    assert (plain + 1) * size == plain * size + size;
  }

  lemma DivBounds(a: nat, d: nat)
    requires d > 0
    ensures a / d * d <= a < a / d * d + d
  {
  }

  lemma MulOrder(a: int, b: int, d: nat)
    ensures a <= b ==> a * d <= b * d
  {
    if a <= b {
      assert (b - a) * d >= 0;
    }
  }

  lemma Distribute(a: int, b: int, n: int)
    ensures (a + b) * n == a * n + b * n
  {
  }

  lemma Regroup(q: int, k: int, n: int)
    ensures q * k * n == q * (k * n)
  {
  }

  lemma DivIs(a: nat, d: nat, q: nat)
    requires d > 0 && q * d <= a < q * d + d
    ensures a / d == q
  {
    DivBounds(a, d);
    var r := a / d;
    MulOrder(r + 1, q, d);
    MulOrder(q + 1, r, d);
    assert (r + 1) * d == r * d + d && (q + 1) * d == q * d + d;
  }

  lemma DivMonotone(a: nat, b: nat, d: nat)
    requires d > 0 && a <= b
    ensures a / d <= b / d
  {
    DivBounds(a, d);
    DivBounds(b, d);
    MulOrder(b / d + 1, a / d, d);
    assert (b / d + 1) * d == b / d * d + d;
  }

  lemma DivPlusOne(a: nat, d: nat)
    requires d > 0
    ensures (a + d) / d == a / d + 1
  {
    DivBounds(a, d);
    assert (a / d + 1) * d == a / d * d + d;
    DivIs(a + d, d, a / d + 1);
  }

  lemma DivLess(i: nat, n: nat, size: nat)
    requires i < size && n > 0
    ensures i * n / size < n
  {
    DivBounds(i * n, size);
    var q := i * n / size;
    MulOrder(i + 1, size, n);
    assert (i + 1) * n == i * n + n;
    MulOrder(n, q, size);
  }

  lemma LoEnds(n: nat, size: nat)
    requires size > 0
    ensures Lo(0, n, size) == 0 && Lo(size, n, size) == n
  {
    assert size * n == n * size;
    DivIs(size * n, size, n);
  }

  lemma LoMonotone(i: nat, j: nat, n: nat, size: nat)
    requires size > 0 && i <= j
    ensures Lo(i, n, size) <= Lo(j, n, size)
  {
    assert i * n <= j * n;
    DivMonotone(i * n, j * n, size);
  }

  /** Every window of every positive size lies inside the source. */
  lemma WindowInRange(i: nat, n: nat, size: nat)
    requires i < size && n > 0
    ensures 0 <= Lo(i, n, size) < Hi(i, n, size) <= n
  {
    LoEnds(n, size);
    LoMonotone(i + 1, size, n, size);
    DivLess(i, n, size);
  }

  // The last window ends with the source.
  lemma LastWindow(n: nat, size: nat)
    requires size > 0 && n > 0
    ensures Hi(size - 1, n, size) == n
  {
    LoEnds(n, size);
    WindowInRange(size - 1, n, size);
  }

  /** Shrinking: each window ends where the next begins. */
  lemma WindowsMeet(i: nat, n: nat, size: nat)
    requires 0 < size <= n
    ensures Hi(i, n, size) == Lo(i + 1, n, size)
  {
    assert (i + 1) * n == i * n + n;
    DivPlusOne(i * n, size);
    DivMonotone(i * n + size, i * n + n, size);
  }

  /** Enlarging: each window is a single source position. */
  lemma WindowIsOne(i: nat, n: nat, size: nat)
    requires 0 < size && n <= size
    ensures Hi(i, n, size) == Lo(i, n, size) + 1
  {
    assert (i + 1) * n == i * n + n;
    DivPlusOne(i * n, size);
    DivMonotone(i * n + n, i * n + size, size);
  }

  /** At an integral enlargement that position is i / k. */
  lemma LoOfMultiple(i: nat, n: nat, k: nat)
    requires n > 0 && k > 0
    ensures k * n > 0 && Lo(i, n, k * n) == i / k
  {
    var a := i / k * k;
    DivBounds(i, k);
    MulOrder(1, k, n);
    MulOrder(a, i, n);
    MulOrder(i + 1, a + k, n);
    Distribute(a, k, n);
    Distribute(i, 1, n);
    Regroup(i / k, k, n);
    DivIs(i * n, k * n, i / k);
  }

  lemma WindowOfFactor(i: nat, n: nat, size: nat)
    requires n > 0 && size > 0 && size % n == 0
    ensures size / n > 0
    ensures Lo(i, n, size) == i / (size / n) && Hi(i, n, size) == i / (size / n) + 1
  {
    var k := size / n;
    assert size == k * n;
    LoOfMultiple(i, n, k);
    FactorAtMost(k, n);
    WindowIsOne(i, n, size);
  }

  lemma FactorAtMost(k: nat, n: nat)
    requires k * n > 0
    ensures k > 0 && n <= k * n
  {
    MulOrder(1, k, n);
  }

  lemma MultipleDivides(k: nat, n: nat)
    requires n > 0
    ensures k * n % n == 0 && k * n / n == k
  {
    DivIs(k * n, n, k);
    DivBounds(k * n, n);
  }

  lemma BlockInside(i: nat, k: nat, n: nat)
    requires i < n
    ensures i * k + k <= k * n
  {
    MulOrder(i + 1, n, k);
    assert (i + 1) * k == i * k + k;
  }

  /** At an integral reduction the window starts at k times i. */
  lemma LoOfDivisor(i: nat, size: nat, k: nat)
    requires size > 0
    ensures Lo(i, k * size, size) == k * i
  {
    assert i * (k * size) == k * i * size;
    DivIs(i * (k * size), size, k * i);
  }

  /** Shrinking: every source position is in one and only one window. */
  lemma {:induction false} WindowsPartition(s: nat, n: nat, size: nat)
    requires 0 < size <= n && s < n
    ensures exists i: nat :: i < size && Lo(i, n, size) <= s < Hi(i, n, size)
    ensures forall i: nat, j: nat ::
      i < size && j < size && Lo(i, n, size) <= s < Hi(i, n, size) && Lo(j, n, size) <= s < Hi(j, n, size) ==> i == j
  {
    LoEnds(n, size);
    var i: nat := Holder(s, n, size, size);
    WindowsMeet(i, n, size);
    forall i: nat, j: nat | i < j && Lo(i, n, size) <= s < Hi(i, n, size)
      ensures s < Lo(j, n, size)
    {
      WindowsMeet(i, n, size);
      LoMonotone(i + 1, j, n, size);
    }
  }

  // The last of the first `m` windows that starts no later than `s`.
  lemma {:induction false} Holder(s: nat, n: nat, size: nat, m: nat) returns (i: nat)
    requires size > 0 && m > 0 && s < Lo(m, n, size)
    ensures i < m && Lo(i, n, size) <= s < Lo(i + 1, n, size)
  {
    if Lo(m - 1, n, size) <= s {
      i := m - 1;
    } else {
      LoEnds(n, size);
      i := Holder(s, n, size, m - 1);
    }
  }
}
