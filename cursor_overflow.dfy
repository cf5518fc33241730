/** The round-robin cursor as the source stores it: a 32-bit AtomicInteger
    whose getAndIncrement wraps from 2^31 - 1 to -2^31, reduced with Java's
    truncating `%`. Once the cursor has wrapped, the index can be negative.
    The router model uses the unbounded cursor of Selection.RoundRobinIndex
    instead. */
module CursorOverflow {
  import opened Selection

  const Int32Min: int := -0x8000_0000
  const Int32Max: int := 0x7fff_ffff

  predicate IsInt32(x: int)
  {
    Int32Min <= x <= Int32Max
  }

  /** The value getAndIncrement stores: x + 1 in two's complement. */
  function Int32Increment(x: int): (y: int)
    requires IsInt32(x)
    ensures IsInt32(y) && (y - (x + 1)) % 0x1_0000_0000 == 0
  {
    if x == Int32Max then Int32Min else x + 1
  }

  /** Java's `%` on int: the remainder truncates toward zero, so it takes
      the sign of the dividend. */
  function JavaRemainder(a: int, n: int): (r: int)
    requires n >= 1
    ensures -n < r < n
    ensures a >= 0 ==> r >= 0
    ensures a < 0 ==> r <= 0
    ensures (a - r) % n == 0
  {
    if a >= 0 then
      var q, m := a / n, a % n;
      assert a - m == q * n + 0;
      DivModUnique(a - m, n, q, 0);
      m
    else
      var q, m := (-a) / n, (-a) % n;
      assert a + m == (-q) * n + 0;
      DivModUnique(a + m, n, -q, 0);
      -m
  }

  /** The cursor value after k selections from the initial 0. */
  function CursorAfter(k: nat): (c: int)
    ensures IsInt32(c)
  {
    if k == 0 then 0 else Int32Increment(CursorAfter(k - 1))
  }

  /** The index line 87 computes for cursor value c, as written. */
  function AsWrittenRoundRobinIndex(c: int, n: int): int
    requires n >= 1 && IsInt32(c)
  {
    JavaRemainder(c, n)
  }

  lemma {:induction false} CursorAfterBeforeWrap(k: nat)
    requires k <= Int32Max
    ensures CursorAfter(k) == k
  {
    if k > 0 {
      CursorAfterBeforeWrap(k - 1);
    }
  }

  /** Until the cursor wraps, the source's index agrees with the unbounded
      cursor's index. */
  lemma AsWrittenAgreesBeforeWrap(k: nat, n: nat)
    requires n >= 1 && k <= Int32Max
    ensures AsWrittenRoundRobinIndex(CursorAfter(k), n) == RoundRobinIndex(k, n)
  {
    CursorAfterBeforeWrap(k);
  }

  /** After 2^31 selections the cursor holds -2^31, and with three
      configurations the next selection computes index -2, on which
      `models.get` throws IndexOutOfBoundsException. */
  lemma CursorOverflowGivesNegativeIndex()
    ensures CursorAfter(0x8000_0000) == Int32Min
    ensures AsWrittenRoundRobinIndex(CursorAfter(0x8000_0000), 3) == -2
  {
    CursorAfterBeforeWrap(Int32Max);
    assert CursorAfter(0x8000_0000) == Int32Increment(CursorAfter(Int32Max));
  }
}
