/**
 * The cursor tests of the three rings (`ringbuffer.c`, `ringarray.c`,
 * `ringqueue.c`) read on the 32-bit `volatile int` cursors the source
 * stores. The ring classes keep their cursors as unbounded integers; here
 * an unbounded cursor `c` is stored as `ToI32(c)`, its two's-complement
 * bit pattern. That is what the compare-and-swap loops store, since they
 * add 1 on `uint` and write the result back into the `int` cursor.
 *
 * Differences and equalities of stored cursors are exact as long as the
 * cursors are less than 2^31 apart, which the rings' capacities keep them.
 * The ordered comparisons are not: `read_next`'s `next > cursor` and the
 * `pd >= cs` guard of the ring queue's full test change their answer once
 * the producer side has wrapped and the consumer side has not.
 */
module RingWrap {
  import opened CInt

  /** The empty test of `pop_ringbuffer`, `pop_ringarray` and `pop_ringqueue_multiple` as written: the wrapping difference, then `read_next`'s ordered comparison. */
  predicate PopRefusedAsWritten(cursor: int, cs: int)
  {
    ToI32(cursor - cs) <= 0 || ToI32(cs + 1) > cursor
  }

  /** The empty test with `read_next`'s comparison taken as a wrapping difference too. */
  predicate PopRefused(cursor: int, cs: int)
  {
    ToI32(cursor - cs) <= 0 || ToI32(cursor - (cs + 1)) < 0
  }

  /** The ring queue's full test (one consumer cursor `cs`) as written: the ordered guard, then the wrapping difference. */
  predicate FullAsWritten(pd: int, cs: int, size: int)
  {
    pd >= cs && ToI32(pd - cs + 1) >= size
  }

  /** The full test by the wrapping difference alone, as `ringbuffer_check_consumer` and `ringarray_check_consumer` write it. */
  predicate Full(pd: int, cs: int, size: int)
  {
    ToI32(pd - cs + 1) >= size
  }

  /** Two integers with the same remainder modulo 2^32 store as the same `int`. */
  lemma SameStored(x: int, y: int)
    requires (x - y) % U32_MOD == 0
    ensures ToI32(x) == ToI32(y)
  {
    var k := (x - y) / U32_MOD;
    assert x - y == U32_MOD * k;
    DivModUnique(x, U32_MOD, y / U32_MOD + k, y % U32_MOD);
  }

  /** A multiple of 2^32 minus another is one. */
  lemma MultipleDiff(a: int, b: int)
    requires a % U32_MOD == 0 && b % U32_MOD == 0
    ensures (a - b) % U32_MOD == 0
  {
    var ka, kb := a / U32_MOD, b / U32_MOD;
    assert a == U32_MOD * ka && b == U32_MOD * kb;
    assert a - b == U32_MOD * (ka - kb);
    DivModUnique(a - b, U32_MOD, ka - kb, 0);
  }

  /** The wrapping difference of two stored cursors, plus `k`, is that of the cursors themselves. */
  lemma StoredDiff(a: int, b: int, k: int)
    ensures ToI32(ToI32(a) - ToI32(b) + k) == ToI32(a - b + k)
  {
    MultipleDiff(ToI32(a) - a, ToI32(b) - b);
    assert (ToI32(a) - ToI32(b) + k) - (a - b + k) == (ToI32(a) - a) - (ToI32(b) - b);
    SameStored(ToI32(a) - ToI32(b) + k, a - b + k);
  }

  /**
   * The stall. Once the committed cursor `c` has passed INT_MAX while the
   * consumer cursor `s` is still at least two below it, every pop is
   * refused although `c - s` items are unread, for as long as the consumer
   * stays behind, so the ring fills and then refuses every push as well.
   */
  lemma WrapStallsPop(c: int, s: int)
    requires -1 <= s < I32_BOUND - 1 && I32_BOUND <= c && c - s < I32_BOUND
    ensures c - s >= 2
    ensures PopRefusedAsWritten(ToI32(c), ToI32(s))
  {
    assert ToI32(s) == s;
    assert ToI32(s + 1) == s + 1;
    DivModUnique(c, U32_MOD, 0, c);
    assert ToI32(c) == c - U32_MOD;
  }

  /** With the comparison as a difference, a pop is refused on the stored cursors exactly when nothing is unread. */
  lemma PopRefusedExact(c: int, s: int)
    requires -1 <= s <= c && c - s < I32_BOUND
    ensures PopRefused(ToI32(c), ToI32(s)) <==> c == s
  {
    StoredDiff(c, s, 0);
    StoredDiff(c, s, -1);
    assert ToI32(ToI32(c) - (ToI32(s) + 1)) == ToI32(c - s - 1);
  }

  /**
   * The guard hides a full ring. Once the claim cursor `p` has passed
   * INT_MAX and the consumer cursor `r` has not, the ordered guard fails,
   * so the full test answers "not full" however many items are held and
   * the next push overwrites an unread slot.
   */
  lemma WrapHidesFull(p: int, r: int, size: int)
    requires -1 <= r < I32_BOUND <= p && p - r < I32_BOUND
    ensures !FullAsWritten(ToI32(p), ToI32(r), size)
  {
    assert ToI32(r) == r;
    DivModUnique(p, U32_MOD, 0, p);
    assert ToI32(p) == p - U32_MOD;
  }

  /** The full test by the difference alone is exact on the stored cursors. */
  lemma FullExact(p: int, r: int, size: int)
    requires -1 <= p - r + 1 < I32_BOUND
    ensures Full(ToI32(p), ToI32(r), size) <==> p - r + 1 >= size
  {
    StoredDiff(p, r, 1);
  }

  /** The equality test of `pop_ringqueue_single` is exact on the stored cursors. */
  lemma SingleEmptyExact(c: int, s: int)
    requires -1 <= s <= c && c - s < U32_MOD
    ensures ToI32(c) == ToI32(s) <==> c == s
  {
    if c != s {
      ModDistinct(s, c, U32_MOD);
    }
  }
}
