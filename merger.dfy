/**
 * The reassembly pool for fragmented messages. Each unit owns one storage
 * block laid out as `packets` 4-byte "received" flags followed by the
 * `total`-byte message; `len` counts the payload bytes received so far and
 * `time` is the last time the unit was touched. Idle units wait in a FIFO.
 *
 * A unit is a record value (`Unit`) held in the pool's array, and the unit
 * operations are the functions `InitUnit`, `AddUnit` and `Release`, which the
 * pool's methods apply in place.
 */
module Merger {
  import opened CInt

  const MERGER_DEFAULT_COUNT: int := 1024

  /** One reassembly unit; `data == None` is a unit without storage (`data == NULL`). */
  datatype Unit = Unit(data: Option<seq<byte>>, total: int, packets: int, len: int, time: int)

  /** Storage, when present, is large enough for the flags and the message. */
  predicate WellFormed(u: Unit)
  {
    u.total >= 0 && u.packets >= 0 && u.len >= 0
    && (u.data.Some? ==> 4 * u.packets + u.total <= |u.data.value|)
    && (u.data.None? ==> u.total == 0 && u.packets == 0 && u.len == 0)
  }

  /** A unit as `memset` leaves it: no storage, every counter zero. */
  const EmptyUnit: Unit := Unit(None, 0, 0, 0, 0)

  /** Fragment `no`'s flag word is nonzero. */
  predicate FlagSet(d: seq<byte>, no: int)
    requires 0 <= no && 4 * no + 4 <= |d|
  {
    d[4 * no] != 0 || d[4 * no + 1] != 0 || d[4 * no + 2] != 0 || d[4 * no + 3] != 0
  }

  /** The message area of a unit with storage. */
  function Payload(u: Unit): (p: seq<byte>)
    requires WellFormed(u) && u.data.Some?
    ensures |p| == u.total
  {
    u.data.value[4 * u.packets..4 * u.packets + u.total]
  }

  /**
   * `merger_init`: storage too small for `len` bytes and `packets` flags is
   * replaced by a zeroed block and the received count restarts at 0;
   * storage that fits is zeroed in place (its first `4*packets + total`
   * bytes under the OLD sizes) and the received count is kept. Either way the
   * sizes become the new ones and the time is stamped.
   */
  function InitUnit(u: Unit, len: int, packets: int, now: int): (r: Unit)
    requires WellFormed(u) && len >= 0 && packets >= 0
    ensures WellFormed(r) && r.data.Some?
    ensures r.total == len && r.packets == packets && r.time == now
    ensures Payload(r) == Zeros(len)
    ensures forall no :: 0 <= no < packets ==> !FlagSet(r.data.value, no)
    ensures r.len == if u.data.Some? && u.total >= len && u.packets >= packets then u.len else 0
  {
    if u.data.Some? && !(u.total < len || u.packets < packets) then
      var n := 4 * u.packets + u.total;
      var d := Zeros(n) + u.data.value[n..];
      assert forall i :: 0 <= i < 4 * packets + len ==> d[i] == 0;
      Unit(Some(d), len, packets, u.len, now)
    else
      Unit(Some(Zeros(4 * packets + len)), len, packets, 0, now)
  }

  /** The storage after fragment `no`'s flag word is set to the int 1 (stored little-endian). */
  function SetFlag(d: seq<byte>, no: int): (r: seq<byte>)
    requires 0 <= no && 4 * no + 4 <= |d|
    ensures |r| == |d| && FlagSet(r, no)
    ensures forall i :: 0 <= i < |d| && !(4 * no <= i < 4 * no + 4) ==> r[i] == d[i]
  {
    d[..4 * no] + [1, 0, 0, 0] + d[4 * no + 4..]
  }

  /**
   * `merger_add`: the fragment's bytes land at `start` in the message area;
   * the received count grows by the fragment's length only if fragment `no`
   * was not flagged before, and then its flag is set. No other flag and no
   * other message byte changes.
   */
  function AddUnit(u: Unit, no: int, start: int, frag: seq<byte>, now: int): (r: Unit)
    requires WellFormed(u) && u.data.Some?
    requires 0 <= no < u.packets && 0 <= start && start + |frag| <= u.total
    ensures WellFormed(r) && r.data.Some? && r.time == now
    ensures r.total == u.total && r.packets == u.packets
    ensures Payload(r) == Payload(u)[..start] + frag + Payload(u)[start + |frag|..]
    ensures FlagSet(r.data.value, no)
    ensures forall k :: 0 <= k < u.packets && k != no ==> FlagSet(r.data.value, k) == FlagSet(u.data.value, k)
    ensures r.len == if FlagSet(u.data.value, no) then u.len else u.len + |frag|
  {
    var d := u.data.value;
    var off := 4 * u.packets + start;
    var d1 := d[..off] + frag + d[off + |frag|..];
    SpliceWindow(d, off, frag, 4 * u.packets, u.total);
    var r := if FlagSet(d1, no) then Unit(Some(d1), u.total, u.packets, u.len, now)
             else Unit(Some(SetFlag(d1, no)), u.total, u.packets, u.len + |frag|, now);
    assert r.data.value[4 * u.packets..4 * u.packets + u.total] == d1[4 * u.packets..4 * u.packets + u.total];
    r
  }

  /** Copying `frag` to `off` inside a window starting at `w` splices it into the window. */
  lemma SpliceWindow(d: seq<byte>, off: int, frag: seq<byte>, w: int, n: int)
    requires 0 <= w <= off && off + |frag| <= w + n <= |d|
    ensures var d1 := d[..off] + frag + d[off + |frag|..];
            |d1| == |d| && d1[..w] == d[..w]
            && d1[w..w + n] == d[w..w + n][..off - w] + frag + d[w..w + n][off - w + |frag|..]
  {
    var d1 := d[..off] + frag + d[off + |frag|..];
    assert d1[..w] == d[..w];
    var lhs := d1[w..w + n];
    var rhs := d[w..w + n][..off - w] + frag + d[w..w + n][off - w + |frag|..];
    assert |lhs| == |rhs|;
    forall i | 0 <= i < n
      ensures lhs[i] == rhs[i]
    {
      if i < off - w {
      } else if i < off - w + |frag| {
      } else {
      }
    }
  }

  /** `merger_get` succeeds exactly when storage exists and every byte has been counted. */
  predicate Complete(u: Unit)
  {
    u.data.Some? && u.total == u.len
  }

  /**
   * What `merger_get` hands to its callback as written: `total` bytes from
   * the start of the storage, which is where the flag words are.
   */
  function DeliveredAsWritten(u: Unit): (r: seq<byte>)
    requires WellFormed(u) && Complete(u)
    ensures |r| == u.total
    ensures u.total >= 4 * u.packets ==> r == u.data.value[..4 * u.packets] + Payload(u)[..u.total - 4 * u.packets]
  {
    u.data.value[..u.total]
  }

  /** What the callback is evidently meant to receive: the message area. */
  function Delivered(u: Unit): (r: seq<byte>)
    requires WellFormed(u) && Complete(u)
    ensures |r| == u.total && r == Payload(u)
  {
    u.data.value[4 * u.packets..4 * u.packets + u.total]
  }

  /** `merger_get` and `merger_free` release the storage and zero the counters. */
  function Release(u: Unit): (r: Unit)
    ensures WellFormed(r) && r.data.None? && r.time == u.time
  {
    Unit(None, 0, 0, 0, u.time)
  }

  /**
   * The flag prefix reaches the callback: one fragment of four bytes
   * [7, 7, 7, 7] is received into a fresh unit, yet the bytes passed on
   * are the flag word [1, 0, 0, 0]; the intended delivery is the fragment.
   */
  lemma FlagPrefixDelivered()
    ensures var u := AddUnit(InitUnit(EmptyUnit, 4, 1, 0), 0, 0, [7, 7, 7, 7], 0);
            Complete(u) && DeliveredAsWritten(u) == [1, 0, 0, 0] && Delivered(u) == [7, 7, 7, 7]
  {
    var u1 := InitUnit(EmptyUnit, 4, 1, 0);
    var u := AddUnit(u1, 0, 0, [7, 7, 7, 7], 0);
    assert u1.data.value == [0, 0, 0, 0, 0, 0, 0, 0];
    assert u.data.value == [1, 0, 0, 0, 7, 7, 7, 7];
  }

  // Reassembly of a message cut into consecutive chunks of `c` bytes.

  /** Number of chunks of `c` bytes needed for `n` bytes: ceil(n / c). */
  function ChunkCount(n: nat, c: nat): nat
    requires c > 0
  {
    (n + c - 1) / c
  }

  /** End offset of chunk `k`: `min((k + 1) * c, n)`. */
  function ChunkEnd(n: nat, c: nat, k: nat): nat
  {
    if (k + 1) * c < n then (k + 1) * c else n
  }

  /** Chunk `k` of `msg`. */
  function Chunk(msg: seq<byte>, c: nat, k: nat): seq<byte>
    requires k * c <= |msg|
  {
    msg[k * c..ChunkEnd(|msg|, c, k)]
  }

  lemma ChunkBounds(n: nat, c: nat, k: nat)
    requires c > 0 && k < ChunkCount(n, c)
    ensures k * c < n
    ensures k + 1 < ChunkCount(n, c) ==> (k + 1) * c < n
    ensures k + 1 == ChunkCount(n, c) ==> (k + 1) * c >= n
  {
    var p := ChunkCount(n, c);
    assert n + c - 1 == c * p + (n + c - 1) % c;
    MulMonotone(k + 1, p, c);
    if k + 1 == p {
      assert (k + 1) * c == c * p;
    } else {
      MulMonotone(k + 2, p, c);
    }
  }

  lemma MulMonotone(a: nat, b: nat, c: nat)
    requires a <= b
    ensures a * c <= b * c && c * a <= c * b
  {
  }

  /** Add chunks 0 .. k-1 of `msg` in order, as fragments numbered 0 .. k-1. */
  function AddChunks(u: Unit, msg: seq<byte>, c: nat, k: nat, now: int): (r: Unit)
    requires c > 0 && k <= ChunkCount(|msg|, c)
    requires WellFormed(u) && u.data.Some? && u.total == |msg| && u.packets == ChunkCount(|msg|, c)
    ensures WellFormed(r) && r.data.Some? && r.total == u.total && r.packets == u.packets
    decreases k
  {
    if k == 0 then u
    else
      var prev := AddChunks(u, msg, c, k - 1, now);
      ChunkBounds(|msg|, c, k - 1);
      AddUnit(prev, k - 1, (k - 1) * c, Chunk(msg, c, k - 1), now)
  }

  /**
   * The state after the first `k` chunks were added in order: exactly the
   * fragments below `k` are flagged, the message area holds the first `k`
   * chunks followed by zeros, and the received count is their size.
   */
  ghost predicate ChunksIn(r: Unit, msg: seq<byte>, c: nat, k: nat)
    requires c > 0
  {
    var done := if k == 0 then 0 else ChunkEnd(|msg|, c, k - 1);
    WellFormed(r) && r.data.Some? && r.total == |msg| && r.packets == ChunkCount(|msg|, c)
    && done <= |msg| && r.len == done
    && Payload(r) == msg[..done] + Zeros(|msg| - done)
    && (forall j :: 0 <= j < r.packets ==> (FlagSet(r.data.value, j) <==> j < k))
  }

  lemma SpliceChunk(msg: seq<byte>, before: nat, done: nat)
    requires before <= done <= |msg|
    ensures var pay := msg[..before] + Zeros(|msg| - before);
            pay[..before] + msg[before..done] + pay[done..] == msg[..done] + Zeros(|msg| - done)
  {
    var pay := msg[..before] + Zeros(|msg| - before);
    var lhs := pay[..before] + msg[before..done] + pay[done..];
    var rhs := msg[..done] + Zeros(|msg| - done);
    assert |lhs| == |rhs|;
    forall i | 0 <= i < |lhs|
      ensures lhs[i] == rhs[i]
    {
    }
  }

  /** Where chunk `k` starts and ends, in terms of the chunks before it. */
  lemma ChunkOffsets(n: nat, c: nat, k: nat)
    requires c > 0 && k < ChunkCount(n, c)
    ensures var before := if k == 0 then 0 else ChunkEnd(n, c, k - 1);
            before == k * c && k * c < ChunkEnd(n, c, k) <= n
  {
    ChunkBounds(n, c, k);
    if k > 0 {
      ChunkBounds(n, c, k - 1);
    }
  }

  /** Adding chunk `k` to a unit holding chunks 0 .. k-1 gives one holding chunks 0 .. k. */
  lemma ChunkStep(prev: Unit, msg: seq<byte>, c: nat, k: nat, now: int)
    requires c > 0 && k < ChunkCount(|msg|, c) && ChunksIn(prev, msg, c, k)
    ensures k * c <= |msg|
    ensures ChunksIn(AddUnit(prev, k, k * c, Chunk(msg, c, k), now), msg, c, k + 1)
  {
    ChunkOffsets(|msg|, c, k);
    var before := k * c;
    var done := ChunkEnd(|msg|, c, k);
    var frag := msg[before..done];
    assert frag == Chunk(msg, c, k);
    assert Payload(prev) == msg[..before] + Zeros(|msg| - before);
    var r := AddUnit(prev, k, before, frag, now);
    assert r.len == done by {
      assert !FlagSet(prev.data.value, k);
    }
    assert Payload(r) == msg[..done] + Zeros(|msg| - done) by {
      SpliceChunk(msg, before, done);
    }
    assert forall j :: 0 <= j < r.packets ==> (FlagSet(r.data.value, j) <==> j < k + 1);
  }

  /** In-order reassembly into a unit that holds no chunk yet, chunk by chunk. */
  lemma {:induction false} AddChunksState(u: Unit, msg: seq<byte>, c: nat, k: nat, now: int)
    requires c > 0 && k <= ChunkCount(|msg|, c)
    requires WellFormed(u) && u.data.Some? && u.total == |msg| && u.packets == ChunkCount(|msg|, c)
    requires ChunksIn(u, msg, c, 0)
    ensures ChunksIn(AddChunks(u, msg, c, k, now), msg, c, k)
  {
    if k > 0 {
      AddChunksState(u, msg, c, k - 1, now);
      AddChunksStep(u, msg, c, k, now);
    }
  }

  /** One more chunk added in order keeps the account of `ChunksIn`. */
  lemma AddChunksStep(u: Unit, msg: seq<byte>, c: nat, k: nat, now: int)
    requires c > 0 && 0 < k <= ChunkCount(|msg|, c)
    requires WellFormed(u) && u.data.Some? && u.total == |msg| && u.packets == ChunkCount(|msg|, c)
    requires ChunksIn(AddChunks(u, msg, c, k - 1, now), msg, c, k - 1)
    ensures ChunksIn(AddChunks(u, msg, c, k, now), msg, c, k)
  {
    ChunkStep(AddChunks(u, msg, c, k - 1, now), msg, c, k - 1, now);
  }

  /** A freshly initialised unit holds no chunk yet. */
  lemma InitHoldsNone(u0: Unit, msg: seq<byte>, c: nat, now: int)
    requires c > 0 && WellFormed(u0) && u0.data.None?
    ensures ChunksIn(InitUnit(u0, |msg|, ChunkCount(|msg|, c), now), msg, c, 0)
  {
    var u := InitUnit(u0, |msg|, ChunkCount(|msg|, c), now);
    assert Payload(u) == msg[..0] + Zeros(|msg|);
  }

  /** Before the last chunk the received count is short of the total. */
  lemma IncompleteBeforeLast(r: Unit, msg: seq<byte>, c: nat, k: nat)
    requires c > 0 && |msg| > 0 && k < ChunkCount(|msg|, c) && ChunksIn(r, msg, c, k)
    ensures !Complete(r)
  {
    if k > 0 {
      ChunkBounds(|msg|, c, k - 1);
    }
  }

  /** After the last chunk the unit is complete and its message area is the message. */
  lemma CompleteAtLast(r: Unit, msg: seq<byte>, c: nat)
    requires c > 0 && |msg| > 0 && ChunksIn(r, msg, c, ChunkCount(|msg|, c))
    ensures Complete(r) && Delivered(r) == msg
  {
    var p := ChunkCount(|msg|, c);
    ChunkBounds(|msg|, c, p - 1);
    assert ChunkEnd(|msg|, c, p - 1) == |msg|;
    assert Payload(r) == msg[..|msg|] + Zeros(0);
  }

  /**
   * The round trip: a whole message cut into chunks and added in order
   * completes exactly at the last chunk, and the intended delivery is the
   * message itself.
   */
  lemma ReassembleInOrder(u0: Unit, msg: seq<byte>, c: nat, now: int)
    requires c > 0 && |msg| > 0
    requires WellFormed(u0) && u0.data.None?
    ensures var p := ChunkCount(|msg|, c);
            var u := InitUnit(u0, |msg|, p, now);
            (forall k :: 0 <= k < p ==> !Complete(AddChunks(u, msg, c, k, now)))
            && Complete(AddChunks(u, msg, c, p, now))
            && Delivered(AddChunks(u, msg, c, p, now)) == msg
  {
    var p := ChunkCount(|msg|, c);
    var u := InitUnit(u0, |msg|, p, now);
    InitHoldsNone(u0, msg, c, now);
    forall k | 0 <= k < p
      ensures !Complete(AddChunks(u, msg, c, k, now))
    {
      AddChunksState(u, msg, c, k, now);
      IncompleteBeforeLast(AddChunks(u, msg, c, k, now), msg, c, k);
    }
    AddChunksState(u, msg, c, p, now);
    CompleteAtLast(AddChunks(u, msg, c, p, now), msg, c);
  }

  /** A fragment added a second time changes the bytes it covers but not the received count. */
  lemma DuplicateNotCounted(u: Unit, no: int, start: int, frag: seq<byte>, now: int, later: int)
    requires WellFormed(u) && u.data.Some?
    requires 0 <= no < u.packets && 0 <= start && start + |frag| <= u.total
    ensures var once := AddUnit(u, no, start, frag, now);
            AddUnit(once, no, start, frag, later).len == once.len
  {
  }

  /** The pool of units of `merger.c`; a unit is named by its index (its block pointer). */
  class Pool {
    const units: array<Unit>
    var idle: seq<int>

    ghost predicate Valid()
      reads this, units
    {
      (forall b :: 0 <= b < units.Length ==> WellFormed(units[b]))
      && (forall i :: 0 <= i < |idle| ==> 0 <= idle[i] < units.Length)
    }

    /**
     * `merger_new`: `count` units (1024 when `count` is 0), all empty and
     * all idle in index order.
     */
    constructor (count: int)
      requires 0 <= count < U32_MOD
      ensures Valid() && fresh(units)
      ensures units.Length == if count == 0 then MERGER_DEFAULT_COUNT else count
      ensures forall b :: 0 <= b < units.Length ==> units[b] == EmptyUnit
      ensures idle == seq(units.Length, i => i)
    {
      var n := if count == 0 then MERGER_DEFAULT_COUNT else count;
      units := new Unit[n](_ => EmptyUnit);
      var q: seq<int> := [];
      var index := 0;
      while index < n
        invariant 0 <= index <= n
        invariant q == seq(index, i => i)
      {
        q := q + [index];
        index := index + 1;
      }
      idle := q;
    }

    /** `merger_alloc`: the oldest idle unit, removed from the idle queue; -1 (NULL) when none is idle. */
    method Alloc() returns (b: int)
      requires Valid()
      modifies this
      ensures Valid()
      ensures old(idle) == [] ==> b == -1 && idle == []
      ensures old(idle) != [] ==> b == old(idle)[0] && idle == old(idle)[1..] && 0 <= b < units.Length
    {
      if idle == [] {
        return -1;
      }
      b := idle[0];
      idle := idle[1..];
    }

    /** `merger_init` on unit `b`. */
    method Init(b: int, len: int, packets: int, now: int)
      requires Valid() && 0 <= b < units.Length && len >= 0 && packets >= 0
      modifies units
      ensures Valid()
      ensures units[..] == old(units[..])[b := InitUnit(old(units[b]), len, packets, now)]
    {
      units[b] := InitUnit(units[b], len, packets, now);
    }

    /** `merger_add` on unit `b`; returns the fragment length. */
    method Add(b: int, no: int, start: int, frag: seq<byte>, now: int) returns (r: int)
      requires Valid() && 0 <= b < units.Length && units[b].data.Some?
      requires 0 <= no < units[b].packets && 0 <= start && start + |frag| <= units[b].total
      modifies units
      ensures Valid() && r == |frag|
      ensures units[..] == old(units[..])[b := AddUnit(old(units[b]), no, start, frag, now)]
    {
      units[b] := AddUnit(units[b], no, start, frag, now);
      r := |frag|;
    }

    /**
     * `merger_get` on unit `b` as written: when complete, the callback
     * receives `delivered`, the first `total` bytes of the storage (flag words
     * first), the storage is released and 0 is returned; otherwise -1 and
     * nothing changes.
     */
    method GetAsWritten(b: int) returns (r: int, delivered: Option<seq<byte>>)
      requires Valid() && 0 <= b < units.Length
      modifies units
      ensures Valid()
      ensures r == 0 || r == -1
      ensures r == 0 <==> old(Complete(units[b]))
      ensures r == 0 ==> (delivered == Some(DeliveredAsWritten(old(units[b])))
                          && units[..] == old(units[..])[b := Release(old(units[b]))])
      ensures r == -1 ==> delivered == None && units[..] == old(units[..])
    {
      var u := units[b];
      if u.data.Some? && u.total == u.len {
        delivered := Some(DeliveredAsWritten(u));
        units[b] := Release(u);
        r := 0;
      } else {
        delivered := None;
        r := -1;
      }
    }

    /**
     * `merger_get` on unit `b` as evidently intended: when complete, the
     * callback receives the message area, the storage is released and 0 is
     * returned; otherwise -1 and nothing changes.
     */
    method Get(b: int) returns (r: int, delivered: Option<seq<byte>>)
      requires Valid() && 0 <= b < units.Length
      modifies units
      ensures Valid()
      ensures r == 0 || r == -1
      ensures r == 0 <==> old(Complete(units[b]))
      ensures r == 0 ==> (delivered == Some(Delivered(old(units[b])))
                          && units[..] == old(units[..])[b := Release(old(units[b]))])
      ensures r == -1 ==> delivered == None && units[..] == old(units[..])
    {
      var u := units[b];
      if u.data.Some? && u.total == u.len {
        delivered := Some(Delivered(u));
        units[b] := Release(u);
        r := 0;
      } else {
        delivered := None;
        r := -1;
      }
    }

    /** `merger_time`: the stamp left by the last init or add. */
    function Time(b: int): (t: int)
      reads this, units
      requires 0 <= b < units.Length
      ensures t == units[b].time
    {
      units[b].time
    }

    /** `merger_free`: storage released, counters zeroed, unit appended to the idle queue. */
    method Free(b: int)
      requires Valid() && 0 <= b < units.Length
      modifies this, units
      ensures Valid()
      ensures units[..] == old(units[..])[b := Release(old(units[b]))]
      ensures idle == old(idle) + [b]
    {
      units[b] := Release(units[b]);
      idle := idle + [b];
    }
  }
}
