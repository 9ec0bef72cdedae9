/**
 * The device of `device.c`: the option word `operate` (bits MONITOR and
 * CONTROL), the worker thread count, the TCP manager handle and the monitor
 * event queue, a multi-consumer ring of event-record pointers.
 *
 * The C functions find the device by id through the registry of `global.c`;
 * here the caller passes the device it found, `null` standing for an id the
 * registry does not know. Errors come back as the `Utility.Code` the source
 * stores in `errno`.
 */
module Device {
  import opened CInt
  import opened Config
  import opened Utility
  import RingQueue
  import Global

  /** 256^n. */
  function Radix(n: nat): (r: nat)
    ensures r >= 1
  {
    if n == 0 then 1 else 256 * Radix(n - 1)
  }

  /** Half of 256^n: the bound of a signed integer of n bytes. */
  function Half(n: nat): (h: int)
    ensures h >= 0
  {
    Radix(n) / 2
  }

  /** The value of bytes stored lowest first, as a little-endian machine reads them. */
  function LE(b: seq<byte>): (u: nat)
    ensures u < Radix(|b|)
  {
    if b == [] then 0 else b[0] + 256 * LE(b[1..])
  }

  /** The `n` little-endian bytes of `u`. */
  function LEBytes(u: nat, n: nat): (b: seq<byte>)
    ensures |b| == n
  {
    if n == 0 then [] else [u % 256] + LEBytes(u / 256, n - 1)
  }

  /** Reading back the bytes of a value that fits gives the value. */
  lemma {:induction false} LERoundTrip(u: nat, n: nat)
    requires u < Radix(n)
    ensures LE(LEBytes(u, n)) == u
  {
    if n > 0 {
      LERoundTrip(u / 256, n - 1);
      assert LEBytes(u, n)[1..] == LEBytes(u / 256, n - 1);
    }
  }

  /** The two's-complement value of `n` bytes: a signed `char`, `short`, `int` or `int64`. */
  function Signed(b: seq<byte>): (x: int)
    ensures |b| > 0 ==> -Half(|b|) <= x < Half(|b|)
  {
    if |b| > 0 && LE(b) >= Half(|b|) then LE(b) - Radix(|b|) else LE(b)
  }

  /** The bytes a store of the signed value `x` into `n` bytes writes. */
  function Encode(x: int, n: nat): (b: seq<byte>)
    requires n > 0 && -Half(n) <= x < Half(n)
    ensures |b| == n
  {
    LEBytes(if x < 0 then x + Radix(n) else x, n)
  }

  lemma EncodeRoundTrip(x: int, n: nat)
    requires n > 0 && -Half(n) <= x < Half(n)
    ensures Signed(Encode(x, n)) == x
  {
    LERoundTrip(if x < 0 then x + Radix(n) else x, n);
  }

  /** The option sizes `emc_set` understands: `char`, `short`, `int`, `int64`. */
  predicate KnownLength(optlen: int)
  {
    optlen == 1 || optlen == 2 || optlen == 4 || optlen == 8
  }

  /**
   * The option value of `emc_set`: the first `optlen` bytes of `optval`
   * read as a signed integer of that size and assigned to an `int` (so an
   * `int64` keeps its low 32 bits); any other length gives 0.
   */
  function OptValue(optval: seq<byte>, optlen: int): (add: int)
    requires KnownLength(optlen) ==> |optval| >= optlen
    ensures IsInt32(add)
    ensures !KnownLength(optlen) ==> add == 0
    ensures optlen == 1 ==> -0x80 <= add < 0x80
    ensures optlen == 2 ==> -0x8000 <= add < 0x8000
  {
    if optlen == 1 || optlen == 2 || optlen == 4 then
      assert Radix(4) == U32_MOD;
      Signed(optval[..optlen])
    else if optlen == 8 then ToI32(Signed(optval[..8]))
    else 0
  }

  /** A value stored in an option of its own size is read back as stored (truncated to 32 bits for an `int64`). */
  lemma OptValueEncode(x: int, optlen: int, rest: seq<byte>)
    requires KnownLength(optlen) && -Half(optlen) <= x < Half(optlen)
    ensures OptValue(Encode(x, optlen) + rest, optlen) == ToI32(x)
  {
    var b := Encode(x, optlen) + rest;
    assert b[..optlen] == Encode(x, optlen);
    EncodeRoundTrip(x, optlen);
    assert Radix(4) == U32_MOD;
  }

  lemma LowBit(a: nat)
    ensures And(a, 1) == a % 2
  {
    if a != 0 {
      assert And(a, 1) == 2 * And(a / 2, 0) + (if a % 2 == 1 then 1 else 0);
    }
  }

  /** The three low bits of a word, one at a time. */
  lemma LowBits(a: nat)
    ensures And(a, 1) == a % 2
    ensures And(a, 2) == 2 * ((a / 2) % 2)
    ensures And(a, 4) == 4 * ((a / 4) % 2)
  {
    LowBit(a);
    LowBit(a / 2);
    LowBit(a / 4);
    if a != 0 {
      assert And(a, 2) == 2 * And(a / 2, 1);
      assert And(a, 4) == 2 * And(a / 2, 2);
      if a / 2 != 0 {
        assert And(a / 2, 2) == 2 * And(a / 4, 1);
        assert a / 2 / 2 == a / 4;
      }
    }
  }

  /** `x | b` when `on`, `x & ~b` otherwise, for one of the two option bits. */
  function WithBit(x: nat, b: nat, on: bool): (y: nat)
    requires b == EMC_OPT_MONITOR || b == EMC_OPT_CONTROL
    ensures And(y, b) == if on then b else 0
    ensures And(y, 3 - b) == And(x, 3 - b)
    ensures y / 4 == x / 4
  {
    LowBits(x);
    var y := if on && And(x, b) == 0 then x + b else if !on && And(x, b) != 0 then x - b else x;
    LowBits(y);
    y
  }

  class Device {
    var operate: int
    var thread: int
    var mgr: Ptr
    const mmq: RingQueue.Queue

    ghost predicate Valid()
      reads this, mmq, mmq.node, mmq.cs
    {
      mmq.Valid() && mmq.mode == RingQueue.RQ_M && 0 <= operate < U32_MOD && 0 <= thread < U32_MOD
    }

    /** The zeroed device of `emc_device`, with an empty multi-consumer event queue. */
    constructor ()
      ensures Valid() && fresh(mmq) && fresh(mmq.node) && fresh(mmq.cs)
      ensures operate == 0 && thread == 0 && mgr == NULL && mmq.Pending() == []
    {
      operate, thread, mgr := 0, 0, NULL;
      mmq := new RingQueue.Queue(RingQueue.RQ_M);
    }
  }

  /** C's `opt & bit` on the `int` argument, as a truth value. */
  predicate Names(opt: int, bit: int)
  {
    And32(opt, bit) != 0
  }

  /**
   * `emc_set`. With the THREAD bit in `opt` the value becomes the thread
   * count (at least 1), refused with -1 once a TCP manager exists; the
   * other bits are then ignored. Otherwise a positive value sets, and any
   * other value clears, each of MONITOR and CONTROL that `opt` names; every
   * other bit of `operate` is left alone.
   */
  method Set(ed: Device?, opt: int, optval: seq<byte>, optlen: int) returns (r: int, err: Option<Code>)
    requires ed != null ==> ed.Valid()
    requires KnownLength(optlen) ==> |optval| >= optlen
    modifies ed
    ensures ed == null ==> r == -1 && err == Some(ENoDevice)
    ensures ed != null ==> ed.Valid() && err == None && ed.mgr == old(ed.mgr)
    ensures ed != null && Names(opt, EMC_OPT_THREAD) ==>
              ed.operate == old(ed.operate)
              && (old(ed.mgr) != NULL ==> r == -1 && ed.thread == old(ed.thread))
              && (old(ed.mgr) == NULL ==> r == 0 && ed.thread == Max(OptValue(optval, optlen), 1))
    ensures ed != null && !Names(opt, EMC_OPT_THREAD) ==>
              (var on := OptValue(optval, optlen) > 0;
               r == 0 && ed.thread == old(ed.thread) && ed.operate / 4 == old(ed.operate) / 4
               && And(ed.operate, EMC_OPT_MONITOR)
                  == (if Names(opt, EMC_OPT_MONITOR) then (if on then EMC_OPT_MONITOR else 0) else And(old(ed.operate), EMC_OPT_MONITOR))
               && And(ed.operate, EMC_OPT_CONTROL)
                  == (if Names(opt, EMC_OPT_CONTROL) then (if on then EMC_OPT_CONTROL else 0) else And(old(ed.operate), EMC_OPT_CONTROL)))
  {
    if ed == null {
      return -1, Some(ENoDevice);
    }
    var add := OptValue(optval, optlen);
    err := None;
    if Names(opt, EMC_OPT_THREAD) {
      if ed.mgr != NULL {
        return -1, None;
      }
      if add <= 0 {
        add := 1;
      }
      ed.thread := add;
    } else {
      var op := ed.operate;
      if Names(opt, EMC_OPT_MONITOR) {
        op := WithBit(op, EMC_OPT_MONITOR, add > 0);
      }
      if Names(opt, EMC_OPT_CONTROL) {
        op := WithBit(op, EMC_OPT_CONTROL, add > 0);
      }
      assert op / 4 == ed.operate / 4;
      ed.operate := op;
    }
    r := 0;
  }

  function Max(a: int, b: int): int { if a < b then b else a }

  /** `get_device_monitor`: the MONITOR bit of `operate`; 0 and ENODEVICE for an unknown device. */
  function GetMonitor(ed: Device?): (r: (int, Option<Code>))
    reads ed
    requires ed != null ==> 0 <= ed.operate < U32_MOD
    ensures r.0 == 0 || r.0 == EMC_OPT_MONITOR
    ensures ed == null ==> r == (0, Some(ENoDevice))
    ensures ed != null ==> r.1 == None && (r.0 != 0 <==> ed.operate % 2 == 1)
  {
    if ed == null then (0, Some(ENoDevice))
    else
      LowBits(ed.operate);
      (And32(ed.operate, EMC_OPT_MONITOR), None)
  }

  /** `get_device_control`: the CONTROL bit of `operate`; 0 and ENODEVICE for an unknown device. */
  function GetControl(ed: Device?): (r: (int, Option<Code>))
    reads ed
    requires ed != null ==> 0 <= ed.operate < U32_MOD
    ensures r.0 == 0 || r.0 == EMC_OPT_CONTROL
    ensures ed == null ==> r == (0, Some(ENoDevice))
    ensures ed != null ==> r.1 == None && (r.0 != 0 <==> (ed.operate / 2) % 2 == 1)
  {
    if ed == null then (0, Some(ENoDevice))
    else
      LowBits(ed.operate);
      (And32(ed.operate, EMC_OPT_CONTROL), None)
  }

  /** Switching monitoring on through `emc_set` is what `get_device_monitor` then reports, and CONTROL is untouched. */
  lemma SetThenGetMonitor(op: nat, on: bool)
    requires op < U32_MOD
    ensures WithBit(op, EMC_OPT_MONITOR, on) < U32_MOD
    ensures (And(WithBit(op, EMC_OPT_MONITOR, on), EMC_OPT_MONITOR) != 0) == on
    ensures And(WithBit(op, EMC_OPT_MONITOR, on), EMC_OPT_CONTROL) == And(op, EMC_OPT_CONTROL)
  {
    var y := WithBit(op, EMC_OPT_MONITOR, on);
    assert y < 4 * (y / 4) + 4;
  }

  /**
   * `push_device_event`: ENODEVICE for an unknown device, EQUEUE with
   * nothing queued when the monitor queue is full, otherwise the record
   * joins the back of the queue.
   */
  method PushEvent(ed: Device?, data: Ptr) returns (r: int, err: Option<Code>)
    requires ed != null ==> ed.Valid()
    modifies if ed == null then {} else {ed.mmq, ed.mmq.node}
    ensures ed == null ==> r == -1 && err == Some(ENoDevice)
    ensures ed != null ==> ed.Valid() && (r == 0 || r == -1)
    ensures ed != null ==> (r == -1 <==> |old(ed.mmq.Pending())| >= RingQueue.RQ_SIZE - 1)
    ensures ed != null && r == -1 ==> err == Some(EQueue) && ed.mmq.Pending() == old(ed.mmq.Pending())
    ensures ed != null && r == 0 ==> err == None && ed.mmq.Pending() == old(ed.mmq.Pending()) + [data]
  {
    if ed == null {
      return -1, Some(ENoDevice);
    }
    var q := ed.mmq.Push(data);
    if q < 0 {
      return -1, Some(EQueue);
    }
    r, err := 0, None;
  }

  /**
   * `emc_monitor`: ENODEVICE for an unknown device. When nothing is queued
   * the caller first waits on the queue, whose result is `waitResult`: a
   * failed wait answers -1. Then the oldest record is taken (EQUEUE when
   * there is none), handed out as `md`, and returned to the monitor record
   * pool. Records pushed by other threads during the wait are not modelled,
   * so a successful wait on an empty queue ends in EQUEUE.
   */
  method Monitor(ed: Device?, g: Global.Runtime, waitResult: int) returns (r: int, err: Option<Code>, md: Ptr)
    requires g.Valid() && (ed != null ==> ed.Valid())
    modifies g.mtheap, if ed == null then {} else {ed.mmq}
    ensures g.Valid()
    ensures ed == null ==> r == -1 && err == Some(ENoDevice)
    ensures ed != null ==> ed.Valid() && (r == 0 || r == -1)
    ensures ed != null && old(ed.mmq.Pending()) == [] ==>
              r == -1 && md == NULL && ed.mmq.Pending() == [] && err == (if waitResult != 0 then None else Some(EQueue))
    ensures ed != null && old(ed.mmq.Pending()) != [] ==>
              r == 0 && err == None && md == old(ed.mmq.Pending())[0] && ed.mmq.Pending() == old(ed.mmq.Pending())[1..]
    ensures ed != null && r == 0 && md != NULL && old(g.mtheap.used) > 0 ==>
              g.mtheap.idle == old(g.mtheap.idle) + [md]
  {
    md := NULL;
    if ed == null {
      return -1, Some(ENoDevice), NULL;
    }
    if ed.mmq.CheckMultiple() == 0 {
      if waitResult != 0 {
        return -1, None, NULL;
      }
    }
    var q;
    q, md := ed.mmq.PopMultiple();
    if q < 0 {
      return -1, Some(EQueue), NULL;
    }
    g.FreeMonitor(md);
    r, err := 0, None;
  }
}
