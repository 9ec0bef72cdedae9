/**
 * The byte-stream frame parser used on tcp connections. Each stream unit
 * owns (once data arrives) a 16392-byte buffer whose first `len` bytes are
 * stored, unparsed input; bytes past `len` are stale leftovers that the
 * parser can still read. A frame on the wire is the native 16-bit magic
 * EMC_HEAD (0x5876), a native 16-bit length with bit 15 as a compression
 * flag, then `length` bytes of frame body.
 *
 * The pure functions `AddBytes`, `Scan`, `NextFrame` and `GetAll` give the
 * effect of each operation on the buffer contents; the `Stream` methods
 * perform them in place and are proved to agree with them.
 */
module Unpack {
  import opened CInt
  import opened Config

  const UNPACK_BUFFER_SIZE: int := 16392
  const UNPACK_DEFAULT_COUNT: int := 1024

  /** A whole buffer's contents. */
  type Buffer = b: seq<byte> | |b| == UNPACK_BUFFER_SIZE witness Zeros(UNPACK_BUFFER_SIZE)

  /**
   * Byte `i` as the parser reads it: inside the allocation, or one of the
   * three bytes just past its end (`past`), whose value C leaves undefined.
   */
  function At(b: Buffer, i: int, past: seq<byte>): byte
    requires |past| == 3 && 0 <= i < UNPACK_BUFFER_SIZE + 3
  {
    if i < UNPACK_BUFFER_SIZE then b[i] else past[i - UNPACK_BUFFER_SIZE]
  }

  /** The native 16-bit word at offset `i`. */
  function Word(b: Buffer, i: int, past: seq<byte>): int
    requires |past| == 3 && 0 <= i < UNPACK_BUFFER_SIZE + 2
  {
    U16(At(b, i, past), At(b, i + 1, past))
  }

  /** `unpack_add`'s copy: how many of `n` offered bytes fit after `len` stored bytes. */
  function Room(len: int, n: int): int
  {
    if len + n > UNPACK_BUFFER_SIZE then UNPACK_BUFFER_SIZE - len else n
  }

  datatype Added = Added(buf: Buffer, len: int, ret: int)

  /**
   * `unpack_add`: a missing buffer is first allocated zeroed; then as many
   * of the offered bytes as fit are appended after the stored ones, and the
   * rest are dropped. The value returned is computed from the count AFTER
   * the copy: it is the number offered only while twice that many would
   * have fitted, and otherwise the space left once the copy is done.
   */
  function AddBytes(b: Option<Buffer>, len: int, data: seq<byte>): (r: Added)
    requires 0 <= len <= UNPACK_BUFFER_SIZE
    ensures r.len == len + Room(len, |data|) && len <= r.len <= UNPACK_BUFFER_SIZE
    ensures r.len == if len + |data| <= UNPACK_BUFFER_SIZE then len + |data| else UNPACK_BUFFER_SIZE
    ensures r.buf[..len] == (if b.Some? then b.value else Zeros(UNPACK_BUFFER_SIZE))[..len]
    ensures r.buf[len..r.len] == data[..r.len - len]
    ensures r.buf[r.len..] == (if b.Some? then b.value else Zeros(UNPACK_BUFFER_SIZE))[r.len..]
    ensures len + 2 * |data| <= UNPACK_BUFFER_SIZE ==> r.ret == |data|
    ensures len + 2 * |data| > UNPACK_BUFFER_SIZE ==> r.ret == UNPACK_BUFFER_SIZE - r.len
  {
    var base := if b.Some? then b.value else Zeros(UNPACK_BUFFER_SIZE);
    var n := Room(len, |data|);
    var nb: Buffer := base[..len] + data[..n] + base[len + n..];
    assert nb[..len] == base[..len] && nb[len..len + n] == data[..n] && nb[len + n..] == base[len + n..];
    Added(nb, len + n, Room(len + n, |data|))
  }

  /**
   * The scan of `unpack_get_peer`: starting at offset `o` with `rem`
   * stored bytes left, skip one byte at a time until the word at the
   * current offset is the magic or nothing is left. The result is the
   * offset where it stopped.
   */
  function Scan(b: Buffer, o: int, rem: int, past: seq<byte>): (r: int)
    requires |past| == 3 && 0 <= o && 0 <= rem && o + rem <= UNPACK_BUFFER_SIZE
    ensures o <= r <= o + rem
    ensures r < o + rem ==> Word(b, r, past) == EMC_HEAD
    ensures forall i :: o <= i < r ==> Word(b, i, past) != EMC_HEAD
    decreases rem
  {
    if rem == 0 || Word(b, o, past) == EMC_HEAD then o else Scan(b, o + 1, rem - 1, past)
  }

  /** The 16-bit length field with the compression bit taken off. */
  function FrameLength(raw: int): (length: int)
    requires 0 <= raw < 0x1_0000
    ensures 0 <= length <= 0x8000
    ensures raw <= 0x8000 ==> length == raw
    ensures raw > 0x8000 ==> length == raw - 0x8000
  {
    if 0x8000 < raw then raw - 0x8000 else raw
  }

  /**
   * One parse step: `ret` is what `unpack_get_peer` returns, `frame` the
   * bytes it copies out, `buf`/`len` the new buffer state. `fault` marks the
   * one case where the source's own arithmetic goes wrong: a magic found on
   * the very last stored byte (its second byte was stale) followed by an
   * over-long length, where the byte count handed to `memmove` is negative.
   */
  datatype Step = Step(ret: int, frame: seq<byte>, buf: Buffer, len: int, fault: bool)

  /**
   * `unpack_get_peer`: bytes before the first magic are discarded; with no
   * magic the stored data is gone and 0 is returned. An over-long length
   * drops just the two magic bytes. An incomplete frame is kept, moved to
   * the buffer start. A complete frame's body is returned with the raw
   * length field, and the stored bytes after it move to the buffer start.
   */
  function NextFrame(b: Buffer, len: int, past: seq<byte>): (s: Step)
    requires |past| == 3 && 0 <= len <= UNPACK_BUFFER_SIZE
    ensures 0 <= s.len <= len && 0 <= s.ret < 0x1_0000
    ensures s.ret != 0 ==> !s.fault && s.len <= len - 4 - |s.frame|
  {
    var o := Scan(b, 0, len, past);
    FrameAt(b, o, len - o, past)
  }

  /** The step once the scan stopped at offset `o` with `rem` stored bytes from there on. */
  function FrameAt(b: Buffer, o: int, rem: int, past: seq<byte>): (s: Step)
    requires |past| == 3 && 0 <= o && 0 <= rem && o + rem <= UNPACK_BUFFER_SIZE
    ensures 0 <= s.len <= rem && 0 <= s.ret < 0x1_0000
    ensures s.ret != 0 ==> !s.fault && s.len == rem - 4 - |s.frame|
  {
    if rem == 0 then Step(0, [], b, 0, false)
    else
      var raw := Word(b, o + 2, past);
      var length := FrameLength(raw);
      if length > MAX_DATA_SIZE then Resync(b, o, rem)
      else if rem < length + 4 then Hold(b, o, rem)
      else
        var next := o + length + 4;
        var left := rem - (length + 4);
        Step(raw, b[o + 4..next], if left > 0 then b[next..next + left] + b[left..] else b, left, false)
  }

  /**
   * An over-long length field: the two magic bytes are dropped and the rest
   * moves down. With a single byte stored the count would go negative; the
   * step is flagged as a fault instead.
   */
  function Resync(b: Buffer, o: int, rem: int): (s: Step)
    requires 0 <= o && 0 < rem && o + rem <= UNPACK_BUFFER_SIZE
    ensures s.ret == 0 && s.frame == [] && (s.fault <==> rem < 2)
  {
    if rem < 2 then Step(0, [], b, rem, true)
    else Step(0, [], b[o + 2..o + rem] + b[rem - 2..], rem - 2, false)
  }

  /** An incomplete frame: kept whole, moved to the buffer start. */
  function Hold(b: Buffer, o: int, rem: int): (s: Step)
    requires 0 <= o && 0 <= rem && o + rem <= UNPACK_BUFFER_SIZE
    ensures s.ret == 0 && s.buf[..rem] == b[o..o + rem] && s.len == rem && !s.fault
  {
    Step(0, [], if o > 0 then b[o..o + rem] + b[rem..] else b, rem, false)
  }

  /** The frames handed to the callback by `unpack_get`, and the state it leaves. */
  datatype Parsed = Parsed(frames: seq<(int, seq<byte>)>, buf: Buffer, len: int, fault: bool)

  /**
   * `unpack_get`'s loop: parse until a step returns 0; each nonzero step
   * delivers one frame (its raw length and body) in stream order.
   */
  function GetAll(b: Buffer, len: int, past: seq<byte>): (p: Parsed)
    requires |past| == 3 && 0 <= len <= UNPACK_BUFFER_SIZE
    ensures 0 <= p.len <= len
    decreases len
  {
    var s := NextFrame(b, len, past);
    if s.ret == 0 then Parsed([], s.buf, s.len, s.fault)
    else
      var rest := GetAll(s.buf, s.len, past);
      Parsed([(s.ret, s.frame)] + rest.frames, rest.buf, rest.len, rest.fault)
  }

  /** What a parse leaves once `frames` have been handed out before it. */
  function After(frames: seq<(int, seq<byte>)>, p: Parsed): Parsed
  {
    Parsed(frames + p.frames, p.buf, p.len, p.fault)
  }

  /** Handing out `x` after `frames` is handing out `frames + [x]`. */
  lemma AfterAfter(frames: seq<(int, seq<byte>)>, x: (int, seq<byte>), p: Parsed)
    ensures After(frames, After([x], p)) == After(frames + [x], p)
  {
    assert frames + ([x] + p.frames) == (frames + [x]) + p.frames;
  }

  /** The bytes of one uncompressed frame carrying `body`. */
  function Frame(body: seq<byte>): (f: seq<byte>)
    requires |body| <= MAX_DATA_SIZE
    ensures |f| == |body| + 4
  {
    U16Bytes(EMC_HEAD) + U16Bytes(|body|) + body
  }

  /** A complete frame at the start of the stored data is returned whole and consumed. */
  lemma NextFrameWhole(b: Buffer, len: int, past: seq<byte>, body: seq<byte>)
    requires |past| == 3 && 0 <= len <= UNPACK_BUFFER_SIZE
    requires |body| <= MAX_DATA_SIZE && |body| + 4 <= len
    requires b[..|body| + 4] == Frame(body)
    ensures var s := NextFrame(b, len, past);
            s.ret == |body| && s.frame == body && !s.fault && s.len == len - |body| - 4
            && s.buf[..s.len] == b[|body| + 4..len]
  {
    assert b[0] == Frame(body)[0] && b[1] == Frame(body)[1];
    assert b[2] == Frame(body)[2] && b[3] == Frame(body)[3];
    assert Word(b, 0, past) == EMC_HEAD;
    assert Word(b, 2, past) == |body|;
    assert b[4..|body| + 4] == Frame(body)[4..];
  }

  /** The frames of `bodies` laid end to end. */
  function Wire(bodies: seq<seq<byte>>): (w: seq<byte>)
    requires forall i :: 0 <= i < |bodies| ==> |bodies[i]| <= MAX_DATA_SIZE
    ensures bodies != [] ==> w == Frame(bodies[0]) + Wire(bodies[1..])
  {
    if bodies == [] then [] else Frame(bodies[0]) + Wire(bodies[1..])
  }

  /** What the callback receives for each body: its length field and its bytes. */
  function Delivered(bodies: seq<seq<byte>>): (d: seq<(int, seq<byte>)>)
    ensures |d| == |bodies|
    ensures forall i :: 0 <= i < |bodies| ==> d[i] == (|bodies[i]|, bodies[i])
  {
    if bodies == [] then [] else [(|bodies[0]|, bodies[0])] + Delivered(bodies[1..])
  }

  /** A nonzero step is followed by the parse of what it left. */
  lemma GetAllUnfold(b: Buffer, len: int, past: seq<byte>)
    requires |past| == 3 && 0 <= len <= UNPACK_BUFFER_SIZE
    requires NextFrame(b, len, past).ret != 0
    ensures var s := NextFrame(b, len, past);
            var rest := GetAll(s.buf, s.len, past);
            GetAll(b, len, past) == Parsed([(s.ret, s.frame)] + rest.frames, rest.buf, rest.len, rest.fault)
  {
  }

  /**
   * Stream round trip: stored data made of whole uncompressed frames with
   * nonempty bodies yields exactly those bodies, in order, with their
   * lengths, and leaves nothing stored.
   */
  lemma {:induction false} GetAllFrames(b: Buffer, past: seq<byte>, bodies: seq<seq<byte>>)
    requires |past| == 3
    requires forall i :: 0 <= i < |bodies| ==> 0 < |bodies[i]| <= MAX_DATA_SIZE
    requires |Wire(bodies)| <= UNPACK_BUFFER_SIZE
    requires b[..|Wire(bodies)|] == Wire(bodies)
    ensures GetAll(b, |Wire(bodies)|, past).frames == Delivered(bodies)
    ensures GetAll(b, |Wire(bodies)|, past).len == 0 && !GetAll(b, |Wire(bodies)|, past).fault
    decreases |bodies|
  {
    var all := Wire(bodies);
    if bodies == [] {
      assert NextFrame(b, 0, past).ret == 0;
    } else {
      var f := Frame(bodies[0]);
      var tail := Wire(bodies[1..]);
      assert all == f + tail;
      assert b[..|f|] == all[..|f|] == f;
      NextFrameWhole(b, |all|, past, bodies[0]);
      var s := NextFrame(b, |all|, past);
      assert s.buf[..s.len] == b[|f|..|all|] == all[|f|..] == tail;
      GetAllFrames(s.buf, past, bodies[1..]);
      GetAllUnfold(b, |all|, past);
    }
  }

  /**
   * What a tcp connection does with arriving bytes: append them, then parse.
   * A unit holding nothing that receives whole frames hands every body to
   * the callback in order and ends up empty.
   */
  lemma AddThenGet(b: Option<Buffer>, past: seq<byte>, bodies: seq<seq<byte>>)
    requires |past| == 3
    requires forall i :: 0 <= i < |bodies| ==> 0 < |bodies[i]| <= MAX_DATA_SIZE
    requires |Wire(bodies)| <= UNPACK_BUFFER_SIZE
    ensures var a := AddBytes(b, 0, Wire(bodies));
            a.len == |Wire(bodies)| && GetAll(a.buf, a.len, past).frames == Delivered(bodies)
            && GetAll(a.buf, a.len, past).len == 0
  {
    var a := AddBytes(b, 0, Wire(bodies));
    assert a.buf[..a.len] == Wire(bodies);
    GetAllFrames(a.buf, past, bodies);
  }

  /**
   * A frame whose length field is 0 is consumed but ends the parse: the
   * bytes after it stay stored and nothing more reaches the callback.
   */
  lemma ZeroFrameStops(b: Buffer, len: int, past: seq<byte>)
    requires |past| == 3 && 4 <= len <= UNPACK_BUFFER_SIZE
    requires Word(b, 0, past) == EMC_HEAD && Word(b, 2, past) == 0
    ensures GetAll(b, len, past).frames == []
    ensures GetAll(b, len, past).len == len - 4 && GetAll(b, len, past).buf[..len - 4] == b[4..len]
  {
    assert Scan(b, 0, len, past) == 0;
    var left := len - 4;
    var nb: Buffer := if left > 0 then b[4..4 + left] + b[left..] else b;
    assert FrameAt(b, 0, len, past) == Step(0, b[4..4], nb, left, false);
  }

  /** Stored data with no magic anywhere is discarded entirely and nothing is returned. */
  lemma NoMagicDiscards(b: Buffer, len: int, past: seq<byte>)
    requires |past| == 3 && 0 <= len <= UNPACK_BUFFER_SIZE
    requires forall i :: 0 <= i < len ==> Word(b, i, past) != EMC_HEAD
    ensures NextFrame(b, len, past).ret == 0 && NextFrame(b, len, past).len == 0
  {
  }

  /** One unpack unit: its buffer (null until data arrives) and the stored count. */
  class Stream {
    var buffer: array?<byte>
    var len: int

    ghost predicate Valid()
      reads this
    {
      0 <= len <= UNPACK_BUFFER_SIZE && (buffer != null ==> buffer.Length == UNPACK_BUFFER_SIZE)
    }

    ghost function Bytes(): Option<Buffer>
      reads this, buffer
      requires Valid()
    {
      if buffer == null then None else var v: Buffer := buffer[..]; Some(v)
    }

    constructor ()
      ensures Valid() && buffer == null && len == 0
    {
      buffer, len := null, 0;
    }

    /** `unpack_add` */
    method Add(data: seq<byte>) returns (r: int)
      requires Valid()
      modifies this, buffer
      ensures Valid() && buffer != null
      ensures old(buffer) != null ==> buffer == old(buffer)
      ensures old(buffer) == null ==> fresh(buffer)
      ensures var a := AddBytes(old(Bytes()), old(len), data);
              buffer[..] == a.buf && len == a.len && r == a.ret
    {
      var a := AddBytes(Bytes(), len, data);
      if buffer == null {
        buffer := new byte[UNPACK_BUFFER_SIZE](_ => 0);
      }
      var n := Room(len, |data|);
      forall i | 0 <= i < n {
        buffer[len + i] := data[i];
      }
      len := len + n;
      r := Room(len, |data|);
      assert buffer[..] == a.buf;
    }

    /** `memmove(buffer, buffer + src, n)` */
    method MoveDown(src: int, n: int)
      requires Valid() && buffer != null && 0 <= src && 0 <= n && src + n <= UNPACK_BUFFER_SIZE
      modifies buffer
      ensures buffer[..] == old(buffer[src..src + n] + buffer[n..])
    {
      var tmp := buffer[src..src + n];
      forall i | 0 <= i < n {
        buffer[i] := tmp[i];
      }
      assert buffer[..] == tmp + old(buffer[n..]);
    }

    /** The scan at the head of `unpack_get_peer`: the offset of the first magic, or `len` when there is none. */
    method Seek(past: seq<byte>) returns (o: int)
      requires Valid() && buffer != null && |past| == 3
      ensures o == Scan(buffer[..], 0, len, past)
    {
      var rem := len;
      o := 0;
      while rem != 0 && Word(buffer[..], o, past) != EMC_HEAD
        invariant 0 <= o && 0 <= rem && o + rem == len
        invariant Scan(buffer[..], o, rem, past) == Scan(buffer[..], 0, len, past)
        decreases rem
      {
        o := o + 1;
        rem := rem - 1;
      }
    }

    /** `unpack_get_peer`; `past` stands for the bytes just beyond the buffer. */
    method GetPeer(past: seq<byte>) returns (ret: int, frame: seq<byte>, fault: bool)
      requires Valid() && buffer != null && |past| == 3
      modifies this, buffer
      ensures Valid() && buffer == old(buffer)
      ensures var s := NextFrame(old(buffer[..]), old(len), past);
              ret == s.ret && frame == s.frame && fault == s.fault && buffer[..] == s.buf && len == s.len
    {
      var o := Seek(past);
      ret, frame, fault := Take(o, len - o, past);
    }

    /**
     * One round of `unpack_get`'s loop, stated against the parse `g` of what
     * is stored.
     */
    method NextPeer(past: seq<byte>, ghost g: Parsed) returns (ret: int, frame: seq<byte>, fault: bool)
      requires Valid() && buffer != null && |past| == 3
      requires g == GetAll(buffer[..], len, past)
      modifies this, buffer
      ensures Valid() && buffer == old(buffer)
      ensures ret == 0 ==> g == Parsed([], buffer[..], len, fault)
      ensures ret != 0 ==> len < old(len) && g == After([(ret, frame)], GetAll(buffer[..], len, past))
    {
      ghost var b0: Buffer := buffer[..];
      ghost var len0 := len;
      ret, frame, fault := GetPeer(past);
      if ret != 0 {
        GetAllUnfold(b0, len0, past);
      }
    }

    /** The rest of `unpack_get_peer`, once the scan stopped at offset `o` with `rem` bytes from there on. */
    method Take(o: int, rem: int, past: seq<byte>) returns (ret: int, frame: seq<byte>, fault: bool)
      requires Valid() && buffer != null && |past| == 3
      requires 0 <= o && 0 <= rem && o + rem <= UNPACK_BUFFER_SIZE
      modifies this, buffer
      ensures Valid() && buffer == old(buffer)
      ensures var s := FrameAt(old(buffer[..]), o, rem, past);
              ret == s.ret && frame == s.frame && fault == s.fault && buffer[..] == s.buf && len == s.len
    {
      if rem == 0 {
        len := 0;
        return 0, [], false;
      }
      var raw := Word(buffer[..], o + 2, past);
      var length := FrameLength(raw);
      if length > MAX_DATA_SIZE {
        fault := Skip(o, rem);
        return 0, [], fault;
      }
      if rem < length + 4 {
        Keep(o, rem);
        return 0, [], false;
      }
      frame := Consume(o, rem, length);
      return raw, frame, false;
    }

    /** The over-long branch of `unpack_get_peer`. */
    method Skip(o: int, rem: int) returns (fault: bool)
      requires Valid() && buffer != null
      requires 0 <= o && 0 < rem && o + rem <= UNPACK_BUFFER_SIZE
      modifies this, buffer
      ensures Valid() && buffer == old(buffer)
      ensures var s := Resync(old(buffer[..]), o, rem);
              buffer[..] == s.buf && len == s.len && fault == s.fault
    {
      if rem < 2 {
        len := rem;
        return true;
      }
      MoveDown(o + 2, rem - 2);
      len := rem - 2;
      return false;
    }

    /** The incomplete-frame branch of `unpack_get_peer`. */
    method Keep(o: int, rem: int)
      requires Valid() && buffer != null
      requires 0 <= o && 0 <= rem && o + rem <= UNPACK_BUFFER_SIZE
      modifies this, buffer
      ensures Valid() && buffer == old(buffer)
      ensures var s := Hold(old(buffer[..]), o, rem);
              buffer[..] == s.buf && len == s.len
    {
      if o > 0 {
        MoveDown(o, rem);
      }
      len := rem;
    }

    /** A complete frame of `length` body bytes at offset `o`: copy the body out, move what follows to the start. */
    method Consume(o: int, rem: int, length: int) returns (frame: seq<byte>)
      requires Valid() && buffer != null
      requires 0 <= o && 0 <= length && length + 4 <= rem && o + rem <= UNPACK_BUFFER_SIZE
      modifies this, buffer
      ensures Valid() && buffer == old(buffer)
      ensures var next := o + length + 4;
              var left := rem - (length + 4);
              frame == old(buffer[o + 4..next]) && len == left
              && buffer[..] == if left > 0 then old(buffer[next..next + left] + buffer[left..]) else old(buffer[..])
    {
      var next := o + length + 4;
      var left := rem - (length + 4);
      frame := buffer[o + 4..next];
      if left > 0 {
        MoveDown(next, left);
      }
      len := left;
    }

    /**
     * `unpack_get`: the frames passed to the callback, in order; the buffer
     * is released when nothing is left stored.
     */
    method Get(past: seq<byte>) returns (frames: seq<(int, seq<byte>)>, fault: bool)
      requires Valid() && |past| == 3
      modifies this, buffer
      ensures Valid()
      ensures old(buffer) == null ==> frames == [] && !fault && buffer == null && len == old(len)
      ensures old(buffer) != null ==>
                var p := GetAll(old(buffer[..]), old(len), past);
                frames == p.frames && fault == p.fault && len == p.len
                && (p.len == 0 ==> buffer == null)
                && (p.len != 0 ==> buffer == old(buffer) && buffer[..] == p.buf)
    {
      frames, fault := [], false;
      if buffer == null {
        return;
      }
      frames, fault := Parse(past);
      if len == 0 {
        buffer := null;
      }
    }

    /** The loop of `unpack_get`: parse steps until one returns 0. */
    method Parse(past: seq<byte>) returns (frames: seq<(int, seq<byte>)>, fault: bool)
      requires Valid() && buffer != null && |past| == 3
      modifies this, buffer
      ensures Valid() && buffer == old(buffer)
      ensures GetAll(old(buffer[..]), old(len), past) == Parsed(frames, buffer[..], len, fault)
    {
      frames, fault := [], false;
      var a := buffer;
      ghost var whole := GetAll(a[..], len, past);
      ghost var rest := whole;
      while true
        invariant Valid() && buffer == a
        invariant rest == GetAll(a[..], len, past) && whole == After(frames, rest)
        decreases len
      {
        var ret, frame, f := NextPeer(past, rest);
        if ret == 0 {
          fault := f;
          break;
        }
        rest := GetAll(a[..], len, past);
        AfterAfter(frames, (ret, frame), rest);
        frames := frames + [(ret, frame)];
      }
    }

    /** The part of `unpack_free` that concerns the unit: its buffer is released, its count is left as it was. */
    method Release()
      requires Valid()
      modifies this
      ensures Valid() && buffer == null && len == old(len)
    {
      buffer := null;
    }
  }

  /** The unit pool of `unpack.c`; a unit is named by its index. */
  class Pool {
    const units: seq<Stream>
    var idle: seq<int>

    ghost predicate Valid()
      reads this, set b | 0 <= b < |units| :: units[b]
    {
      (forall b :: 0 <= b < |units| ==> units[b].Valid())
      && (forall i :: 0 <= i < |idle| ==> 0 <= idle[i] < |units|)
    }

    /** `unpack_new`: `count` units (1024 when 0), all empty and idle in order. */
    constructor (count: int)
      requires 0 <= count < U32_MOD
      ensures Valid() && |units| == (if count == 0 then UNPACK_DEFAULT_COUNT else count)
      ensures forall b :: 0 <= b < |units| ==> fresh(units[b]) && units[b].buffer == null && units[b].len == 0
      ensures idle == seq(|units|, i => i)
    {
      var n := if count == 0 then UNPACK_DEFAULT_COUNT else count;
      var us: seq<Stream> := [];
      var q: seq<int> := [];
      while |us| < n
        invariant |us| <= n && q == seq(|us|, i => i)
        invariant forall b :: 0 <= b < |us| ==> fresh(us[b]) && us[b].Valid() && us[b].buffer == null && us[b].len == 0
      {
        var s := new Stream();
        q := q + [|us|];
        us := us + [s];
      }
      units, idle := us, q;
    }

    /** `unpack_alloc`: the oldest idle unit, or -1 (NULL) when none is idle. */
    method Alloc() returns (b: int)
      requires Valid()
      modifies this
      ensures Valid()
      ensures old(idle) == [] ==> b == -1 && idle == []
      ensures old(idle) != [] ==> b == old(idle)[0] && idle == old(idle)[1..] && 0 <= b < |units|
    {
      if idle == [] {
        return -1;
      }
      b := idle[0];
      idle := idle[1..];
    }

    /** `unpack_free`: release the unit's buffer and append it to the idle queue. */
    method Free(b: int)
      requires Valid() && 0 <= b < |units|
      modifies this, units[b]
      ensures Valid()
      ensures units[b].buffer == null && units[b].len == old(units[b].len)
      ensures idle == old(idle) + [b]
    {
      units[b].Release();
      idle := idle + [b];
    }
  }
}
