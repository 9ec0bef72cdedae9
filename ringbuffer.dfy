/**
 * The shared-memory wire channel: a 16-byte header of four cursors followed
 * by 128 slots of MAX_DATA_SIZE (8192) bytes. `slots` is that trailing byte
 * area; slot `s` occupies bytes `[s * 8192, (s + 1) * 8192)`. The cursor
 * scheme is the ring queue's with one shared consumer, one step per
 * compare-and-swap loop. The ghost history `Pushed` lists every record written.
 */
module RingBuffer {
  import opened CInt
  import opened Config

  const RB_SIZE: int := 0x80
  const RB_MASK: int := 0x7F

  /** Byte offset of slot `s` inside the slot area (after the cursor header). */
  function SlotOffset(s: int): int { MAX_DATA_SIZE * s }

  class Channel {
    const slots: array<byte>
    var cursor: int
    var pd: int
    var committed: int
    var cs: int
    ghost var Pushed: seq<seq<byte>>

    ghost predicate Valid()
      reads this, slots
    {
      slots.Length == RB_SIZE * MAX_DATA_SIZE
      && pd == cursor && committed == cs
      && |Pushed| == cursor + 1
      && -1 <= cs <= cursor
      && cursor - cs < RB_SIZE
      && (forall j :: 0 <= j < |Pushed| ==> |Pushed[j]| <= MAX_DATA_SIZE)
      && (forall j, k :: 0 <= j < |Pushed| && |Pushed| - j <= RB_SIZE && 0 <= k < |Pushed[j]| ==>
            slots[SlotOffset(j % RB_SIZE) + k] == Pushed[j][k])
    }

    /** The records written and not yet read, oldest first. */
    ghost function Contents(): seq<seq<byte>>
      reads this, slots
      requires Valid()
    {
      Pushed[cs + 1..]
    }

    /** A freshly created, zeroed region whose cursors are initialised. */
    constructor ()
      ensures Valid() && fresh(slots) && Contents() == []
      ensures forall i :: 0 <= i < slots.Length ==> slots[i] == 0
      ensures cursor == -1 && pd == -1 && committed == -1 && cs == -1
    {
      slots := new byte[RB_SIZE * MAX_DATA_SIZE](_ => 0);
      cursor, pd, committed, cs := -1, -1, -1, -1;
      Pushed := [];
    }

    /** `init_ringbuffer`: all four cursors to -1; the slot bytes are left as they are. */
    method Init()
      requires slots.Length == RB_SIZE * MAX_DATA_SIZE
      modifies this
      ensures Valid() && Contents() == []
      ensures cursor == -1 && pd == -1 && committed == -1 && cs == -1
    {
      cursor, pd, committed, cs := -1, -1, -1, -1;
      Pushed := [];
    }

    /** `ringbuffer_check_consumer`: full once 127 records are unread. */
    function IsFull(): (full: bool)
      reads this, slots
      requires Valid()
      ensures full <==> |Contents()| >= RB_SIZE - 1
    {
      pd - committed + 1 >= RB_SIZE
    }

    /**
     * `push_ringbuffer`: -1 with no change when the record is longer than
     * 8192 bytes or 127 records are unread; otherwise its bytes are copied to
     * the start of slot `(cursor + 1) & 0x7F`, no other byte changes, and the
     * record is appended.
     */
    method Push(data: seq<byte>) returns (r: int)
      requires Valid()
      modifies this, slots
      ensures Valid()
      ensures r == 0 || r == -1
      ensures r == -1 <==> |data| > MAX_DATA_SIZE || |old(Contents())| >= RB_SIZE - 1
      ensures r == -1 ==> Contents() == old(Contents()) && slots[..] == old(slots[..]) && cursor == old(cursor)
      ensures r == 0 ==> Contents() == old(Contents()) + [data] && cursor == old(cursor) + 1
      ensures r == 0 ==> forall i :: 0 <= i < slots.Length ==>
                slots[i] == (var off := SlotOffset((old(cursor) + 1) % RB_SIZE);
                             if off <= i < off + |data| then data[i - off] else old(slots[i]))
      ensures cs == old(cs)
    {
      if |data| > MAX_DATA_SIZE || IsFull() {
        return -1;
      }
      pd := pd + 1;
      var c := pd;
      MaskIsMod(c);
      var off := SlotOffset(And(c, RB_MASK));
      forall i | 0 <= i < |data| {
        slots[off + i] := data[i];
      }
      cursor := c;
      Pushed := Pushed + [data];
      forall j, k | 0 <= j < |Pushed| && |Pushed| - j <= RB_SIZE && 0 <= k < |Pushed[j]|
        ensures slots[SlotOffset(j % RB_SIZE) + k] == Pushed[j][k]
      {
        if j < c {
          ModDistinct(j, c, RB_SIZE);
        }
      }
      r := 0;
    }

    /**
     * `pop_ringbuffer`: -1 with no change when nothing is unread; otherwise
     * the whole 8192-byte slot of the oldest record is copied out: its first
     * bytes are that record and the rest is what the slot held before.
     */
    method Pop() returns (r: int, out: seq<byte>)
      requires Valid()
      modifies this
      ensures Valid()
      ensures r == 0 || r == -1
      ensures r == -1 <==> old(Contents()) == []
      ensures r == -1 ==> Contents() == old(Contents()) && cs == old(cs)
      ensures r == 0 ==> (var rec := old(Contents())[0];
                          |out| == MAX_DATA_SIZE && out[..|rec|] == rec
                          && out == slots[SlotOffset(cs % RB_SIZE)..SlotOffset(cs % RB_SIZE) + MAX_DATA_SIZE]
                          && Contents() == old(Contents())[1..] && cs == old(cs) + 1)
      ensures cursor == old(cursor) && Pushed == old(Pushed) && slots[..] == old(slots[..])
    {
      if cursor - cs <= 0 {
        return -1, [];
      }
      var next := cs + 1;
      if next > cursor {
        return -1, [];
      }
      cs := next;
      MaskIsMod(next);
      var off := SlotOffset(And(next, RB_MASK));
      out := slots[off..off + MAX_DATA_SIZE];
      committed := next;
      r := 0;
      assert forall k :: 0 <= k < |Pushed[next]| ==> out[k] == Pushed[next][k];
    }
  }
}
