/**
 * The ring of 8 ints that lives at the front of the shared-memory region and
 * serves as the pool of free peer-slot numbers. It has the same claim/commit
 * cursor scheme as the ring queue with one shared consumer: `pd`/`cursor` on
 * the producer side, `cs`/`committed` on the consumer side, all starting at -1.
 * As there, each compare-and-swap retry loop is one step in this sequential
 * model, and the ghost history `Pushed` lists every value pushed so far.
 */
module RingArray {
  import opened CInt

  const RA_SIZE: int := 8
  const RA_MASK: int := 7

  /** `get_ringarray_size`: the packed struct is 8 nodes and 4 cursors of 4 bytes. */
  function RingArraySize(): (r: int)
    ensures r == 4 * (RA_SIZE + 4) && r == 48
  {
    48
  }

  class Ring {
    const node: array<int>
    var cursor: int
    var pd: int
    var committed: int
    var cs: int
    ghost var Pushed: seq<int>

    ghost predicate Valid()
      reads this, node
    {
      node.Length == RA_SIZE
      && pd == cursor && committed == cs
      && |Pushed| == cursor + 1
      && -1 <= cs <= cursor
      && cursor - cs < RA_SIZE
      && (forall j :: 0 <= j < |Pushed| && |Pushed| - j <= RA_SIZE ==> node[j % RA_SIZE] == Pushed[j])
    }

    /** The values pushed and not yet popped, oldest first. */
    ghost function Contents(): seq<int>
      reads this, node
      requires Valid()
    {
      Pushed[cs + 1..]
    }

    /** A region of zeroed memory, already initialised. */
    constructor ()
      ensures Valid() && fresh(node) && Contents() == []
      ensures forall i :: 0 <= i < RA_SIZE ==> node[i] == 0
      ensures cursor == -1 && pd == -1 && committed == -1 && cs == -1
    {
      node := new int[RA_SIZE](_ => 0);
      cursor, pd, committed, cs := -1, -1, -1, -1;
      Pushed := [];
    }

    /** `init_ringarray`: zero the nodes and put every cursor at -1, so the ring is empty. */
    method Init()
      requires node.Length == RA_SIZE
      modifies this, node
      ensures Valid() && Contents() == []
      ensures forall i :: 0 <= i < RA_SIZE ==> node[i] == 0
      ensures cursor == -1 && pd == -1 && committed == -1 && cs == -1
    {
      forall i | 0 <= i < RA_SIZE {
        node[i] := 0;
      }
      cursor, pd, committed, cs := -1, -1, -1, -1;
      Pushed := [];
    }

    /** `ringarray_check_consumer`: full once the claim cursor is 7 ahead of the committed reads. */
    function IsFull(): (full: bool)
      reads this, node
      requires Valid()
      ensures full <==> |Contents()| >= RA_SIZE - 1
    {
      pd - committed + 1 >= RA_SIZE
    }

    /**
     * `push_ringarray`: -1 and no change when 7 values are held; otherwise
     * `v` is written to `node[(cursor + 1) & 7]` alone and appended.
     */
    method Push(v: int) returns (r: int)
      requires Valid()
      modifies this, node
      ensures Valid()
      ensures r == 0 || r == -1
      ensures r == -1 <==> |old(Contents())| >= RA_SIZE - 1
      ensures r == -1 ==> Contents() == old(Contents()) && node[..] == old(node[..]) && cursor == old(cursor)
      ensures r == 0 ==> (Contents() == old(Contents()) + [v] && cursor == old(cursor) + 1
                          && node[..] == old(node[..])[(old(cursor) + 1) % RA_SIZE := v])
      ensures cs == old(cs)
    {
      if IsFull() {
        return -1;
      }
      pd := pd + 1;
      var c := pd;
      MaskIsMod(c);
      node[And(c, RA_MASK)] := v;
      cursor := c;
      Pushed := Pushed + [v];
      forall j | 0 <= j < |Pushed| && |Pushed| - j <= RA_SIZE
        ensures node[j % RA_SIZE] == Pushed[j]
      {
        if j < c {
          ModDistinct(j, c, RA_SIZE);
        }
      }
      r := 0;
    }

    /** `pop_ringarray`: -1 and no change when empty; otherwise the oldest value is removed and returned. */
    method Pop() returns (r: int, v: int)
      requires Valid()
      modifies this
      ensures Valid()
      ensures r == 0 || r == -1
      ensures r == -1 <==> old(Contents()) == []
      ensures r == -1 ==> Contents() == old(Contents()) && cs == old(cs)
      ensures r == 0 ==> v == old(Contents())[0] && Contents() == old(Contents())[1..] && cs == old(cs) + 1
      ensures cursor == old(cursor) && Pushed == old(Pushed)
    {
      if cursor - cs <= 0 {
        return -1, 0;
      }
      var next := cs + 1;
      if next > cursor {
        return -1, 0;
      }
      cs := next;
      MaskIsMod(next);
      v := node[And(next, RA_MASK)];
      committed := next;
      r := 0;
    }
  }

  /**
   * What a fresh server does to the free-slot pool: push slot numbers
   * 0 .. count-1 in order, ignoring each push's result. Only the first 7
   * are kept.
   */
  method Seed(ra: Ring, count: int)
    requires ra.Valid() && ra.Contents() == [] && count >= 0
    modifies ra, ra.node
    ensures ra.Valid()
    ensures ra.Contents() == seq(if count < RA_SIZE - 1 then count else RA_SIZE - 1, i => i)
  {
    var index := 0;
    while index < count
      invariant 0 <= index <= count
      invariant ra.Valid()
      invariant ra.Contents() == seq(if index < RA_SIZE - 1 then index else RA_SIZE - 1, i => i)
    {
      var _ := ra.Push(index);
      index := index + 1;
    }
  }
}
