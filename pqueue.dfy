/**
 * The growable pointer queue of `pqueue.c`: an array `units` of `size`
 * slots of which the first `used` hold the queued pointers, front first.
 * It grows by 1024 slots whenever a push finds it full. The library uses one
 * as the pool of free connection ids.
 */
module PQueue {
  import opened CInt

  const PQUEUE_SIZE: int := 1024

  class Queue {
    var units: array<Ptr>
    var used: int
    var size: int

    ghost predicate Valid()
      reads this
    {
      size == units.Length && 0 <= used <= size && size >= PQUEUE_SIZE && size % PQUEUE_SIZE == 0
    }

    /** The queued pointers, front first. */
    ghost function Contents(): seq<Ptr>
      reads this, units
      requires Valid()
    {
      units[..used]
    }

    /** `create_pqueue`: 1024 zeroed slots and nothing queued. */
    constructor ()
      ensures Valid() && fresh(units) && Contents() == [] && size == PQUEUE_SIZE
    {
      units := new Ptr[PQUEUE_SIZE](_ => NULL);
      used, size := 0, PQUEUE_SIZE;
    }

    /** The `realloc` step shared by both pushes: 1024 more slots when full. */
    method Grow()
      requires Valid()
      modifies this
      ensures Valid() && Contents() == old(Contents()) && used == old(used) && used < size
      ensures size == if old(used) >= old(size) then old(size) + PQUEUE_SIZE else old(size)
      ensures old(used) < old(size) ==> units == old(units)
      ensures old(used) >= old(size) ==> fresh(units)
    {
      if used >= size {
        var bigger := new Ptr[size + PQUEUE_SIZE](_ => NULL);
        forall i | 0 <= i < used {
          bigger[i] := units[i];
        }
        assert bigger[..used] == units[..used];
        units, size := bigger, size + PQUEUE_SIZE;
      }
    }

    /** `pqueue_push`: the pointer joins the back; it always succeeds. */
    method Push(data: Ptr) returns (r: int)
      requires Valid()
      modifies this, units
      ensures Valid() && r == 0
      ensures Contents() == old(Contents()) + [data]
      ensures size == if old(used) >= old(size) then old(size) + PQUEUE_SIZE else old(size)
      ensures units == old(units) || fresh(units)
    {
      Grow();
      units[used] := data;
      used := used + 1;
      r := 0;
    }

    /** `pqueue_push_head`: everything moves up one slot and the pointer takes the front. */
    method PushHead(data: Ptr) returns (r: int)
      requires Valid()
      modifies this, units
      ensures Valid() && r == 0
      ensures Contents() == [data] + old(Contents())
      ensures size == if old(used) >= old(size) then old(size) + PQUEUE_SIZE else old(size)
      ensures units == old(units) || fresh(units)
    {
      Grow();
      ghost var s := Contents();
      if used > 0 {
        forall i | 0 <= i < used {
          units[i + 1] := units[i];
        }
        units[0] := data;
        used := used + 1;
      } else {
        units[used] := data;
        used := used + 1;
      }
      assert Contents() == [data] + s;
      r := 0;
    }

    /**
     * `pqueue_pop`: -1 with no change when empty (the caller's pointer is
     * left alone; the model answers NULL); otherwise the front pointer is
     * returned and the rest move down one slot.
     */
    method Pop() returns (r: int, data: Ptr)
      requires Valid()
      modifies this, units
      ensures Valid() && (r == 0 || r == -1)
      ensures r == -1 <==> old(Contents()) == []
      ensures r == -1 ==> Contents() == old(Contents()) && data == NULL
      ensures r == 0 ==> data == old(Contents())[0] && Contents() == old(Contents())[1..]
      ensures units == old(units) && size == old(size)
    {
      if used == 0 {
        return -1, NULL;
      }
      ghost var s := Contents();
      data := units[0];
      used := used - 1;
      if used > 0 {
        forall i | 0 <= i < used {
          units[i] := units[i + 1];
        }
      }
      assert Contents() == s[1..];
      r := 0;
    }

    /** `pqueue_size`: the number of queued pointers. */
    function Size(): (n: int)
      reads this, units
      requires Valid()
      ensures n == |Contents()|
    {
      used
    }
  }
}
