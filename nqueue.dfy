/**
 * The fixed-capacity id queue of `nqueue.c`: `EMC_SOCKETS_DEFAULT` int slots
 * of which the first `used` hold the queued ids, front first.
 */
module NQueue {
  import opened Config

  class Queue {
    const ids: array<int>
    var used: int
    var size: int

    ghost predicate Valid()
      reads this
    {
      ids.Length == EMC_SOCKETS_DEFAULT && size == EMC_SOCKETS_DEFAULT && 0 <= used <= size
    }

    /** The queued ids, front first. */
    ghost function Contents(): seq<int>
      reads this, ids
      requires Valid()
    {
      ids[..used]
    }

    /** `create_nqueue`: every slot -1, nothing queued, room for EMC_SOCKETS_DEFAULT ids. */
    constructor ()
      ensures Valid() && fresh(ids) && Contents() == []
      ensures forall i :: 0 <= i < ids.Length ==> ids[i] == -1
    {
      ids := new int[EMC_SOCKETS_DEFAULT](_ => -1);
      used, size := 0, EMC_SOCKETS_DEFAULT;
    }

    /** `nqueue_push`: -1 with no change when all slots are taken, otherwise the id joins the back. */
    method Push(id: int) returns (r: int)
      requires Valid()
      modifies this, ids
      ensures Valid() && (r == 0 || r == -1)
      ensures r == -1 <==> |old(Contents())| >= EMC_SOCKETS_DEFAULT
      ensures r == -1 ==> Contents() == old(Contents())
      ensures r == 0 ==> Contents() == old(Contents()) + [id]
    {
      if used >= size {
        return -1;
      }
      ids[used] := id;
      used := used + 1;
      r := 0;
    }

    /**
     * `nqueue_pop`: -1 with no change when empty (the caller's int is left
     * alone; the model answers -1); otherwise the front id is returned and
     * the rest move down one slot.
     */
    method Pop() returns (r: int, id: int)
      requires Valid()
      modifies this, ids
      ensures Valid() && (r == 0 || r == -1)
      ensures r == -1 <==> old(Contents()) == []
      ensures r == -1 ==> Contents() == old(Contents()) && id == -1
      ensures r == 0 ==> id == old(Contents())[0] && Contents() == old(Contents())[1..]
    {
      if used == 0 {
        return -1, -1;
      }
      ghost var s := Contents();
      id := ids[0];
      used := used - 1;
      if used > 0 {
        forall i | 0 <= i < used {
          ids[i] := ids[i + 1];
        }
      }
      assert Contents() == s[1..];
      r := 0;
    }
  }
}
