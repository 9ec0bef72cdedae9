/**
 * The per-connection send queues of `sendqueue.c`. Every connection id in
 * `[0, EMC_SOCKETS_DEFAULT)` has its own queue of pointers, at most 1024
 * long, and a `count` that is its length. Queue cells come from an idle
 * list that is refilled one chunk of EMC_SOCKETS_DEFAULT cells at a time,
 * the chunk pointers living in a table of 1024 entries.
 *
 * The intrusive linked lists are modelled as values: `queues[id]` is the
 * queue of `id` front first, and `idle` is the number of cells on the idle
 * list (which cell is which is not observable).
 */
module SendQueue {
  import opened CInt
  import opened Config

  /** Both the bound on one queue and the size of the chunk table. */
  const SQ_DEFAULT_SIZE: int := 1024

  /** The number of cells in use by all queues together. */
  ghost function Queued(qs: seq<seq<Ptr>>): int
  {
    if qs == [] then 0 else Queued(qs[..|qs| - 1]) + |qs[|qs| - 1]|
  }

  /** Replacing one queue changes the total by the difference in its length. */
  lemma {:induction false} QueuedUpdate(qs: seq<seq<Ptr>>, id: int, q: seq<Ptr>)
    requires 0 <= id < |qs|
    ensures Queued(qs[id := q]) == Queued(qs) - |qs[id]| + |q|
    decreases |qs|
  {
    var n := |qs| - 1;
    if id < n {
      assert qs[id := q][..n] == qs[..n][id := q];
      QueuedUpdate(qs[..n], id, q);
    } else {
      assert qs[id := q][..n] == qs[..n];
    }
  }

  /** With every queue within its bound and one short of it, the cells in use are fewer than all chunks could hold. */
  lemma {:induction false} QueuedBound(qs: seq<seq<Ptr>>, id: int)
    requires forall i :: 0 <= i < |qs| ==> |qs[i]| <= SQ_DEFAULT_SIZE
    requires 0 <= id < |qs| ==> |qs[id]| < SQ_DEFAULT_SIZE
    ensures 0 <= Queued(qs) <= |qs| * SQ_DEFAULT_SIZE
    ensures 0 <= id < |qs| ==> Queued(qs) < |qs| * SQ_DEFAULT_SIZE
    decreases |qs|
  {
    if qs != [] {
      var n := |qs| - 1;
      QueuedBound(qs[..n], if id < n then id else -1);
    }
  }

  lemma {:induction false} QueuedNone(qs: seq<seq<Ptr>>)
    requires forall i :: 0 <= i < |qs| ==> qs[i] == []
    ensures Queued(qs) == 0
    decreases |qs|
  {
    if qs != [] {
      QueuedNone(qs[..|qs| - 1]);
    }
  }

  class Queues {
    const count: array<int>
    var queues: seq<seq<Ptr>>
    var idle: int
    var total: int

    /** Every id's count is its queue's length, within the bound, and the chunk table has room. */
    ghost predicate Shape()
      reads this, count
    {
      count.Length == EMC_SOCKETS_DEFAULT && |queues| == EMC_SOCKETS_DEFAULT
      && (forall id :: 0 <= id < EMC_SOCKETS_DEFAULT ==> count[id] == |queues[id]| <= SQ_DEFAULT_SIZE)
      && 1 <= total <= SQ_DEFAULT_SIZE && 0 <= idle
    }

    /** ... and every cell of every chunk is either idle or queued. */
    ghost predicate Valid()
      reads this, count
    {
      Shape() && idle + Queued(queues) == total * EMC_SOCKETS_DEFAULT
    }

    /** `create_sendqueue`: every queue empty and one chunk of cells idle. */
    constructor ()
      ensures Valid() && fresh(count) && total == 1 && idle == EMC_SOCKETS_DEFAULT
      ensures forall id :: 0 <= id < EMC_SOCKETS_DEFAULT ==> queues[id] == []
    {
      var qs: seq<seq<Ptr>> := seq(EMC_SOCKETS_DEFAULT, _ => []);
      QueuedNone(qs);
      count := new int[EMC_SOCKETS_DEFAULT](_ => 0);
      queues := qs;
      total, idle := 1, EMC_SOCKETS_DEFAULT;
    }

    /**
     * The cell taken by a push: the idle list is refilled with a new chunk
     * when empty. A refill never needs a 1025th chunk: an empty idle list
     * means every cell is queued, and a queue with room leaves fewer cells
     * queued than 1024 chunks hold.
     */
    method TakeCell(id: int)
      requires Valid() && 0 <= id < EMC_SOCKETS_DEFAULT && count[id] < SQ_DEFAULT_SIZE
      modifies this
      ensures Shape() && queues == old(queues) && idle == old(idle) + (if old(idle) == 0 then EMC_SOCKETS_DEFAULT else 0) - 1
      ensures total == old(total) + if old(idle) == 0 then 1 else 0
      ensures idle + 1 + Queued(queues) == total * EMC_SOCKETS_DEFAULT
    {
      if idle == 0 {
        QueuedBound(queues, id);
        total := total + 1;
        idle := idle + EMC_SOCKETS_DEFAULT;
      }
      idle := idle - 1;
    }

    /**
     * `sendqueue_push`: -1 with no change for an id out of range or a queue
     * already 1024 long; otherwise the pointer joins the back of that id's
     * queue and nothing else changes.
     */
    method Push(id: int, data: Ptr) returns (r: int)
      requires Valid()
      modifies this, count
      ensures Valid() && (r == 0 || r == -1)
      ensures r == -1 <==> !(0 <= id < EMC_SOCKETS_DEFAULT) || |old(queues)[id]| >= SQ_DEFAULT_SIZE
      ensures r == -1 ==> queues == old(queues) && total == old(total)
      ensures r == 0 ==> queues == old(queues)[id := old(queues)[id] + [data]]
    {
      if id < 0 || id >= EMC_SOCKETS_DEFAULT {
        return -1;
      }
      if count[id] >= SQ_DEFAULT_SIZE {
        return -1;
      }
      TakeCell(id);
      QueuedUpdate(queues, id, queues[id] + [data]);
      queues := queues[id := queues[id] + [data]];
      count[id] := count[id] + 1;
      r := 0;
    }

    /** `sendqueue_push_head`: as `Push`, but the pointer goes to the front. */
    method PushHead(id: int, data: Ptr) returns (r: int)
      requires Valid()
      modifies this, count
      ensures Valid() && (r == 0 || r == -1)
      ensures r == -1 <==> !(0 <= id < EMC_SOCKETS_DEFAULT) || |old(queues)[id]| >= SQ_DEFAULT_SIZE
      ensures r == -1 ==> queues == old(queues) && total == old(total)
      ensures r == 0 ==> queues == old(queues)[id := [data] + old(queues)[id]]
    {
      if id < 0 || id >= EMC_SOCKETS_DEFAULT {
        return -1;
      }
      if count[id] >= SQ_DEFAULT_SIZE {
        return -1;
      }
      TakeCell(id);
      QueuedUpdate(queues, id, [data] + queues[id]);
      queues := queues[id := [data] + queues[id]];
      count[id] := count[id] + 1;
      r := 0;
    }

    /**
     * `sendqueue_pop`: -1 with no change for an id out of range or an empty
     * queue; otherwise that queue's front pointer is returned and removed,
     * and its cell goes back to the idle list.
     */
    method Pop(id: int) returns (r: int, data: Ptr)
      requires Valid()
      modifies this, count
      ensures Valid() && (r == 0 || r == -1)
      ensures r == -1 <==> !(0 <= id < EMC_SOCKETS_DEFAULT) || old(queues)[id] == []
      ensures r == -1 ==> queues == old(queues) && data == NULL
      ensures r == 0 ==> data == old(queues)[id][0] && queues == old(queues)[id := old(queues)[id][1..]]
      ensures total == old(total)
    {
      if id < 0 || id >= EMC_SOCKETS_DEFAULT {
        return -1, NULL;
      }
      if count[id] == 0 {
        return -1, NULL;
      }
      data := queues[id][0];
      QueuedUpdate(queues, id, queues[id][1..]);
      queues := queues[id := queues[id][1..]];
      count[id] := count[id] - 1;
      idle := idle + 1;
      r := 0;
    }

    /** `sendqueue_size`: the length of the id's queue, 0 for an id out of range. */
    function Size(id: int): (n: int)
      reads this, count
      requires Valid()
      ensures n == if 0 <= id < EMC_SOCKETS_DEFAULT then |queues[id]| else 0
      ensures 0 <= n <= SQ_DEFAULT_SIZE
    {
      if id < 0 || id >= EMC_SOCKETS_DEFAULT then 0 else count[id]
    }
  }
}
