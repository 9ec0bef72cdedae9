/**
 * The de-duplicating event queue of `uniquequeue.c`: `queue` holds `used`
 * (id, addition) pairs, oldest first, and `ids[v]` marks the ids currently
 * queued, so an id is never queued twice. Ids index `ids` unchecked, so
 * every operation asks for `0 <= v < UNIQUE_SIZE`. Waking the waiting
 * side (`post_event`) is left out.
 */
module UniqueQueue {
  import opened CInt

  const UNIQUE_SIZE: int := 0x10000
  /** `(uint)-1`, the failure answer of `push_uqueue`. */
  const PUSH_FAILED: int := 0xFFFF_FFFF

  datatype UNode = UNode(id: int, addition: Ptr)

  predicate Queued(q: seq<UNode>, v: int)
  {
    exists i :: 0 <= i < |q| && q[i].id == v
  }

  predicate Distinct(q: seq<UNode>)
  {
    forall i, j :: 0 <= i < j < |q| ==> q[i].id != q[j].id
  }

  /** The marks agree with the queue, whose ids are in range and distinct. */
  ghost predicate Marks(ids: seq<int>, q: seq<UNode>)
  {
    |ids| == UNIQUE_SIZE && Distinct(q)
    && (forall i :: 0 <= i < |q| ==> 0 <= q[i].id < UNIQUE_SIZE)
    && (forall v :: 0 <= v < UNIQUE_SIZE ==> ids[v] == if Queued(q, v) then 1 else 0)
  }

  /** Queueing an unmarked id and marking it keeps the marks right. */
  lemma MarksPush(ids: seq<int>, q: seq<UNode>, n: UNode)
    requires Marks(ids, q) && 0 <= n.id < UNIQUE_SIZE && ids[n.id] == 0
    ensures Marks(ids[n.id := 1], q + [n])
  {
    var q' := q + [n];
    forall v | 0 <= v < UNIQUE_SIZE
      ensures Queued(q', v) <==> Queued(q, v) || v == n.id
    {
      if Queued(q', v) && v != n.id {
        var i :| 0 <= i < |q'| && q'[i].id == v;
        assert q[i].id == v;
      }
      if Queued(q, v) {
        var i :| 0 <= i < |q| && q[i].id == v;
        assert q'[i].id == v;
      }
      if v == n.id {
        assert q'[|q|].id == v;
      }
    }
  }

  /** Dropping the oldest pair and clearing its mark keeps the marks right. */
  lemma MarksPop(ids: seq<int>, q: seq<UNode>)
    requires Marks(ids, q) && q != []
    ensures Marks(ids[q[0].id := 0], q[1..])
  {
    var q' := q[1..];
    forall v | 0 <= v < UNIQUE_SIZE
      ensures Queued(q', v) <==> Queued(q, v) && v != q[0].id
    {
      if Queued(q', v) {
        var i :| 0 <= i < |q'| && q'[i].id == v;
        assert q[i + 1].id == v;
      }
      if Queued(q, v) && v != q[0].id {
        var i :| 0 <= i < |q| && q[i].id == v;
        assert q'[i - 1].id == v;
      }
    }
  }

  /** The ids `0 .. n - 1` that are queued. */
  ghost function QueuedBelow(q: seq<UNode>, n: nat): set<int>
  {
    set v | 0 <= v < n && Queued(q, v)
  }

  /** The ids held by `q[..k]`. */
  ghost function Held(q: seq<UNode>, k: nat): set<int>
    requires k <= |q|
  {
    set i | 0 <= i < k :: q[i].id
  }

  lemma {:induction false} HeldSize(q: seq<UNode>, k: nat)
    requires Distinct(q) && k <= |q|
    ensures |Held(q, k)| == k
    decreases k
  {
    if k > 0 {
      HeldSize(q, k - 1);
      assert Held(q, k) == Held(q, k - 1) + {q[k - 1].id};
      assert q[k - 1].id !in Held(q, k - 1);
    }
  }

  lemma {:induction false} BelowSize(q: seq<UNode>, n: nat)
    ensures |QueuedBelow(q, n)| <= n
    decreases n
  {
    if n > 0 {
      BelowSize(q, n - 1);
      SubsetSize(QueuedBelow(q, n), QueuedBelow(q, n - 1) + {n - 1});
    }
  }

  /** One id that is not queued leaves at most `n - 1` queued ids below `n`. */
  lemma {:induction false} BelowSizeMissing(q: seq<UNode>, n: nat, v: int)
    requires 0 <= v < n && !Queued(q, v)
    ensures |QueuedBelow(q, n)| <= n - 1
    decreases n
  {
    if v == n - 1 {
      BelowSize(q, n - 1);
      assert QueuedBelow(q, n) == QueuedBelow(q, n - 1);
    } else {
      BelowSizeMissing(q, n - 1, v);
      SubsetSize(QueuedBelow(q, n), QueuedBelow(q, n - 1) + {n - 1});
    }
  }

  /**
   * A queue whose ids are distinct and in range can only be full when it
   * holds every id, so a push of an id that is not queued always finds room.
   */
  lemma NotQueuedHasRoom(ids: seq<int>, q: seq<UNode>, v: int)
    requires Marks(ids, q) && 0 <= v < UNIQUE_SIZE && !Queued(q, v)
    ensures |q| < UNIQUE_SIZE
  {
    HeldSize(q, |q|);
    BelowSizeMissing(q, UNIQUE_SIZE, v);
    assert Held(q, |q|) <= QueuedBelow(q, UNIQUE_SIZE) by {
      forall x | x in Held(q, |q|) ensures x in QueuedBelow(q, UNIQUE_SIZE) {
        var i :| 0 <= i < |q| && q[i].id == x;
      }
    }
    SubsetSize(Held(q, |q|), QueuedBelow(q, UNIQUE_SIZE));
  }

  lemma SubsetSize(a: set<int>, b: set<int>)
    requires a <= b
    ensures |a| <= |b|
  {
    assert b == a + (b - a);
  }

  class Queue {
    const ids: array<int>
    const queue: array<UNode>
    var used: int

    ghost predicate Valid()
      reads this, ids, queue
    {
      queue.Length == UNIQUE_SIZE && 0 <= used <= UNIQUE_SIZE && Marks(ids[..], queue[..used])
    }

    /** The queued pairs, oldest first. */
    ghost function Contents(): seq<UNode>
      reads this, queue
      requires 0 <= used <= queue.Length
    {
      queue[..used]
    }

    /** `create_uqueue`: all zero, so nothing is queued or marked. */
    constructor ()
      ensures Valid() && fresh(ids) && fresh(queue) && Contents() == []
    {
      ids := new int[UNIQUE_SIZE](_ => 0);
      queue := new UNode[UNIQUE_SIZE](_ => UNode(0, NULL));
      used := 0;
    }

    /**
     * `push_uqueue`: an id already queued answers 0 and changes nothing;
     * otherwise the pair joins the back and the id is marked. The full
     * answer `(uint)-1` is never given: a queue of distinct ids with room
     * for every id cannot be full while `v` is missing from it.
     */
    method Push(v: int, p: Ptr) returns (r: int)
      requires Valid() && 0 <= v < UNIQUE_SIZE
      modifies this, ids, queue
      ensures Valid() && r == 0
      ensures Queued(old(Contents()), v) ==> Contents() == old(Contents())
      ensures !Queued(old(Contents()), v) ==> Contents() == old(Contents()) + [UNode(v, p)]
      ensures Queued(Contents(), v)
    {
      ghost var ms, q := ids[..], Contents();
      if ids[v] > 0 {
        return 0;
      }
      NotQueuedHasRoom(ms, q, v);
      if used >= UNIQUE_SIZE {
        return PUSH_FAILED;
      }
      queue[used] := UNode(v, p);
      used := used + 1;
      ids[v] := 1;
      assert ids[..] == ms[v := 1];
      assert Contents() == q + [UNode(v, p)];
      MarksPush(ms, q, UNode(v, p));
      assert Contents()[|q|].id == v;
      r := 0;
    }

    /**
     * `pop_uqueue`: -1 when empty; otherwise the oldest id is returned with
     * its addition, removed, and its mark cleared, so it may be pushed again.
     */
    method Pop() returns (v: int, addition: Ptr)
      requires Valid()
      modifies this, ids, queue
      ensures Valid()
      ensures old(Contents()) == [] ==> v == -1 && Contents() == old(Contents())
      ensures old(Contents()) != [] ==> UNode(v, addition) == old(Contents())[0]
                                        && Contents() == old(Contents())[1..] && !Queued(Contents(), v)
    {
      if used == 0 {
        return -1, NULL;
      }
      ghost var ms, q := ids[..], Contents();
      v := queue[0].id;
      addition := queue[0].addition;
      if used > 1 {
        forall i | 0 <= i < used - 1 {
          queue[i] := queue[i + 1];
        }
      }
      ids[v] := 0;
      used := used - 1;
      assert ids[..] == ms[v := 0];
      assert Contents() == q[1..];
      MarksPop(ms, q);
    }
  }
}
