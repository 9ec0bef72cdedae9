/**
 * The pointer ring of 65536 slots used as the in-process send queue.
 * A claim cursor (`pd`) and a commit cursor (`cursor`) mark what was
 * produced; in multi-consumer mode one shared pair (`mcsCursor`, `committed`)
 * marks what was consumed, in single-consumer mode each registered consumer
 * `i` has its own cursor `cs[i]`. Every cursor starts at -1.
 *
 * The model is sequential: each compare-and-swap retry loop of the source is
 * one step, so the claim and commit cursors (and `mcsCursor`/`committed`) are
 * always equal between operations. The ghost history `Pushed` holds every
 * item ever pushed; item number `j` lives in slot `j & 0xFFFF` until it is
 * overwritten 65536 pushes later.
 */
module RingQueue {
  import opened CInt

  const RQ_SIZE: int := 0x10000
  const RQ_MASK: int := 0xFFFF
  const RQ_CONSUMER: int := 1024
  /** Queue modes: one cursor per consumer, or one shared consumer cursor. */
  const RQ_S: int := 0
  const RQ_M: int := 1

  /**
   * The full test of `ringqueue_check_consumer` on the cursor values: in
   * single mode only the consumers with index below `count` are scanned, in
   * multiple mode the shared committed cursor is compared; any other mode is
   * never full.
   */
  predicate FullCheck(mode: int, pd: int, cs: seq<int>, count: int, committed: int)
  {
    if mode == RQ_S then
      exists i :: 0 <= i < count && i < |cs| && pd >= cs[i] && pd - cs[i] + 1 >= RQ_SIZE
    else if mode == RQ_M then
      pd >= committed && pd - committed + 1 >= RQ_SIZE
    else
      false
  }

  /**
   * The consumer with the highest registered index, `count`, is never
   * looked at by the full test: whatever its cursor, the verdict is the same.
   */
  lemma LastConsumerUnchecked(pd: int, cs: seq<int>, count: int, committed: int, other: int)
    requires 0 <= count < |cs|
    ensures FullCheck(RQ_S, pd, cs, count, committed) == FullCheck(RQ_S, pd, cs[count := other], count, committed)
  {
    if FullCheck(RQ_S, pd, cs, count, committed) {
      var i :| 0 <= i < count && i < |cs| && pd >= cs[i] && pd - cs[i] + 1 >= RQ_SIZE;
      assert cs[count := other][i] == cs[i];
    }
    if FullCheck(RQ_S, pd, cs[count := other], count, committed) {
      var i :| 0 <= i < count && i < |cs| && pd >= cs[count := other][i] && pd - cs[count := other][i] + 1 >= RQ_SIZE;
      assert cs[count := other][i] == cs[i];
    }
  }

  /** Slot `j % RQ_SIZE` of `ns` holds item `j` of `pushed`, for the last RQ_SIZE items. */
  ghost predicate Mirrors(ns: seq<Ptr>, pushed: seq<Ptr>)
  {
    |ns| == RQ_SIZE && forall j :: 0 <= j < |pushed| && |pushed| - j <= RQ_SIZE ==> ns[j % RQ_SIZE] == pushed[j]
  }

  /** Writing the next item into its slot keeps the slots mirroring the history. */
  lemma MirrorsPush(ns: seq<Ptr>, pushed: seq<Ptr>, p: Ptr)
    requires Mirrors(ns, pushed)
    ensures Mirrors(ns[|pushed| % RQ_SIZE := p], pushed + [p])
  {
    var c := |pushed|;
    var ns', pushed' := ns[c % RQ_SIZE := p], pushed + [p];
    forall j | 0 <= j < |pushed'| && |pushed'| - j <= RQ_SIZE
      ensures ns'[j % RQ_SIZE] == pushed'[j]
    {
      if j < c {
        ModDistinct(j, c, RQ_SIZE);
      }
    }
  }

  class Queue {
    const mode: int
    const node: array<Ptr>
    const cs: array<int>
    /** commit cursor: the last item readable by consumers */
    var cursor: int
    /** producer claim cursor */
    var pd: int
    /** the last consumer index handed out */
    var count: int
    /** shared consumer: committed and claimed cursors */
    var committed: int
    var mcsCursor: int
    /** every item pushed so far, oldest first */
    ghost var Pushed: seq<Ptr>

    ghost predicate Valid()
      reads this, node, cs
    {
      node.Length == RQ_SIZE && cs.Length == RQ_CONSUMER && node != cs
      && 0 <= mode < 256
      && pd == cursor && committed == mcsCursor
      && |Pushed| == cursor + 1
      && -1 <= mcsCursor <= cursor
      && -1 <= count < RQ_CONSUMER
      && (forall i :: 0 <= i < RQ_CONSUMER ==> -1 <= cs[i] <= cursor)
      && (forall j :: 0 <= j < |Pushed| && |Pushed| - j <= RQ_SIZE ==> node[j % RQ_SIZE] == Pushed[j])
      && (mode == RQ_M ==> cursor - mcsCursor < RQ_SIZE)
    }

    /** The items not yet taken by the shared consumer, oldest first. */
    ghost function Pending(): seq<Ptr>
      reads this, node, cs
      requires Valid()
    {
      Pushed[mcsCursor + 1..]
    }

    /** The items not yet taken by single consumer `index`, oldest first. */
    ghost function ConsumerPending(index: int): seq<Ptr>
      reads this, node, cs
      requires Valid() && 0 <= index < RQ_CONSUMER
    {
      Pushed[cs[index] + 1..]
    }

    /** The verdict of the full test on the current cursors. */
    ghost predicate Full()
      reads this, cs
      requires cs.Length == RQ_CONSUMER && count < RQ_CONSUMER
    {
      FullCheck(mode, pd, cs[..], count, committed)
    }

    constructor (m: int)
      requires 0 <= m < 256
      ensures Valid() && fresh(node) && fresh(cs)
      ensures mode == m && Pushed == [] && Pending() == []
      ensures cursor == -1 && pd == -1 && count == -1 && committed == -1 && mcsCursor == -1
      ensures forall i :: 0 <= i < RQ_CONSUMER ==> cs[i] == -1
    {
      mode := m;
      node := new Ptr[RQ_SIZE](_ => NULL);
      var c := new int[RQ_CONSUMER];
      var index := 0;
      while index < RQ_CONSUMER
        invariant 0 <= index <= RQ_CONSUMER
        invariant forall i :: 0 <= i < index ==> c[i] == -1
      {
        c[index] := -1;
        index := index + 1;
      }
      cs := c;
      cursor, count, pd, mcsCursor, committed := -1, -1, -1, -1, -1;
      Pushed := [];
    }

    /** `ringqueue_check_consumer`: true when a push must be refused. */
    method CheckConsumer() returns (full: bool)
      requires Valid()
      ensures full == FullCheck(mode, pd, cs[..], count, committed)
    {
      full := false;
      if mode == RQ_S {
        var index := 0;
        while index < count
          invariant 0 <= index <= if count < 0 then 0 else count
          invariant forall i :: 0 <= i < index ==> !(pd >= cs[i] && pd - cs[i] + 1 >= RQ_SIZE)
        {
          if pd >= cs[index] && pd - cs[index] + 1 >= RQ_SIZE {
            assert cs[..][index] == cs[index];
            full := true;
            return;
          }
          index := index + 1;
        }
        assert forall i :: 0 <= i < count && i < |cs[..]| ==> cs[..][i] == cs[i];
      } else if mode == RQ_M {
        full := pd >= committed && pd - committed + 1 >= RQ_SIZE;
      }
    }

    /** `get_single_consumer`: hands out consumer indices 0, 1, 2, ... in turn. */
    method GetSingleConsumer() returns (index: int)
      requires Valid() && count < RQ_CONSUMER - 1
      modifies this
      ensures Valid() && index == old(count) + 1 && count == index
      ensures cursor == old(cursor) && mcsCursor == old(mcsCursor) && Pushed == old(Pushed)
    {
      count := count + 1;
      index := count;
    }

    /**
     * `push_ringqueue`: refused with -1 and no change when the full test
     * holds; otherwise the item goes to slot `(cursor + 1) & 0xFFFF`, no
     * other slot changes, and both producer cursors advance by one.
     */
    method Push(p: Ptr) returns (r: int)
      requires Valid()
      modifies this, node
      ensures Valid()
      ensures r == -1 <==> old(Full())
      ensures r == 0 || r == -1
      ensures r == -1 ==> Pushed == old(Pushed) && cursor == old(cursor) && node[..] == old(node[..])
      ensures r == 0 ==> (Pushed == old(Pushed) + [p] && cursor == old(cursor) + 1
                          && node[..] == old(node[..])[(old(cursor) + 1) % RQ_SIZE := p])
      ensures mcsCursor == old(mcsCursor) && count == old(count)
      ensures mode == RQ_M ==> (r == -1 <==> |old(Pending())| >= RQ_SIZE - 1)
      ensures r == 0 ==> Pending() == old(Pending()) + [p]
    {
      var full := CheckConsumer();
      if full {
        return -1;
      }
      Store(p);
      r := 0;
    }

    /** The accepted half of `push_ringqueue`: claim the next cursor, fill its slot, publish it. */
    method Store(p: Ptr)
      requires Valid() && !Full()
      modifies this, node
      ensures Valid() && Pushed == old(Pushed) + [p] && cursor == old(cursor) + 1
      ensures node[..] == old(node[..])[(old(cursor) + 1) % RQ_SIZE := p]
      ensures mcsCursor == old(mcsCursor) && count == old(count)
    {
      ghost var ns := node[..];
      assert Mirrors(ns, Pushed) by {
        forall j | 0 <= j < |Pushed| && |Pushed| - j <= RQ_SIZE
          ensures ns[j % RQ_SIZE] == Pushed[j]
        {
          assert node[j % RQ_SIZE] == Pushed[j];
        }
      }
      MirrorsPush(ns, Pushed, p);
      pd := pd + 1;
      var c := pd;
      MaskIsMod(c);
      node[And(c, RQ_MASK)] := p;
      cursor := c;
      Pushed := Pushed + [p];
      assert node[..] == ns[c % RQ_SIZE := p];
      forall j | 0 <= j < |Pushed| && |Pushed| - j <= RQ_SIZE
        ensures node[j % RQ_SIZE] == Pushed[j]
      {
        assert node[..][j % RQ_SIZE] == Pushed[j];
      }
    }

    /**
     * `pop_ringqueue_single`: consumer `index` has nothing left when its
     * cursor equals the commit cursor; otherwise its cursor advances and the
     * item in that slot is returned. Unless this consumer was overrun by a
     * full ring of newer pushes, that item is the next one it has not seen.
     */
    method PopSingle(index: int) returns (r: int, p: Ptr)
      requires Valid() && 0 <= index < RQ_CONSUMER
      modifies cs
      ensures Valid()
      ensures r == -1 <==> old(cs[index]) == cursor
      ensures r == 0 || r == -1
      ensures r == -1 ==> cs[..] == old(cs[..])
      ensures r == 0 ==> (cs[..] == old(cs[..])[index := old(cs[index]) + 1]
                          && p == node[(old(cs[index]) + 1) % RQ_SIZE])
      ensures r == 0 && cursor - old(cs[index]) <= RQ_SIZE ==>
                p == old(ConsumerPending(index))[0] && ConsumerPending(index) == old(ConsumerPending(index))[1..]
    {
      if cursor == cs[index] {
        return -1, NULL;
      }
      var c := cs[index] + 1;
      cs[index] := c;
      MaskIsMod(c);
      p := node[And(c, RQ_MASK)];
      r := 0;
    }

    /**
     * `pop_ringqueue_multiple`: -1 with no change when the shared consumer
     * has caught up with the commit cursor; otherwise the oldest pending item
     * is returned and removed. In multiple mode the full test guarantees the
     * item was not overwritten.
     */
    method PopMultiple() returns (r: int, p: Ptr)
      requires Valid()
      modifies this
      ensures Valid()
      ensures r == -1 <==> old(cursor - mcsCursor) <= 0
      ensures r == 0 || r == -1
      ensures cursor == old(cursor) && count == old(count) && Pushed == old(Pushed)
      ensures r == -1 ==> mcsCursor == old(mcsCursor)
      ensures r == 0 ==> mcsCursor == old(mcsCursor) + 1 && p == node[mcsCursor % RQ_SIZE]
      ensures r == 0 && (mode == RQ_M || old(cursor - mcsCursor) <= RQ_SIZE) ==>
                p == old(Pending())[0] && Pending() == old(Pending())[1..]
    {
      if cursor - mcsCursor <= 0 {
        return -1, NULL;
      }
      var next := mcsCursor + 1;
      if next > cursor {
        return -1, NULL;
      }
      mcsCursor := next;
      MaskIsMod(next);
      p := node[And(next, RQ_MASK)];
      committed := next;
      r := 0;
    }

    /** `check_ringqueue_single`: 0 exactly when single consumer `index` has nothing to pop. */
    function CheckSingle(index: int): (r: int)
      reads this, node, cs
      requires Valid() && 0 <= index < RQ_CONSUMER
      ensures r == 0 || r == 1
      ensures r == 0 <==> mode == RQ_S && ConsumerPending(index) == []
    {
      if mode == RQ_S && cursor == cs[index] then 0 else 1
    }

    /** `check_ringqueue_multiple`: 0 exactly when the shared consumer has nothing to pop. */
    function CheckMultiple(): (r: int)
      reads this, node, cs
      requires Valid()
      ensures r == 0 || r == 1
      ensures r == 0 <==> mode == RQ_M && Pending() == []
    {
      if mode == RQ_M && cursor - mcsCursor <= 0 then 0 else 1
    }
  }
}
