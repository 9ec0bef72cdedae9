/**
 * The decision and framing logic of the shared-memory transport (`ipc.c`):
 * the plan by which `write_ipc_data` cuts a message into ring-buffer
 * packets, what `process_ipc_data` does with a packet, the routing of
 * `write_ipc` and `send_ipc`, the layout check of a login, a server's
 * table of peers with its expiry sweep, and a client's reconnect decision.
 *
 * Shared memory, semaphores and the worker threads are not modelled. What
 * the OS or the peer provides is a parameter: the clock reading `now`,
 * the heartbeat a peer last wrote, whether a semaphore opened, whether a
 * ring-buffer push went through.
 *
 * A packet is the `data_unit` header (UNIT_SIZE bytes, whose layout is not
 * part of this model) followed by at most IPC_CHUNK payload bytes; unlike
 * the TCP frame, its `len` field counts the payload only.
 */
module Ipc {
  import opened CInt
  import opened Config
  import opened Common
  import Merger
  import Msg
  import Heap
  import Global
  import RingArray
  import RingBuffer
  import RingQueue

  /** A server accepts at most this many peers, one per slot of the shared region. */
  const IPC_MAX_REMOTE: int := 8
  /** The server's shared region and one peer's part of it. */
  const IPC_BUFFER_SIZE: int := 0x9000E8
  const IPC_PEER_SIZE: int := 0x100014
  /** The records of the server's peer pool. */
  const IPC_HEAP_SIZE: int := 1024
  /** Milliseconds of silence after which a connection counts as lost. */
  const IPC_TIMEOUT: int := 5000
  /** The payload bytes of one packet. */
  const IPC_CHUNK: int := MAX_DATA_SIZE - UNIT_SIZE

  // ---------------------------------------------------------------- packets

  /** The header fields of a packet. */
  datatype IpcUnit = IpcUnit(cmd: int, id: int, serial: int, total: int, len: int, no: int)

  /** A packet as pushed to the peer's ring buffer. */
  datatype Packet = Packet(unit: IpcUnit, payload: seq<byte>)

  /** The packet of a message small enough to travel whole. */
  function Whole(cmd: int, id: int, serial: int, data: seq<byte>): Packet
  {
    Packet(IpcUnit(cmd, id, serial, |data|, |data|, 0), data)
  }

  /** Packet `k` of a message that needs several: chunk `k`, numbered `k`, all sharing id, serial and total. */
  ghost predicate PacketOf(p: Packet, id: int, serial: int, data: seq<byte>, k: nat)
  {
    k * IPC_CHUNK < |data|
    && p.payload == Merger.Chunk(data, IPC_CHUNK, k)
    && p.unit == IpcUnit(EMC_CMD_DATA, id, serial, |data|, |p.payload|, k)
  }

  /** The source's packet count, the quotient rounded up, is the chunk count. */
  lemma PackageCount(n: nat)
    ensures n / IPC_CHUNK + (if n % IPC_CHUNK != 0 then 1 else 0) == Merger.ChunkCount(n, IPC_CHUNK)
  {
    var q, r := n / IPC_CHUNK, n % IPC_CHUNK;
    if r == 0 {
      DivModUnique(n + IPC_CHUNK - 1, IPC_CHUNK, q, IPC_CHUNK - 1);
    } else {
      DivModUnique(n + IPC_CHUNK - 1, IPC_CHUNK, q + 1, r - 1);
    }
  }

  /**
   * `write_ipc_data` with the packet serial `serial` (drawn from the global
   * data serial). A message that fits one packet travels whole as packet 0
   * with `len == total`. A command other than data is pushed once and
   * fails with -1 when the ring buffer refuses it (`pushOk`); data is
   * retried until it goes through while the peer stays `connected`, and is
   * silently skipped once it is not. A longer message is cut into
   * ceil(length / IPC_CHUNK) data packets, packet `k` carrying chunk `k`;
   * this always answers 0. `pushed` is what reached the ring buffer.
   */
  method WriteData(connected: bool, pushOk: bool, cmd: int, id: int, serial: int, data: seq<byte>)
    returns (r: int, pushed: seq<Packet>)
    ensures r == 0 || r == -1
    ensures |data| + UNIT_SIZE <= MAX_DATA_SIZE && cmd != EMC_CMD_DATA ==>
              (r == 0 <==> pushOk) && pushed == (if pushOk then [Whole(cmd, id, serial, data)] else [])
    ensures |data| + UNIT_SIZE <= MAX_DATA_SIZE && cmd == EMC_CMD_DATA ==>
              r == 0 && pushed == (if connected then [Whole(cmd, id, serial, data)] else [])
    ensures |data| + UNIT_SIZE > MAX_DATA_SIZE ==> r == 0
    ensures |data| + UNIT_SIZE > MAX_DATA_SIZE && !connected ==> pushed == []
    ensures |data| + UNIT_SIZE > MAX_DATA_SIZE && connected ==>
              |pushed| == Merger.ChunkCount(|data|, IPC_CHUNK)
              && forall k :: 0 <= k < |pushed| ==> PacketOf(pushed[k], id, serial, data, k)
  {
    if |data| + UNIT_SIZE <= MAX_DATA_SIZE {
      var p := Whole(cmd, id, serial, data);
      if cmd != EMC_CMD_DATA {
        if !pushOk {
          return -1, [];
        }
        return 0, [p];
      }
      return 0, if connected then [p] else [];
    }
    var package := |data| / IPC_CHUNK + (if |data| % IPC_CHUNK != 0 then 1 else 0);
    PackageCount(|data|);
    var index, length, off := 0, |data|, 0;
    pushed := [];
    while index < package
      invariant 0 <= index <= package && 0 <= off <= |data| && length == |data| - off
      invariant index < package ==> off == index * IPC_CHUNK
      invariant index == package ==> off == |data|
      invariant connected ==> |pushed| == index && forall k :: 0 <= k < index ==> PacketOf(pushed[k], id, serial, data, k)
      invariant !connected ==> pushed == []
    {
      Merger.ChunkBounds(|data|, IPC_CHUNK, index);
      var len := if length > IPC_CHUNK then IPC_CHUNK else length;
      var p := Packet(IpcUnit(EMC_CMD_DATA, id, serial, |data|, len, index), data[off..off + len]);
      if connected {
        pushed := pushed + [p];
      }
      length := length - len;
      off := off + len;
      index := index + 1;
    }
    r := 0;
  }

  /** What `process_ipc_data` makes of a packet. */
  datatype Arrival =
    /** handed to `ipc_complete_data` with its command */
    | Complete(id: int, cmd: int, payload: seq<byte>)
    /** a fragment for the merger of its (id, serial) key, at its offset */
    | Fragment(key: int, total: int, offset: int, frag: seq<byte>)

  /**
   * `process_ipc_data` on a packet whose header reads `u` and whose bytes
   * after the header are `body` (the rest of the ring-buffer slot): a packet
   * whose length is its total is complete, any other is a fragment that
   * belongs at `no * IPC_CHUNK`.
   */
  function ProcessData(u: IpcUnit, body: seq<byte>): (a: Arrival)
    requires 0 <= u.len <= |body| && IsInt32(u.id) && IsInt32(u.serial)
    ensures a.Complete? <==> u.len == u.total
    ensures a.Complete? ==> a.id == u.id && a.cmd == u.cmd && a.payload == body[..u.len]
    ensures a.Fragment? ==> a.key == SerialKey(u.id, u.serial) && a.total == u.total && a.frag == body[..u.len]
    ensures a.Fragment? && 0 <= u.no ==> a.offset == u.no * IPC_CHUNK && 0 <= a.offset
  {
    if u.len == u.total then Complete(u.id, u.cmd, body[..u.len])
    else Fragment(SerialKey(u.id, u.serial), u.total, u.no * IPC_CHUNK, body[..u.len])
  }

  /**
   * Writer and reader agree. A message sent whole comes back complete with
   * its command and bytes, whatever else the slot holds after it; every
   * packet of a longer message is a fragment for the one merger keyed by
   * the message's id and serial, carrying chunk `k` at the offset of chunk
   * `k`, so the merger's in-order reassembly rebuilds the message.
   */
  lemma PacketsArrive(cmd: int, id: int, serial: int, data: seq<byte>, p: Packet, k: nat, rest: seq<byte>)
    requires IsInt32(id) && IsInt32(serial)
    requires (|data| + UNIT_SIZE <= MAX_DATA_SIZE && p == Whole(cmd, id, serial, data))
             || (|data| + UNIT_SIZE > MAX_DATA_SIZE && PacketOf(p, id, serial, data, k))
    ensures |data| + UNIT_SIZE <= MAX_DATA_SIZE ==> ProcessData(p.unit, p.payload + rest) == Complete(id, cmd, data)
    ensures |data| + UNIT_SIZE > MAX_DATA_SIZE ==>
              ProcessData(p.unit, p.payload + rest)
              == Fragment(SerialKey(id, serial), |data|, k * IPC_CHUNK, Merger.Chunk(data, IPC_CHUNK, k))
  {
    assert (p.payload + rest)[..|p.payload|] == p.payload;
    if |data| + UNIT_SIZE > MAX_DATA_SIZE && k == 0 {
      assert |p.payload| == IPC_CHUNK;
    }
  }

  // ---------------------------------------------------------------- routing

  /** The outcome of `write_ipc`'s routing. */
  datatype Route =
    /** refused with -1 */
    | Refuse
    /** written to the client's own link, under the link's id */
    | ToLink(id: int)
    /** written to the server's peer `id` */
    | ToPeer(id: int)
    /** a send record queued for every SUB peer */
    | ToSubscribers
    /** nothing written, 0 answered */
    | Skip
    /** a client consults the server's peer table, which it does not have */
    | NoTable

  /** The mode the message ends up with and the route taken. */
  datatype Plan = Plan(mode: int, route: Route)

  /**
   * `write_ipc`. A server answers a REQ as REP and refuses SUB; REQ and SUB
   * (so only on a client) go over the client's link; REP goes to the peer
   * named by the message's id, refused when the server has no such peer
   * (`known`); PUB goes to the subscribers. Only a LIVE message reads its
   * mode, so a dead one is skipped. On a client, REP and PUB reach for the
   * server's peer table, which a client does not have.
   */
  function WriteRoute(server: bool, live: bool, mode: int, msgId: int, linkId: int, known: bool): (p: Plan)
    ensures !live ==> p.route == Skip
    ensures live && server && mode == EMC_SUB ==> p.route == Refuse
    ensures live && server && (mode == EMC_REQ || mode == EMC_REP) ==>
              p.mode == EMC_REP && p.route == (if known then ToPeer(msgId) else Refuse)
    ensures live && server && mode == EMC_PUB ==> p.route == ToSubscribers
    ensures live && !server && (mode == EMC_REQ || mode == EMC_SUB) ==> p.route == ToLink(linkId)
    ensures live && !server && (mode == EMC_REP || mode == EMC_PUB) ==> p.route == NoTable
    ensures live && mode !in {EMC_REQ, EMC_REP, EMC_PUB, EMC_SUB} ==> p.route == Skip
    ensures p.route.Refuse? ==> server
    ensures p.mode == mode || (server && mode == EMC_REQ && p.mode == EMC_REP)
  {
    var m := if live && server && mode == EMC_REQ then EMC_REP else mode;
    var read := if live then m else 0xFFFF;
    if server && read == EMC_SUB then Plan(m, Refuse)
    else if read == EMC_REQ || read == EMC_SUB then Plan(m, ToLink(linkId))
    else if read == EMC_REP then
      if !server then Plan(m, NoTable) else if known then Plan(m, ToPeer(msgId)) else Plan(m, Refuse)
    else if read == EMC_PUB then
      if server then Plan(m, ToSubscribers) else Plan(m, NoTable)
    else Plan(m, Skip)
  }

  /** A server's send never travels as REQ or SUB, so a request is always answered as a reply. */
  lemma ServerNeverSendsRequest(live: bool, mode: int, msgId: int, linkId: int, known: bool)
    requires live
    ensures WriteRoute(true, live, mode, msgId, linkId, known).route.ToPeer? ==>
              WriteRoute(true, live, mode, msgId, linkId, known).mode == EMC_REP
  {
  }

  /**
   * `send_ipc`'s first check: a client refuses REQ and SUB while its link
   * is down (-1), and stamps them with the link's id otherwise.
   */
  function SendAdmit(server: bool, live: bool, mode: int, linkConnected: bool): (ok: bool)
    ensures !ok <==> !server && live && (mode == EMC_REQ || mode == EMC_SUB) && !linkConnected
  {
    !(!server && live && (mode == EMC_REQ || mode == EMC_SUB) && !linkConnected)
  }

  // ---------------------------------------------------------------- layout

  /** A login's slot number is accepted only within the peer slots. */
  predicate LocateValid(locate: int)
  {
    0 <= locate < IPC_MAX_REMOTE
  }

  /**
   * Where peer `locate`'s part of the shared region starts: after the
   * server's heartbeat word, the free-slot ring and the server's own part.
   * Each part is a heartbeat word and a ring buffer; the eight peer parts
   * exactly fill the region.
   */
  function PeerOffset(locate: int): (off: int)
    requires LocateValid(locate)
    ensures 4 + RingArray.RingArraySize() + IPC_PEER_SIZE <= off
    ensures off + IPC_PEER_SIZE <= IPC_BUFFER_SIZE
    ensures locate == IPC_MAX_REMOTE - 1 <==> off + IPC_PEER_SIZE == IPC_BUFFER_SIZE
  {
    4 + RingArray.RingArraySize() + (locate + 1) * IPC_PEER_SIZE
  }

  /** A peer part holds the heartbeat word and a ring buffer of 128 slots after its four cursors. */
  lemma PeerPartHoldsRing()
    ensures IPC_PEER_SIZE == 4 + 16 + RingBuffer.RB_SIZE * MAX_DATA_SIZE
  {
  }

  /** Different peers never share a byte of the region. */
  lemma PeerPartsDisjoint(a: int, b: int)
    requires LocateValid(a) && LocateValid(b) && a != b
    ensures PeerOffset(a) + IPC_PEER_SIZE <= PeerOffset(b) || PeerOffset(b) + IPC_PEER_SIZE <= PeerOffset(a)
  {
    if a < b {
      MulMonotonic(a + 1, b, IPC_PEER_SIZE);
    } else {
      MulMonotonic(b + 1, a, IPC_PEER_SIZE);
    }
  }

  lemma MulMonotonic(x: int, y: int, c: nat)
    requires x <= y
    ensures x * c <= y * c
  {
  }

  // ---------------------------------------------------------------- time

  /** `now - since` on the unsigned 32-bit millisecond clock. */
  function Elapsed(now: int, since: int): (e: int)
    ensures 0 <= e < U32_MOD
  {
    (now - since) % U32_MOD
  }

  /**
   * The heartbeat test: the elapsed time is stored in an `int` before the
   * comparison, so a heartbeat that reads as later than `now` by less than
   * 2^31 counts as fresh.
   */
  predicate HeartbeatLate(now: int, beat: int)
  {
    ToI32(Elapsed(now, beat)) > IPC_TIMEOUT
  }

  /** The silence test: the unsigned elapsed time is compared directly. */
  predicate Quiet(now: int, since: int)
  {
    Elapsed(now, since) > IPC_TIMEOUT
  }

  /**
   * Both tests survive the wrap-around of the clock: `d` milliseconds after
   * `beat` (with `d` below 2^31), the heartbeat is late exactly when `d`
   * exceeds the timeout, and so is the silence.
   */
  lemma LateAcrossWrap(beat: int, d: int)
    requires 0 <= beat < U32_MOD && 0 <= d < I32_BOUND
    ensures HeartbeatLate((beat + d) % U32_MOD, beat) <==> d > IPC_TIMEOUT
    ensures Quiet((beat + d) % U32_MOD, beat) <==> d > IPC_TIMEOUT
  {
    var now := (beat + d) % U32_MOD;
    if beat + d < U32_MOD {
      DivModUnique(beat + d, U32_MOD, 0, beat + d);
      DivModUnique(now - beat, U32_MOD, 0, d);
    } else {
      DivModUnique(beat + d, U32_MOD, 1, beat + d - U32_MOD);
      DivModUnique(now - beat, U32_MOD, -1, d);
    }
  }

  // ---------------------------------------------------------------- server

  /** A server's record of one peer (`struct ipc_client`): its id, mode, slot, liveness, last arrival, and its block in the client pool. */
  datatype Peer = Peer(id: int, mode: int, locate: int, connected: bool, time: int, block: Ptr)

  /** `map_foreach_check_cb`'s verdict: a connected peer whose heartbeat is late and that has been quiet is dropped. */
  predicate Drops(now: int, p: Peer, beat: int)
  {
    p.connected && HeartbeatLate(now, beat) && Quiet(now, p.time)
  }

  /** Only a connected peer is dropped, and only once both its heartbeat and its last arrival are more than IPC_TIMEOUT old. */
  lemma DropsOnlyLate(now: int, p: Peer, beat: int)
    ensures !p.connected ==> !Drops(now, p, beat)
    ensures Drops(now, p, beat) ==> Elapsed(now, p.time) > IPC_TIMEOUT && Elapsed(now, beat) > IPC_TIMEOUT
  {
  }

  /** Every entry of a peer table is filed under its own id, at a valid slot, with a record. */
  ghost predicate Filed(conn: map<int, Peer>)
  {
    forall k :: k in conn ==> conn[k].id == k && LocateValid(conn[k].locate) && conn[k].block != NULL
  }

  /** The server end: its peer table keyed by id, the pool its peer records come from, and the free-slot ring in the shared region. */
  class Server {
    var connection: map<int, Peer>
    const clientHeap: Heap.Pool
    const slots: RingArray.Ring

    /** Every peer is filed under its own id, holds a valid slot and a block of the pool. */
    ghost predicate Valid()
      reads this, clientHeap, slots, slots.node
    {
      clientHeap.Valid() && slots.Valid() && |connection| <= clientHeap.used
      && Filed(connection)
    }

    /** The server and the runtime are both valid, and apart: what the sweep keeps from visit to visit. */
    ghost predicate Ready(g: Global.Runtime)
      reads this, clientHeap, slots, slots.node, g, g.ids, g.ids.units, g.devices, g.devices.nodes, g.devices.head
      reads g.rcmq, g.rcmq.node, g.rcheap, g.mtheap
    {
      Valid() && g.Valid() && Apart(g)
    }

    /** The server's objects are not the runtime's. */
    ghost predicate Apart(g: Global.Runtime)
      reads this, g, g.ids
    {
      clientHeap != g.rcheap && clientHeap != g.mtheap && slots.node != g.ids.units && slots.node != g.devices.head
    }

    /**
     * `create_ipc` for a server on a fresh region: no peers, a pool of
     * IPC_HEAP_SIZE records of `recordSize` bytes, and the slot numbers
     * 0 .. IPC_MAX_REMOTE - 1 pushed in order into the free-slot ring,
     * which keeps only the first seven.
     */
    constructor (recordSize: int)
      ensures Valid() && connection == map[] && fresh(clientHeap) && fresh(slots) && fresh(slots.node)
      ensures slots.Contents() == seq(RingArray.RA_SIZE - 1, i => i)
    {
      connection := map[];
      clientHeap := new Heap.Pool(recordSize, IPC_HEAP_SIZE);
      var ra := new RingArray.Ring();
      RingArray.Seed(ra, IPC_MAX_REMOTE);
      slots := ra;
    }

    /**
     * The first steps of a login (ipc.c): a record from the pool, then a
     * connection id from the global pool (-1 when it is empty, which is not
     * checked). NULL when the pool allocation fails, and nothing is taken.
     */
    method Claim(g: Global.Runtime, mallocOk: bool) returns (block: Ptr, id: int)
      requires Valid() && g.Valid() && Apart(g)
      modifies clientHeap, g.ids, g.ids.units
      ensures Valid() && g.Valid() && Apart(g) && g.ids.units == old(g.ids.units)
      ensures block == NULL ==> clientHeap.used == old(clientHeap.used) && g.ids.Contents() == old(g.ids.Contents())
      ensures block != NULL ==> clientHeap.used == old(clientHeap.used) + 1 && id == Front(old(g.ids.Contents()))
                                && g.ids.Contents() == Rest(old(g.ids.Contents()))
    {
      block := clientHeap.Alloc(mallocOk);
      if block == NULL {
        return NULL, -1;
      }
      id := g.GetConnectId();
    }

    /** What every failed login but one does: the id goes back to the pool and the record to the peer pool. */
    method GiveBack(g: Global.Runtime, id: int, block: Ptr)
      requires Valid() && g.Valid() && Apart(g) && block != NULL && clientHeap.used > |connection|
      modifies clientHeap, g.ids, g.ids.units
      ensures Valid() && g.Valid() && Apart(g)
      ensures g.ids.units == old(g.ids.units) || fresh(g.ids.units)
      ensures clientHeap.used == old(clientHeap.used) - 1 && g.ids.Contents() == old(g.ids.Contents()) + [id]
    {
      g.IdleConnectId(id);
      var _ := clientHeap.Free(block);
    }

    /** The last step of a login: the peer is filed under its id, refused (`map_add`) when the id is filed already. */
    method Enter(g: Global.Runtime, id: int, block: Ptr, mode: int, locate: int, now: int) returns (accepted: bool)
      requires Valid() && g.Valid() && Apart(g) && block != NULL && clientHeap.used > |connection| && LocateValid(locate)
      modifies this, clientHeap, g.ids, g.ids.units
      ensures Valid() && g.Valid() && Apart(g)
      ensures g.ids.units == old(g.ids.units) || fresh(g.ids.units)
      ensures accepted <==> id !in old(connection)
      ensures accepted ==> connection == old(connection)[id := Peer(id, mode, locate, true, now, block)]
                           && clientHeap.used == old(clientHeap.used) && g.ids.Contents() == old(g.ids.Contents())
      ensures !accepted ==> connection == old(connection)
                            && clientHeap.used == old(clientHeap.used) - 1 && g.ids.Contents() == old(g.ids.Contents()) + [id]
    {
      if id in connection {
        GiveBack(g, id, block);
        return false;
      }
      connection := connection[id := Peer(id, mode, locate, true, now, block)];
      accepted := true;
    }

    /**
     * `ipc_complete_data` on a login packet at a server, as the source
     * has it: the packet carries the peer's mode, its semaphore key and its
     * slot `locate`. A record and an id are claimed; if the semaphore does
     * not open (`semOk`), the answering login packet cannot be pushed
     * (`registered`) or the id is filed already, both go back. A slot
     * outside the peer slots is refused too, but there the id and the
     * record are kept: neither ever returns to its pool.
     */
    method LoginAsWritten(g: Global.Runtime, mode: int, locate: int, mallocOk: bool, semOk: bool, registered: bool, now: int)
      returns (accepted: bool, block: Ptr, id: int)
      requires Valid() && g.Valid() && Apart(g)
      modifies this, clientHeap, g.ids, g.ids.units
      ensures Valid() && g.Valid() && Apart(g)
      ensures g.ids.units == old(g.ids.units) || fresh(g.ids.units)
      ensures accepted <==> block != NULL && semOk && LocateValid(locate) && registered && id !in old(connection)
      ensures accepted ==> connection == old(connection)[id := Peer(id, mode, locate, true, now, block)]
                           && clientHeap.used == old(clientHeap.used) + 1 && g.ids.Contents() == Rest(old(g.ids.Contents()))
      ensures block != NULL ==> id == Front(old(g.ids.Contents()))
      ensures !accepted ==> connection == old(connection)
      ensures !accepted && (block == NULL || !semOk || (LocateValid(locate) && !(registered && id !in old(connection)))) ==>
                clientHeap.used == old(clientHeap.used)
      ensures !accepted && block != NULL && semOk && !LocateValid(locate) ==>
                clientHeap.used == old(clientHeap.used) + 1 && g.ids.Contents() == Rest(old(g.ids.Contents()))
    {
      block, id := Claim(g, mallocOk);
      if block == NULL {
        return false, block, id;
      }
      if !semOk {
        GiveBack(g, id, block);
        return false, block, id;
      }
      if !LocateValid(locate) {
        return false, block, id;
      }
      if !registered {
        GiveBack(g, id, block);
        return false, block, id;
      }
      accepted := Enter(g, id, block, mode, locate, now);
    }

    /**
     * The login as evidently intended: a slot outside the peer slots is
     * refused like every other failure, the id and the record going back
     * to their pools. Every refusal then leaves the peer pool as it was and
     * keeps the claimed id available.
     */
    method Login(g: Global.Runtime, mode: int, locate: int, mallocOk: bool, semOk: bool, registered: bool, now: int)
      returns (accepted: bool, block: Ptr, id: int)
      requires Valid() && g.Valid() && Apart(g)
      modifies this, clientHeap, g.ids, g.ids.units
      ensures Valid() && g.Valid() && Apart(g)
      ensures g.ids.units == old(g.ids.units) || fresh(g.ids.units)
      ensures accepted <==> block != NULL && semOk && LocateValid(locate) && registered && id !in old(connection)
      ensures accepted ==> connection == old(connection)[id := Peer(id, mode, locate, true, now, block)]
                           && clientHeap.used == old(clientHeap.used) + 1 && g.ids.Contents() == Rest(old(g.ids.Contents()))
      ensures block != NULL ==> id == Front(old(g.ids.Contents()))
      ensures !accepted ==> connection == old(connection) && clientHeap.used == old(clientHeap.used)
      ensures !accepted && block != NULL ==> g.ids.Contents() == Rest(old(g.ids.Contents())) + [id]
    {
      block, id := Claim(g, mallocOk);
      if block == NULL {
        return false, block, id;
      }
      if !semOk || !LocateValid(locate) || !registered {
        GiveBack(g, id, block);
        return false, block, id;
      }
      accepted := Enter(g, id, block, mode, locate, now);
    }

    /**
     * The common end of a peer (a logout, `close_ipc`, the expiry sweep):
     * its entry is erased, its slot pushed back to the free-slot ring (lost
     * when the ring is full), its id released and its record freed.
     */
    method Retire(g: Global.Runtime, key: int)
      requires Valid() && g.Valid() && Apart(g) && key in connection
      modifies this, clientHeap, slots, slots.node, g.ids, g.ids.units
      ensures Valid() && g.Valid() && Apart(g)
      ensures g.ids.units == old(g.ids.units) || fresh(g.ids.units)
      ensures connection == old(connection) - {key}
      ensures g.ids.Contents() == old(g.ids.Contents()) + [key]
      ensures clientHeap.used == old(clientHeap.used) - 1
      ensures slots.Contents() == if |old(slots.Contents())| >= RingArray.RA_SIZE - 1 then old(slots.Contents())
                                  else old(slots.Contents()) + [old(connection)[key].locate]
    {
      var p := connection[key];
      connection := connection - {key};
      var _ := slots.Push(p.locate);
      g.IdleConnectId(key);
      var _ := clientHeap.Free(p.block);
    }

    /** A logout packet at a server: a known peer is retired, an unknown id changes nothing. */
    method Logout(g: Global.Runtime, id: int)
      requires Valid() && g.Valid() && Apart(g)
      modifies this, clientHeap, slots, slots.node, g.ids, g.ids.units
      ensures Valid() && g.Valid() && Apart(g)
      ensures g.ids.units == old(g.ids.units) || fresh(g.ids.units)
      ensures connection == old(connection) - {id}
      ensures id in old(connection) ==> g.ids.Contents() == old(g.ids.Contents()) + [id] && clientHeap.used == old(clientHeap.used) - 1
      ensures id !in old(connection) ==> g.ids.Contents() == old(g.ids.Contents()) && clientHeap.used == old(clientHeap.used)
    {
      if id in connection {
        Retire(g, id);
      }
    }

    /**
     * `close_ipc` at a server: -1 for an unknown id; otherwise a logout
     * packet is sent (its result ignored) and the peer retired.
     */
    method Close(g: Global.Runtime, id: int) returns (r: int)
      requires Valid() && g.Valid() && Apart(g)
      modifies this, clientHeap, slots, slots.node, g.ids, g.ids.units
      ensures Valid() && g.Valid() && Apart(g)
      ensures r == 0 || r == -1
      ensures g.ids.units == old(g.ids.units) || fresh(g.ids.units)
      ensures r == -1 <==> id !in old(connection)
      ensures connection == old(connection) - {id}
      ensures r == 0 ==> g.ids.Contents() == old(g.ids.Contents()) + [id]
    {
      if id !in connection {
        return -1;
      }
      Retire(g, id);
      r := 0;
    }

    /**
     * A data packet completed at a server: a known sender's arrival time
     * becomes `now` and the message is stamped with its id and mode; from
     * an unknown sender the message keeps the fresh message's id -1 and
     * mode 0.
     */
    method Arrive(id: int, now: int) returns (msgId: int, msgMode: int)
      requires Valid()
      modifies this
      ensures Valid()
      ensures id in old(connection) ==> connection == old(connection)[id := old(connection)[id].(time := now)]
                                        && msgId == id && msgMode == old(connection)[id].mode
      ensures id !in old(connection) ==> connection == old(connection) && msgId == -1 && msgMode == 0
    {
      if id in connection {
        connection := connection[id := connection[id].(time := now)];
        return id, connection[id].mode;
      }
      return -1, 0;
    }

    /**
     * `check_ipc` at a server: `map_foreach` visits the filed peers in
     * ascending id order (`order`; `beat` holds the heartbeat word each
     * peer last wrote) and every one that `Drops` is retired. The peers
     * left are exactly those that do not drop, and the dropped ids return
     * to the id pool in visiting order.
     */
    method CheckPeers(g: Global.Runtime, now: int, beat: map<int, int>, order: seq<int>) returns (dropped: seq<int>)
      requires Valid() && g.Valid() && Apart(g) && connection.Keys <= beat.Keys
      requires forall i, j :: 0 <= i < j < |order| ==> order[i] < order[j]
      requires forall k :: k in connection <==> k in order
      modifies this, clientHeap, slots, slots.node, g.ids, g.ids.units
      ensures Valid() && g.Valid() && Apart(g)
      ensures connection == Kept(old(connection), {}, now, beat)
      ensures dropped == Expired(order, old(connection), now, beat)
      ensures forall k :: k in old(connection) ==> (k in dropped <==> Drops(now, old(connection)[k], beat[k]))
      ensures g.ids.Contents() == old(g.ids.Contents()) + dropped
      ensures g.ids.units == old(g.ids.units) || fresh(g.ids.units)
    {
      ghost var conn, ids0 := connection, g.ids.Contents();
      dropped := [];
      SweptStart(conn, order, now, beat);
      var i := 0;
      while i < |order|
        invariant 0 <= i <= |order|
        invariant Ready(g)
        invariant Swept(conn, order, i, connection, dropped, now, beat)
        invariant g.ids.Contents() == ids0 + dropped
        invariant g.ids.units == old(g.ids.units) || fresh(g.ids.units)
      {
        dropped := Visit(g, conn, order, i, dropped, now, beat, ids0);
        i := i + 1;
      }
      SweptDone(conn, order, connection, dropped, now, beat);
    }

    /** The sweep's visit of `order[i]`, keeping the sweep's account of what it has done so far. */
    method Visit(g: Global.Runtime, ghost conn: map<int, Peer>, order: seq<int>, i: int, dropped: seq<int>, now: int, beat: map<int, int>,
                 ghost ids0: seq<int>)
      returns (dropped': seq<int>)
      requires Ready(g) && i < |order|
      requires Swept(conn, order, i, connection, dropped, now, beat)
      requires g.ids.Contents() == ids0 + dropped
      modifies this, clientHeap, slots, slots.node, g.ids, g.ids.units
      ensures Ready(g)
      ensures Swept(conn, order, i + 1, connection, dropped', now, beat)
      ensures g.ids.Contents() == ids0 + dropped'
      ensures g.ids.units == old(g.ids.units) || fresh(g.ids.units)
    {
      SweptAt(conn, order, i, connection, dropped, now, beat);
      ghost var cur := connection;
      var drop := Sweep(g, order[i], now, beat);
      SweptStep(conn, order, i, cur, dropped, now, beat);
      dropped' := if drop then dropped + [order[i]] else dropped;
      assert ids0 + dropped + (if drop then [order[i]] else []) == ids0 + dropped';
    }

    /** One visit of the sweep: the peer filed under `k` is retired when it drops. */
    method Sweep(g: Global.Runtime, k: int, now: int, beat: map<int, int>) returns (drop: bool)
      requires Valid() && g.Valid() && Apart(g) && k in connection && k in beat
      modifies this, clientHeap, slots, slots.node, g.ids, g.ids.units
      ensures Valid() && g.Valid() && Apart(g)
      ensures drop == Drops(now, old(connection)[k], beat[k])
      ensures connection == if drop then old(connection) - {k} else old(connection)
      ensures g.ids.Contents() == old(g.ids.Contents()) + if drop then [k] else []
      ensures g.ids.units == old(g.ids.units) || fresh(g.ids.units)
    {
      drop := Drops(now, connection[k], beat[k]);
      if drop {
        Retire(g, k);
      }
    }
  }

  /** The peers still filed after a sweep of the peers in `todo`. */
  ghost function Kept(conn: map<int, Peer>, todo: set<int>, now: int, beat: map<int, int>): map<int, Peer>
    requires conn.Keys <= beat.Keys
  {
    map k | k in conn && (k in todo || !Drops(now, conn[k], beat[k])) :: conn[k]
  }

  /** Visiting one more peer takes it out of the sweep's result exactly when it drops. */
  lemma KeptStep(conn: map<int, Peer>, todo: set<int>, k: int, now: int, beat: map<int, int>)
    requires conn.Keys <= beat.Keys && k in todo && k in conn
    ensures Kept(conn, todo - {k}, now, beat) ==
              if Drops(now, conn[k], beat[k]) then Kept(conn, todo, now, beat) - {k} else Kept(conn, todo, now, beat)
  {
  }

  /** The ids a sweep has still to visit. */
  function Later(order: seq<int>, i: int): set<int>
    requires 0 <= i <= |order|
  {
    set j | i <= j < |order| :: order[j]
  }

  /** In ascending order, visiting `order[i]` removes exactly it from the ids still to visit. */
  lemma LaterStep(order: seq<int>, i: int)
    requires forall a, b :: 0 <= a < b < |order| ==> order[a] < order[b]
    requires 0 <= i < |order|
    ensures order[i] in Later(order, i) && Later(order, i + 1) == Later(order, i) - {order[i]}
  {
  }

  /**
   * The sweep after visiting `order[..i]`: `cur` is the table, and
   * `dropped` the visited peers that dropped, in order.
   */
  ghost predicate Swept(conn: map<int, Peer>, order: seq<int>, i: int, cur: map<int, Peer>, dropped: seq<int>, now: int, beat: map<int, int>)
  {
    0 <= i <= |order| && conn.Keys <= beat.Keys
    && (forall a, b :: 0 <= a < b < |order| ==> order[a] < order[b])
    && (forall k :: k in conn <==> k in order)
    && cur == Kept(conn, Later(order, i), now, beat)
    && dropped == Expired(order[..i], conn, now, beat)
    && (forall k :: k in conn && k !in Later(order, i) ==> (k in dropped <==> Drops(now, conn[k], beat[k])))
    && (forall j :: 0 <= j < |dropped| ==> dropped[j] !in Later(order, i))
  }

  /** Before the sweep every filed peer is still to visit, so nothing is removed yet. */
  lemma SweptStart(conn: map<int, Peer>, order: seq<int>, now: int, beat: map<int, int>)
    requires conn.Keys <= beat.Keys && forall k :: k in conn <==> k in order
    requires forall a, b :: 0 <= a < b < |order| ==> order[a] < order[b]
    ensures Swept(conn, order, 0, conn, [], now, beat)
  {
    forall k | k in conn
      ensures k in Later(order, 0)
    {
      var j :| 0 <= j < |order| && order[j] == k;
    }
  }

  /** The peer visited next is still filed, as it was. */
  lemma SweptAt(conn: map<int, Peer>, order: seq<int>, i: int, cur: map<int, Peer>, dropped: seq<int>, now: int, beat: map<int, int>)
    requires Swept(conn, order, i, cur, dropped, now, beat) && i < |order|
    ensures order[i] in cur && order[i] in beat && cur[order[i]] == conn[order[i]]
  {
    LaterStep(order, i);
  }

  /** Visiting `order[i]` retires it exactly when it drops. */
  lemma SweptStep(conn: map<int, Peer>, order: seq<int>, i: int, cur: map<int, Peer>, dropped: seq<int>, now: int, beat: map<int, int>)
    requires Swept(conn, order, i, cur, dropped, now, beat) && i < |order|
    ensures order[i] in cur && order[i] in beat
    ensures var k := order[i];
            var d := Drops(now, cur[k], beat[k]);
            Swept(conn, order, i + 1, if d then cur - {k} else cur, if d then dropped + [k] else dropped, now, beat)
  {
    var k := order[i];
    SweptAt(conn, order, i, cur, dropped, now, beat);
    LaterStep(order, i);
    assert order[..i + 1][..i] == order[..i];
    KeptStep(conn, Later(order, i), k, now, beat);
    var d := Drops(now, cur[k], beat[k]);
    var dropped' := if d then dropped + [k] else dropped;
    assert dropped' == Expired(order[..i + 1], conn, now, beat);
    forall x | x in conn && x !in Later(order, i + 1)
      ensures x in dropped' <==> Drops(now, conn[x], beat[x])
    {
      if x != k {
        assert x !in Later(order, i);
      } else {
        assert k !in dropped;
      }
    }
  }

  /** After the sweep the table holds exactly the peers that do not drop. */
  lemma SweptDone(conn: map<int, Peer>, order: seq<int>, cur: map<int, Peer>, dropped: seq<int>, now: int, beat: map<int, int>)
    requires Swept(conn, order, |order|, cur, dropped, now, beat)
    ensures cur == Kept(conn, {}, now, beat) && dropped == Expired(order, conn, now, beat)
    ensures forall k :: k in conn ==> (k in dropped <==> Drops(now, conn[k], beat[k]))
  {
    assert order[..|order|] == order;
    assert Later(order, |order|) == {};
  }

  /** The ids in `order` that `check_ipc` retires, in visiting order. */
  ghost function Expired(order: seq<int>, conn: map<int, Peer>, now: int, beat: map<int, int>): seq<int>
  {
    if order == [] then []
    else
      var k := order[|order| - 1];
      Expired(order[..|order| - 1], conn, now, beat) + if k in conn && k in beat && Drops(now, conn[k], beat[k]) then [k] else []
  }

  /** The front of the id pool, which `global_get_connect_id` takes, or -1 when it is empty. */
  function Front(ids: seq<int>): int
  {
    if ids == [] then -1 else ids[0]
  }

  /** The id pool after `global_get_connect_id`. */
  function Rest(ids: seq<int>): seq<int>
  {
    if ids == [] then [] else ids[1..]
  }

  // ---------------------------------------------------------------- client

  /**
   * A client end: its link (`struct ipc_client`: the id the server gave,
   * the id drawn locally for a first connect, liveness, last arrival) and
   * the reconnect bookkeeping (`reconnect` set while a reopen is in flight,
   * and when it was last tried).
   */
  class Link {
    var id: int
    var inid: int
    var connected: bool
    var time: int
    var reconnecting: bool
    var reconnectTime: int

    /**
     * `create_ipc` for a client: no server id yet, the local id `inid`, a
     * reopen in flight when the first one succeeded. The check thread
     * starts its reopen clock at `now`, the time it starts.
     */
    constructor (inid: int, openOk: bool, now: int)
      ensures id == -1 && this.inid == inid && !connected && time == 0 && reconnecting == openOk && reconnectTime == now
    {
      id, this.inid, connected, time := -1, inid, false, 0;
      reconnecting, reconnectTime := openOk, now;
    }

    /**
     * `ipc_complete_data` at a client. The server's answer to the login
     * names the client's id: the link is up, no reopen is in flight, and
     * the local id, if still held, goes back to the pool. A logout takes
     * the link down; data records its arrival time.
     */
    method Receive(g: Global.Runtime, cmd: int, from: int, now: int)
      requires g.Valid()
      modifies this, g.ids, g.ids.units
      ensures g.Valid()
      ensures cmd == EMC_CMD_LOGIN ==>
                id == from && connected && !reconnecting && inid == (if old(inid) >= 0 then -1 else old(inid)) && time == old(time) && reconnectTime == old(reconnectTime)
                && g.ids.Contents() == old(g.ids.Contents()) + (if old(inid) >= 0 then [old(inid)] else [])
      ensures cmd == EMC_CMD_LOGOUT ==>
                !connected && id == old(id) && inid == old(inid) && time == old(time) && reconnecting == old(reconnecting)
                && g.ids.Contents() == old(g.ids.Contents())
      ensures cmd == EMC_CMD_DATA ==>
                time == now && connected == old(connected) && id == old(id) && inid == old(inid) && reconnecting == old(reconnecting)
                && g.ids.Contents() == old(g.ids.Contents())
      ensures cmd !in {EMC_CMD_LOGIN, EMC_CMD_LOGOUT, EMC_CMD_DATA} ==>
                id == old(id) && inid == old(inid) && connected == old(connected) && time == old(time)
                && reconnecting == old(reconnecting) && g.ids.Contents() == old(g.ids.Contents())
      ensures reconnectTime == old(reconnectTime)
    {
      if cmd == EMC_CMD_LOGIN {
        id, connected, reconnecting := from, true, false;
        if inid >= 0 {
          g.IdleConnectId(inid);
          inid := -1;
        }
      } else if cmd == EMC_CMD_LOGOUT {
        connected := false;
      } else if cmd == EMC_CMD_DATA {
        time := now;
      }
    }

    /** Whether `check_ipc` at a client tries to reopen the link, given the server's heartbeat word. */
    predicate Reopens(now: int, serverBeat: int)
      reads this
      ensures connected && reconnecting ==> !Reopens(now, serverBeat)
      ensures !connected && !reconnecting ==> Reopens(now, serverBeat)
      ensures connected && Reopens(now, serverBeat) ==> Elapsed(now, time) > IPC_TIMEOUT
    {
      if connected then HeartbeatLate(now, serverBeat) && Quiet(now, time) && !reconnecting
      else !reconnecting || Elapsed(now, reconnectTime) >= IPC_TIMEOUT
    }

    /**
     * `check_ipc` at a client. A live link whose server heartbeat is late
     * and that has been quiet is reopened unless a reopen is in flight; a
     * dead link is retried unless one is in flight that began less than
     * IPC_TIMEOUT ago. A reopen first takes the link down and forgets the
     * server's id; it stays in flight when the reopen succeeded
     * (`reopenOk`), and the attempt time becomes `now` either way.
     */
    method Check(now: int, serverBeat: int, reopenOk: bool) returns (attempted: bool)
      modifies this
      ensures attempted == old(Reopens(now, serverBeat))
      ensures attempted ==> !connected && id == -1 && reconnecting == reopenOk && reconnectTime == now
      ensures !attempted ==> connected == old(connected) && id == old(id) && reconnecting == old(reconnecting)
                             && reconnectTime == old(reconnectTime)
      ensures inid == old(inid) && time == old(time)
    {
      attempted := Reopens(now, serverBeat);
      if attempted {
        id, connected := -1, false;
        reconnecting := reopenOk;
        reconnectTime := now;
      }
    }
  }

  /** A link that is up and hears from its server within the timeout is never reopened. */
  lemma FreshLinkStays(l: Link, beat: int, d: int)
    requires l.connected && 0 <= beat < U32_MOD && 0 <= d <= IPC_TIMEOUT
    ensures !l.Reopens((beat + d) % U32_MOD, beat)
  {
    LateAcrossWrap(beat, d);
  }

  /** A peer whose heartbeat is at most IPC_TIMEOUT old is never dropped, however long it has been silent. */
  lemma FreshPeerStays(p: Peer, beat: int, d: int)
    requires 0 <= beat < U32_MOD && 0 <= d <= IPC_TIMEOUT
    ensures !Drops((beat + d) % U32_MOD, p, beat)
  {
    LateAcrossWrap(beat, d);
  }

  // ---------------------------------------------------------------- publishing

  /** The number of SUB peers: every SUB peer is sent to, connected or not. */
  function SubCount(peers: seq<Peer>): (n: nat)
    ensures n <= |peers|
  {
    if peers == [] then 0 else SubCount(peers[..|peers| - 1]) + (if peers[|peers| - 1].mode == EMC_SUB then 1 else 0)
  }

  /**
   * The publish over `peers`, from a send queue with room for `room` more
   * records: the outcome of each SUB peer in visiting order, and the
   * records queued. A SUB peer's record is queued when the pool gave one
   * and the queue still has room; other peers are passed over.
   */
  function PubRun(peers: seq<Peer>, recs: seq<Ptr>, room: int): (r: (seq<bool>, seq<Ptr>))
    requires |recs| == |peers|
    ensures |r.0| == SubCount(peers) && |r.1| == Successes(r.0)
    ensures forall j :: 0 <= j < |r.1| ==> r.1[j] != NULL && r.1[j] in recs
  {
    if peers == [] then ([], [])
    else
      var n := |peers| - 1;
      var (o, q) := PubRun(peers[..n], recs[..n], room);
      assert forall j :: 0 <= j < |q| ==> q[j] in recs[..n] ==> q[j] in recs;
      if peers[n].mode != EMC_SUB then (o, q)
      else
        var ok := recs[n] != NULL && |q| < room;
        assert (o + [ok])[..|o|] == o;
        (o + [ok], q + if ok then [recs[n]] else [])
  }

  /** The publish after one more peer, as the loop of `PubForeach` takes it. */
  lemma PubRunStep(peers: seq<Peer>, recs: seq<Ptr>, room: int, i: int)
    requires |recs| == |peers| && 0 <= i < |peers|
    ensures var r := PubRun(peers[..i], recs[..i], room);
            var ok := recs[i] != NULL && |r.1| < room;
            PubRun(peers[..i + 1], recs[..i + 1], room)
              == if peers[i].mode != EMC_SUB then r else (r.0 + [ok], r.1 + if ok then [recs[i]] else [])
  {
    assert peers[..i + 1][..i] == peers[..i] && recs[..i + 1][..i] == recs[..i];
  }

  /** The records the SUB peers offer, in visiting order: those the pool gave. */
  function Offered(peers: seq<Peer>, recs: seq<Ptr>): (s: seq<Ptr>)
    requires |recs| == |peers|
  {
    if peers == [] then []
    else
      var n := |peers| - 1;
      Offered(peers[..n], recs[..n]) + if peers[n].mode == EMC_SUB && recs[n] != NULL then [recs[n]] else []
  }

  /** The publish queues the offered records in order, up to the room the queue had: the rest are dropped. */
  lemma {:induction false} PubRunQueued(peers: seq<Peer>, recs: seq<Ptr>, room: int)
    requires |recs| == |peers| && 0 <= room
    ensures var off := Offered(peers, recs);
            PubRun(peers, recs, room).1 == off[..if room < |off| then room else |off|]
  {
    if peers != [] {
      var n := |peers| - 1;
      PubRunQueued(peers[..n], recs[..n], room);
      var off, off' := Offered(peers, recs), Offered(peers[..n], recs[..n]);
      assert off'[..|off'|] == off';
      if peers[n].mode == EMC_SUB && recs[n] != NULL {
        assert off[..|off'|] == off';
        if room <= |off'| {
          assert off[..room] == off'[..room];
        }
      }
    }
  }

  /** The callback for one SUB peer: true when its record `rec` was queued, the message then holding one more reference if live. */
  method PubOne(sq: RingQueue.Queue, rec: Ptr, m: Msg.Message) returns (ok: bool)
    requires sq.Valid() && sq.mode == RingQueue.RQ_M && 0 <= m.ref < U32_MOD
    modifies sq, sq.node, m
    ensures sq.Valid() && sq.mode == RingQueue.RQ_M
    ensures ok <==> rec != NULL && |old(sq.Pending())| < RingQueue.RQ_SIZE - 1
    ensures sq.Pending() == old(sq.Pending()) + if ok then [rec] else []
    ensures m.ref == if ok && old(m.flag) == EMC_LIVE then (old(m.ref) + 1) % U32_MOD else old(m.ref)
    ensures m.flag == old(m.flag)
  {
    ok := false;
    if rec != NULL {
      var _ := Msg.RefAdd(m);
      var q := sq.Push(rec);
      if q < 0 {
        var _ := Msg.RefDec(m);
      } else {
        ok := true;
      }
    }
  }

  /**
   * `ipc_send_pub_foreach_cb` over the server's peers in visiting order:
   * for every SUB peer a send record is taken (`recs`, NULL when the pool
   * failed, which skips the peer), the message gains a reference and the
   * record joins the send queue; when the queue is full the reference is
   * given back and the record freed. One outcome per SUB peer, true when
   * its record was queued; the queue gains exactly those records, and a
   * live message one reference for each.
   */
  method PubForeach(sq: RingQueue.Queue, peers: seq<Peer>, recs: seq<Ptr>, m: Msg.Message) returns (outcome: seq<bool>, queued: seq<Ptr>)
    requires sq.Valid() && sq.mode == RingQueue.RQ_M && 0 <= m.ref < U32_MOD && |recs| == |peers|
    modifies sq, sq.node, m
    ensures sq.Valid() && sq.Pending() == old(sq.Pending()) + queued
    ensures |outcome| == SubCount(peers) && |queued| == Successes(outcome)
    ensures forall j :: 0 <= j < |queued| ==> queued[j] != NULL && queued[j] in recs
    ensures (outcome, queued) == PubRun(peers, recs, RingQueue.RQ_SIZE - 1 - |old(sq.Pending())|)
    ensures old(m.flag) == EMC_LIVE ==> m.ref == (old(m.ref) + Successes(outcome)) % U32_MOD
    ensures old(m.flag) != EMC_LIVE ==> m.ref == old(m.ref)
    ensures m.flag == old(m.flag)
  {
    outcome, queued := [], [];
    ghost var live := m.flag == EMC_LIVE;
    ghost var start, p0 := m.ref, sq.Pending();
    ghost var room := RingQueue.RQ_SIZE - 1 - |p0|;
    var i := 0;
    while i < |peers|
      invariant 0 <= i <= |peers| && PubReady(sq)
      invariant sq.Pending() == p0 + queued
      invariant (outcome, queued) == PubRun(peers[..i], recs[..i], room)
      invariant live ==> m.ref == (start + Successes(outcome)) % U32_MOD
      invariant !live ==> m.ref == start
      invariant m.flag == old(m.flag) && live == (m.flag == EMC_LIVE)
    {
      outcome, queued := PubVisit(sq, peers, recs, i, m, outcome, queued, start, p0, room, live);
      i := i + 1;
    }
    assert peers[..|peers|] == peers && recs[..|recs|] == recs;
  }

  /** The send queue is well formed and in multiple-consumer mode. */
  ghost predicate PubReady(sq: RingQueue.Queue)
    reads sq, sq.node, sq.cs
  {
    sq.Valid() && sq.mode == RingQueue.RQ_M
  }

  /** The fan-out's visit of peer `i`, keeping the fan-out's account of what it has done so far. */
  method PubVisit(sq: RingQueue.Queue, peers: seq<Peer>, recs: seq<Ptr>, i: int, m: Msg.Message,
                  outcome: seq<bool>, queued: seq<Ptr>, ghost start: int, ghost p0: seq<Ptr>, ghost room: int, ghost live: bool)
    returns (outcome': seq<bool>, queued': seq<Ptr>)
    requires sq.Valid() && sq.mode == RingQueue.RQ_M && 0 <= m.ref < U32_MOD && |recs| == |peers| && 0 <= i < |peers|
    requires sq.Pending() == p0 + queued && room == RingQueue.RQ_SIZE - 1 - |p0|
    requires (outcome, queued) == PubRun(peers[..i], recs[..i], room)
    requires live ==> m.ref == (start + Successes(outcome)) % U32_MOD
    requires !live ==> m.ref == start
    requires live == (m.flag == EMC_LIVE)
    modifies sq, sq.node, m
    ensures sq.Valid() && sq.mode == RingQueue.RQ_M
    ensures sq.Pending() == p0 + queued'
    ensures (outcome', queued') == PubRun(peers[..i + 1], recs[..i + 1], room)
    ensures live ==> m.ref == (start + Successes(outcome')) % U32_MOD
    ensures !live ==> m.ref == start
    ensures m.flag == old(m.flag)
  {
    PubRunStep(peers, recs, room, i);
    assert peers[..i + 1][..i] == peers[..i];
    outcome', queued' := outcome, queued;
    if peers[i].mode == EMC_SUB {
      var ok := PubOne(sq, recs[i], m);
      queued' := queued + if ok then [recs[i]] else [];
      outcome' := outcome + [ok];
      assert outcome'[..|outcome'| - 1] == outcome;
      if ok && live {
        ModStep(start, Successes(outcome));
      }
    }
  }
}
