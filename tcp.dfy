/**
 * The decision and framing logic of the TCP transport (`tcp.c`): the
 * choice of the least loaded worker, the cutting of a queued send record
 * into frames, the meaning of a `recv` result, the release of a send
 * record, the routing of `send_tcp`, the publish fan-out and the dispatch of
 * a parsed frame.
 *
 * A frame is the 4-byte preamble (magic, length) of the stream parser, the
 * packed `data_unit` header and a payload of at most TCP_DATA_SIZE bytes.
 * The header's layout is not part of this model; its size UNIT_SIZE is the
 * difference MAX_DATA_SIZE - TCP_DATA_SIZE that the framing relies on, and
 * its bytes are passed in where the wire image is needed.
 *
 * Sockets, epoll and the worker threads are not modelled: the number of
 * bytes a `send` wrote, the `errno` of a failed `recv`, whether a client is
 * known and connected are parameters.
 */
module Tcp {
  import opened CInt
  import opened Config
  import opened Common
  import Unpack
  import Merger
  import Msg
  import SendQueue
  import UniqueQueue

  /** The payload bytes of one frame (`tcp.c` defines its own value). */
  const TCP_DATA_SIZE: int := 8172

  // ---------------------------------------------------------------- workers

  /**
   * `tcp_least_thread` over the connection counts of the worker areas: the
   * first area with the smallest count, provided some count is below
   * EMC_SOCKETS_DEFAULT; otherwise area 0. The scan stops at the first idle
   * area, which is then the answer.
   */
  method LeastThread(counts: seq<int>) returns (result: int)
    requires forall i :: 0 <= i < |counts| ==> 0 <= counts[i]
    ensures 0 <= result && (counts != [] ==> result < |counts|)
    ensures (exists i :: 0 <= i < |counts| && counts[i] < EMC_SOCKETS_DEFAULT) ==>
              (forall j :: 0 <= j < |counts| ==> counts[result] <= counts[j])
              && (forall j :: 0 <= j < result ==> counts[result] < counts[j])
    ensures (forall i :: 0 <= i < |counts| ==> counts[i] >= EMC_SOCKETS_DEFAULT) ==> result == 0
  {
    var index, count := 0, EMC_SOCKETS_DEFAULT;
    result := 0;
    while index < |counts|
      invariant 0 <= index <= |counts| && 0 <= result && (counts != [] ==> result < |counts|)
      invariant count < EMC_SOCKETS_DEFAULT ==> result < index && counts[result] == count
      invariant count >= EMC_SOCKETS_DEFAULT ==> count == EMC_SOCKETS_DEFAULT && result == 0
      invariant forall j :: 0 <= j < index ==> count <= counts[j]
      invariant forall j :: 0 <= j < result ==> count < counts[j]
    {
      if counts[index] < count {
        count := counts[index];
        result := index;
        if count == 0 {
          break;
        }
      }
      index := index + 1;
    }
  }

  // ---------------------------------------------------------------- framing

  /** The header fields `tcp_data_sep` fills in. */
  datatype Unit = Unit(cmd: int, id: int, serial: int, total: int, len: int, no: int)

  /** One frame as `tcp_data_sep` leaves it: the byte count to send, the length field, the header, the payload. */
  datatype Sep = Sep(size: int, lenField: int, unit: Unit, payload: seq<byte>)

  /**
   * `tcp_data_sep` for a record of `len` bytes with `lave` still unsent:
   * the next at most TCP_DATA_SIZE bytes from offset `len - lave`, numbered
   * by how many full frames precede them. The length field covers header and
   * payload, the byte count adds the 4-byte preamble.
   */
  function DataSep(cmd: int, serial: int, id: int, msg: seq<byte>, lave: int): (s: Sep)
    requires 0 < lave <= |msg|
    ensures |s.payload| == (if lave > TCP_DATA_SIZE then TCP_DATA_SIZE else lave)
    ensures s.payload == msg[|msg| - lave..|msg| - lave + |s.payload|]
    ensures s.lenField == UNIT_SIZE + |s.payload| <= MAX_DATA_SIZE
    ensures s.size == s.lenField + 4 <= MAX_PROTOCOL_SIZE
    ensures s.unit == Unit(cmd, id, serial, |msg|, |s.payload|, (|msg| - lave) / TCP_DATA_SIZE)
  {
    var n := if lave > TCP_DATA_SIZE then TCP_DATA_SIZE else lave;
    var lenField := if lave > TCP_DATA_SIZE then MAX_DATA_SIZE else lave + UNIT_SIZE;
    var size := if lave > TCP_DATA_SIZE then MAX_PROTOCOL_SIZE else lave + UNIT_SIZE + 4;
    Sep(size, lenField, Unit(cmd, id, serial, |msg|, n, (|msg| - lave) / TCP_DATA_SIZE), msg[|msg| - lave..|msg| - lave + n])
  }

  /** The bytes of a frame on the wire, `head` being the packed header. */
  function SepBytes(s: Sep, head: seq<byte>): (w: seq<byte>)
    requires |head| == UNIT_SIZE && s.lenField == UNIT_SIZE + |s.payload| <= MAX_DATA_SIZE
  {
    U16Bytes(EMC_HEAD) + U16Bytes(s.lenField) + head + s.payload
  }

  /**
   * A frame of `tcp_data_sep` is exactly what the stream parser expects:
   * its bytes are the parser's frame around header and payload, its byte
   * count is their number, and a parser holding nothing that receives it
   * hands back header and payload with the length field.
   */
  lemma SepParses(s: Sep, head: seq<byte>, past: seq<byte>)
    requires |head| == UNIT_SIZE && s.lenField == UNIT_SIZE + |s.payload| <= MAX_DATA_SIZE && s.size == s.lenField + 4
    requires |past| == 3
    ensures SepBytes(s, head) == Unpack.Frame(head + s.payload) && |SepBytes(s, head)| == s.size
    ensures var a := Unpack.AddBytes(None, 0, SepBytes(s, head));
            Unpack.GetAll(a.buf, a.len, past).frames == [(s.lenField, head + s.payload)]
            && Unpack.GetAll(a.buf, a.len, past).len == 0
  {
    var body := head + s.payload;
    var w := SepBytes(s, head);
    assert w == Unpack.Frame(body);
    assert Unpack.Wire([body]) == w by {
      var none: seq<seq<byte>> := [];
      assert [body][1..] == none;
    }
    Unpack.AddThenGet(None, past, [body]);
    assert Unpack.Delivered([body]) == [(s.lenField, body)];
  }

  /** The properties of frame `k` of a record: header, payload chunk and byte count. */
  ghost predicate FrameOf(s: Sep, cmd: int, serial: int, id: int, msg: seq<byte>, k: nat)
  {
    k * TCP_DATA_SIZE < |msg|
    && s.payload == Merger.Chunk(msg, TCP_DATA_SIZE, k)
    && s.unit == Unit(cmd, id, serial, |msg|, |s.payload|, k)
    && s.lenField == UNIT_SIZE + |s.payload| && s.size == s.lenField + 4
  }

  /** The next frame of the record: cut at `lave` after `k` full frames. */
  lemma DataSepIsChunk(cmd: int, serial: int, id: int, msg: seq<byte>, lave: int, k: nat)
    requires 0 < lave <= |msg| && |msg| - lave == k * TCP_DATA_SIZE
    ensures FrameOf(DataSep(cmd, serial, id, msg, lave), cmd, serial, id, msg, k)
    ensures lave <= TCP_DATA_SIZE ==> Merger.ChunkCount(|msg|, TCP_DATA_SIZE) == k + 1
  {
    DivModUnique(|msg| - lave, TCP_DATA_SIZE, k, 0);
    if lave <= TCP_DATA_SIZE {
      DivModUnique(|msg| + TCP_DATA_SIZE - 1, TCP_DATA_SIZE, k + 1, lave - 1);
    }
  }

  /**
   * The `lave` loop of `process_send` when every `send` writes the whole
   * frame: after each write `lave` drops by the bytes sent less preamble
   * and header. The frames cut are the consecutive TCP_DATA_SIZE-byte
   * chunks of the message, numbered 0, 1, 2, ..., all carrying the record's
   * serial and total, ceil(len / TCP_DATA_SIZE) of them (none for an empty
   * message).
   */
  method CutFrames(cmd: int, serial: int, id: int, msg: seq<byte>) returns (frames: seq<Sep>)
    ensures |frames| == Merger.ChunkCount(|msg|, TCP_DATA_SIZE)
    ensures forall k :: 0 <= k < |frames| ==> FrameOf(frames[k], cmd, serial, id, msg, k)
  {
    var lave := |msg|;
    frames := [];
    while lave > 0
      invariant 0 <= lave <= |msg|
      invariant lave > 0 ==> |msg| - lave == |frames| * TCP_DATA_SIZE
      invariant lave == 0 ==> |frames| == Merger.ChunkCount(|msg|, TCP_DATA_SIZE)
      invariant forall k :: 0 <= k < |frames| ==> FrameOf(frames[k], cmd, serial, id, msg, k)
    {
      var s := DataSep(cmd, serial, id, msg, lave);
      DataSepIsChunk(cmd, serial, id, msg, lave, |frames|);
      var nsend := s.size;
      frames := frames + [s];
      lave := lave - (nsend - 4 - UNIT_SIZE);
    }
    if |msg| == 0 {
      assert Merger.ChunkCount(0, TCP_DATA_SIZE) == 0;
    }
  }

  // ---------------------------------------------------------------- receiving

  /**
   * `tcp_recv_data`'s answer for a `recv` that returned `nread`; `transient`
   * says whether a failure's `errno` was EINTR, EWOULDBLOCK or EAGAIN. A
   * transient failure reads as "nothing yet" (0); any other failure, and
   * a read of 0 bytes (the peer closed), reads as -1; otherwise the count.
   */
  function RecvResult(nread: int, transient: bool): (r: int)
    ensures r >= -1
    ensures r == -1 <==> nread == 0 || (nread < 0 && !transient)
    ensures r == 0 <==> nread < 0 && transient
    ensures r > 0 ==> r == nread
  {
    if nread < 0 then (if transient then 0 else -1)
    else if nread == 0 then -1
    else nread
  }

  /** A closed peer is never mistaken for a quiet one: only a transient error means "try later". */
  lemma ClosedPeerCloses(transient: bool)
    ensures RecvResult(0, transient) == -1
  {
  }

  /** What `tcp_unpack_cb` does with a parsed frame. */
  datatype Action =
    | Ignore
    /** a login frame: the connection's mode becomes the one carried */
    | Login(mode: int)
    /** a whole message for the device queue, stamped with the connection id and mode */
    | Deliver(id: int, mode: int, payload: seq<byte>)
    /** a whole message dropped because the connection never completed */
    | Drop
    /** a fragment for the merger of its (id, serial) key, at its offset */
    | Merge(key: int, total: int, offset: int, frag: seq<byte>)

  /** The sending side's view of one connection. */
  datatype Client = Client(id: int, mode: int, connected: bool)

  /**
   * `tcp_unpack_cb` for the frame body `body` (header then payload) whose
   * header reads `u`, on connection `id`. `client` is the connection found
   * (None when unknown) and `completed` whether its connect sequence had
   * finished, after the one-millisecond grace the source allows. A frame
   * whose fragment length was not its total is a fragment: it goes to the
   * merger at offset `no * TCP_DATA_SIZE`.
   */
  function UnpackDispatch(client: Option<Client>, completed: bool, id: int, u: Unit, body: seq<byte>): (a: Action)
    requires |body| >= UNIT_SIZE && IsInt32(id) && IsInt32(u.serial)
    requires u.len == u.total && u.cmd == EMC_CMD_LOGIN ==> |body| >= UNIT_SIZE + 2
    ensures client.None? ==> a == Ignore
    ensures client.Some? && u.len != u.total ==>
              a == Merge(Common.SerialKey(id, u.serial), u.total, u.no * TCP_DATA_SIZE, body[UNIT_SIZE..])
    ensures client.Some? && u.len == u.total && u.cmd == EMC_CMD_DATA ==>
              a == if completed then Deliver(id, client.value.mode, body[UNIT_SIZE..]) else Drop
    ensures client.Some? && u.len == u.total && u.cmd == EMC_CMD_LOGIN ==>
              a == Login(U16(body[UNIT_SIZE], body[UNIT_SIZE + 1]))
    ensures client.Some? && u.len == u.total && u.cmd != EMC_CMD_DATA && u.cmd != EMC_CMD_LOGIN ==> a == Ignore
  {
    if client.None? then Ignore
    else if u.len == u.total then
      if u.cmd == EMC_CMD_LOGIN then Login(U16(body[UNIT_SIZE], body[UNIT_SIZE + 1]))
      else if u.cmd == EMC_CMD_DATA then
        if completed then Deliver(id, client.value.mode, body[UNIT_SIZE..]) else Drop
      else Ignore
    else Merge(Common.SerialKey(id, u.serial), u.total, u.no * TCP_DATA_SIZE, body[UNIT_SIZE..])
  }

  /**
   * Sender and receiver agree: frame `k` of a data record, read back under
   * any header bytes, is delivered as the whole message when the record fits
   * one frame, and is otherwise a fragment that lands at exactly the offset
   * of its chunk, under the key of the record's connection and serial.
   */
  lemma DispatchOfFrame(serial: int, id: int, msg: seq<byte>, s: Sep, head: seq<byte>, mode: int, k: nat)
    requires IsInt32(id) && IsInt32(serial) && |head| == UNIT_SIZE
    requires FrameOf(s, EMC_CMD_DATA, serial, id, msg, k)
    ensures |msg| <= TCP_DATA_SIZE ==>
              k == 0 && UnpackDispatch(Some(Client(id, mode, true)), true, id, s.unit, head + s.payload) == Deliver(id, mode, msg)
    ensures |msg| > TCP_DATA_SIZE ==>
              UnpackDispatch(Some(Client(id, mode, true)), true, id, s.unit, head + s.payload)
              == Merge(Common.SerialKey(id, serial), |msg|, k * TCP_DATA_SIZE, Merger.Chunk(msg, TCP_DATA_SIZE, k))
  {
    assert (head + s.payload)[UNIT_SIZE..] == s.payload;
    if |msg| <= TCP_DATA_SIZE {
      assert Merger.Chunk(msg, TCP_DATA_SIZE, 0) == msg;
    } else if k == 0 {
      assert |s.payload| == TCP_DATA_SIZE;
    }
  }

  // ---------------------------------------------------------------- sending

  /** A queued send record (`struct tcp_data`): its liveness, its wait flag, the message serial it was made for, its message. */
  class SendRecord {
    var flag: int
    const wait: int
    const serial: int
    var msg: Msg.Message?
    /** whether `free_impl` has released the record itself */
    var released: bool

    constructor (wait: int, serial: int, msg: Msg.Message?)
      ensures flag == EMC_LIVE && this.wait == wait && this.serial == serial && this.msg == msg && !released
    {
      flag, this.wait, this.serial, this.msg, released := EMC_LIVE, wait, serial, msg, false;
    }
  }

  /**
   * `tcp_release_msg`: only a LIVE record is acted on; it becomes DEAD,
   * forgets its message and is released. The message itself is freed only
   * for a no-wait send whose message holds no reference and still carries
   * the serial the record was made for (a recycled message is left alone).
   * A second release does nothing.
   */
  method ReleaseMsg(data: SendRecord)
    modifies data, data.msg
    ensures old(data.flag) != EMC_LIVE ==> data.flag == old(data.flag) && data.msg == old(data.msg) && data.released == old(data.released)
    ensures old(data.flag) != EMC_LIVE && old(data.msg) != null ==> old(data.msg).flag == old(data.msg.flag)
    ensures old(data.flag) == EMC_LIVE ==> data.flag == EMC_DEAD && data.msg == null && data.released
    ensures old(data.flag) == EMC_LIVE && old(data.msg) != null ==>
              var m := old(data.msg);
              var frees := data.wait == EMC_NOWAIT && old(Msg.ZeroRef(m)) > 0 && ToU32(old(Msg.Serial(m))) == data.serial;
              (frees ==> !Msg.Usable(m)) && (!frees ==> m.flag == old(m.flag))
  {
    if data.flag == EMC_LIVE {
      data.flag := EMC_DEAD;
      var m := data.msg;
      if m != null && data.wait == EMC_NOWAIT && Msg.ZeroRef(m) > 0 && ToU32(Msg.Serial(m)) == data.serial {
        var _ := Msg.Free(m);
      }
      data.msg := null;
      data.released := true;
    }
  }

  /** Releasing twice is releasing once. */
  method ReleaseTwice(data: SendRecord)
    requires data.flag == EMC_LIVE
    modifies data, data.msg
    ensures data.flag == EMC_DEAD && data.msg == null && data.released
  {
    ReleaseMsg(data);
    ReleaseMsg(data);
  }

  /** The outcome of `send_tcp`'s routing. */
  datatype Route =
    /** refused with -1; `monitored` when a send-failure event is raised */
    | Refuse(monitored: bool)
    /** a data record for the connection `id` */
    | Direct(id: int)
    /** a data record for every connected SUB connection */
    | ToSubscribers
    /** nothing sent, 0 answered */
    | Skip

  /** The mode and id the message ends up with, and the route taken. */
  datatype Plan = Plan(mode: int, id: int, route: Route)

  /** The mode `emc_msg_get_mode` reports: the message's own when LIVE, `(ushort)-1` otherwise. */
  function ModeRead(live: bool, mode: int): (m: int)
    ensures !live ==> m != EMC_REQ && m != EMC_REP && m != EMC_PUB && m != EMC_SUB
    ensures live ==> m == mode
  {
    if live then mode else 0xFFFF
  }

  /**
   * `send_tcp`'s routing of a message whose mode is `mode` and id `msgId`.
   * A server (`server`) answers a REQ as REP and refuses SUB; a client
   * sends everything in its own mode (`own.mode`). REQ and SUB on a client
   * take the client's id and are refused while it is disconnected; then
   * REQ, SUB and REP go to one connection (the server's connection `peer`
   * with the message's id, the client's own one otherwise), refused when it
   * is missing or disconnected. PUB from a server goes to the subscribers,
   * PUB from a client and any other mode send nothing. The setters leave a
   * dead message unchanged, so it always ends in `Skip`.
   */
  function SendRoute(server: bool, live: bool, mode: int, msgId: int, own: Client, peer: Option<Client>): (p: Plan)
    ensures !live ==> p.route == Skip
    ensures live && server && mode == EMC_SUB ==> p.route == Refuse(true)
    ensures live && server && mode == EMC_REQ ==> p.mode == EMC_REP && p.id == msgId
    ensures live && server && mode == EMC_PUB ==> p.route == ToSubscribers
    ensures live && server && (mode == EMC_REQ || mode == EMC_REP) ==>
              p.route == (if peer.Some? && peer.value.connected then Direct(peer.value.id) else Refuse(false))
    ensures live && !server ==> p.mode == own.mode
    ensures live && !server && (own.mode == EMC_REQ || own.mode == EMC_SUB) ==>
              p.id == own.id && p.route == (if own.connected then Direct(own.id) else Refuse(true))
    ensures live && !server && own.mode == EMC_REP ==>
              p.id == msgId && p.route == (if own.connected then Direct(own.id) else Refuse(false))
    ensures live && !server && own.mode == EMC_PUB ==> p.route == Skip
    ensures p.route.ToSubscribers? ==> server
  {
    var m1 := if live && server && mode == EMC_REQ then EMC_REP else mode;
    if live && server && m1 == EMC_SUB then Plan(m1, msgId, Refuse(true))
    else
      var m2 := if live && !server then own.mode else m1;
      var read := ModeRead(live, m2);
      var id2 := if (read == EMC_REQ || read == EMC_SUB) && !server then own.id else msgId;
      if (read == EMC_REQ || read == EMC_SUB) && !server && !own.connected then Plan(m2, id2, Refuse(true))
      else if read == EMC_REQ || read == EMC_SUB || read == EMC_REP then
        var target := if server then peer else Some(own);
        if target.None? || !target.value.connected then Plan(m2, id2, Refuse(false))
        else Plan(m2, id2, Direct(target.value.id))
      else if read == EMC_PUB && server then Plan(m2, id2, ToSubscribers)
      else Plan(m2, id2, Skip)
  }

  /** A server never sends a SUB message, and never leaves a REQ as REQ: it answers as REP. */
  lemma NoSubFromServer(live: bool, mode: int, msgId: int, own: Client, peer: Option<Client>)
    requires live
    ensures SendRoute(true, live, mode, msgId, own, peer).route.Direct? ==> SendRoute(true, live, mode, msgId, own, peer).mode != EMC_SUB
    ensures SendRoute(true, live, mode, msgId, own, peer).mode != EMC_REQ
  {
  }

  /**
   * `tcp_send_data`: a send record (`rec`, NULL when its allocation
   * failed) is queued for the connection and the connection is marked for
   * its worker. The message gains one reference first (-1 for a dead
   * message); when the send queue refuses the record the reference is given
   * back and -1 answered.
   */
  method SendData(sq: SendQueue.Queues, wmq: UniqueQueue.Queue, id: int, m: Msg.Message, rec: Ptr) returns (r: int)
    requires sq.Valid() && wmq.Valid() && 0 <= id < EMC_SOCKETS_DEFAULT && 0 <= m.ref < U32_MOD
    modifies sq, sq.count, wmq, wmq.ids, wmq.queue, m
    ensures sq.Valid() && wmq.Valid() && (r == 0 || r == -1)
    ensures r == 0 <==> rec != NULL && old(m.flag) == EMC_LIVE && |old(sq.queues[id])| < SendQueue.SQ_DEFAULT_SIZE
    ensures r == 0 ==> m.ref == (old(m.ref) + 1) % U32_MOD
    ensures r == 0 ==> sq.queues == old(sq.queues)[id := old(sq.queues[id]) + [rec]] && UniqueQueue.Queued(wmq.Contents(), id)
    ensures r == 0 ==> wmq.Contents() == Marked(old(wmq.Contents()), id)
    ensures r == -1 ==> m.ref == old(m.ref)
    ensures r == -1 ==> sq.queues == old(sq.queues) && wmq.Contents() == old(wmq.Contents())
    ensures m.flag == old(m.flag) && m.serial == old(m.serial)
  {
    if rec == NULL {
      return -1;
    }
    var a := Msg.RefAdd(m);
    if a < 0 {
      return -1;
    }
    var q := sq.Push(id, rec);
    if q < 0 {
      var _ := Msg.RefDec(m);
      assert m.ref == old(m.ref) by {
        assert m.ref == ((old(m.ref) + 1) % U32_MOD - 1) % U32_MOD;
      }
      return -1;
    }
    var u := wmq.Push(id, NULL);
    r := 0;
  }

  /** The worker queue after `push_uqueue` of `id`: unchanged when it is queued already, one entry longer otherwise. */
  function Marked(ws: seq<UniqueQueue.UNode>, id: int): (ws': seq<UniqueQueue.UNode>)
    ensures UniqueQueue.Queued(ws', id)
    ensures forall v :: UniqueQueue.Queued(ws', v) <==> UniqueQueue.Queued(ws, v) || v == id
  {
    if UniqueQueue.Queued(ws, id) then ws
    else
      var ws' := ws + [UniqueQueue.UNode(id, NULL)];
      assert ws'[|ws|].id == id;
      assert forall i :: 0 <= i < |ws| ==> ws'[i] == ws[i];
      ws'
  }

  /** Whether `tcp_pub_foreach_cb` sends to the connection: it is a connected SUB one. */
  predicate Subscribed(c: Client)
  {
    c.mode == EMC_SUB && c.connected
  }

  /** The ids of the connections that `tcp_pub_foreach_cb` sends to, in visiting order. */
  function Subscribers(clients: seq<Client>): (ids: seq<int>)
    ensures |ids| <= |clients|
  {
    if clients == [] then []
    else
      var last := clients[|clients| - 1];
      Subscribers(clients[..|clients| - 1]) + (if Subscribed(last) then [last.id] else [])
  }

  /** Subscribers are exactly the ids of the subscribed connections. */
  lemma {:induction false} SubscribersAre(clients: seq<Client>, x: int)
    ensures x in Subscribers(clients) <==> exists j :: 0 <= j < |clients| && Subscribed(clients[j]) && clients[j].id == x
  {
    if clients != [] {
      var init := clients[..|clients| - 1];
      SubscribersAre(init, x);
      if exists j :: 0 <= j < |clients| && Subscribed(clients[j]) && clients[j].id == x {
        var j :| 0 <= j < |clients| && Subscribed(clients[j]) && clients[j].id == x;
        if j < |init| {
          assert init[j] == clients[j];
        }
      }
      if exists j :: 0 <= j < |init| && Subscribed(init[j]) && init[j].id == x {
        var j :| 0 <= j < |init| && Subscribed(init[j]) && init[j].id == x;
        assert clients[j] == init[j];
      }
    }
  }

  /** Walking one more connection adds a subscriber exactly when it is subscribed. */
  lemma SubscribersStep(clients: seq<Client>, i: int)
    requires 0 <= i < |clients|
    ensures Subscribers(clients[..i + 1]) == Subscribers(clients[..i]) + (if Subscribed(clients[i]) then [clients[i].id] else [])
  {
    assert clients[..i + 1][..i] == clients[..i];
  }

  /** A shorter walk's subscribers are a prefix of a longer one's. */
  lemma {:induction false} SubscribersPrefix(clients: seq<Client>, j: int, n: int)
    requires 0 <= j <= n <= |clients|
    ensures Subscribers(clients[..j]) <= Subscribers(clients[..n])
    decreases n - j
  {
    if j < n {
      SubscribersStep(clients, j);
      SubscribersPrefix(clients, j + 1, n);
    }
  }

  /** The place of connection `j` among the subscribers, when it is one. */
  function SubscriberIndex(clients: seq<Client>, j: int): (k: nat)
    requires 0 <= j < |clients|
    ensures Subscribed(clients[j]) ==> k < |Subscribers(clients)| && Subscribers(clients)[k] == clients[j].id
  {
    SubscribersStep(clients, j);
    SubscribersPrefix(clients, j + 1, |clients|);
    assert clients[..|clients|] == clients;
    |Subscribers(clients[..j])|
  }

  /**
   * The (id, record) pairs the fan-out queues, in visiting order:
   * `outcome` holds one answer per subscriber, and a subscriber's record
   * is queued when its answer is a success.
   */
  function Sent(clients: seq<Client>, recs: seq<Ptr>, outcome: seq<bool>): seq<(int, Ptr)>
    requires |recs| == |clients| && |outcome| == |Subscribers(clients)|
    decreases |clients|
  {
    if clients == [] then []
    else
      var n := |clients| - 1;
      var k := |Subscribers(clients[..n])|;
      Sent(clients[..n], recs[..n], outcome[..k]) + (if Subscribed(clients[n]) && outcome[k] then [(clients[n].id, recs[n])] else [])
  }

  /** The fan-out's account after one more connection, as the loop of `PubForeach` takes it. */
  lemma SentStep(clients: seq<Client>, recs: seq<Ptr>, i: int, before: seq<bool>, b: bool)
    requires 0 <= i < |clients| && |recs| == |clients| && |before| == |Subscribers(clients[..i])|
    ensures var after := before + (if Subscribed(clients[i]) then [b] else []);
            |after| == |Subscribers(clients[..i + 1])|
            && Sent(clients[..i + 1], recs[..i + 1], after)
               == Sent(clients[..i], recs[..i], before) + (if Subscribed(clients[i]) && b then [(clients[i].id, recs[i])] else [])
  {
    SubscribersStep(clients, i);
    var after := before + (if Subscribed(clients[i]) then [b] else []);
    assert clients[..i + 1][..i] == clients[..i];
    assert recs[..i + 1][..i] == recs[..i];
    assert after[..|before|] == before;
  }

  /** The send queues after each pair's record has joined the back of its id's queue, in order. */
  ghost function Enqueued(qs: seq<seq<Ptr>>, sent: seq<(int, Ptr)>): (qs': seq<seq<Ptr>>)
    ensures |qs'| == |qs|
  {
    if sent == [] then qs
    else
      var n := |sent| - 1;
      var q := Enqueued(qs, sent[..n]);
      var x := sent[n].0;
      if 0 <= x < |q| then q[x := q[x] + [sent[n].1]] else q
  }

  /** The records of the pairs for `x`, in order. */
  function RecordsFor(sent: seq<(int, Ptr)>, x: int): seq<Ptr>
  {
    if sent == [] then []
    else RecordsFor(sent[..|sent| - 1], x) + (if sent[|sent| - 1].0 == x then [sent[|sent| - 1].1] else [])
  }

  /** The worker queue after `push_uqueue` of each pair's id, in order. */
  function MarkedAll(ws: seq<UniqueQueue.UNode>, sent: seq<(int, Ptr)>): seq<UniqueQueue.UNode>
  {
    if sent == [] then ws else Marked(MarkedAll(ws, sent[..|sent| - 1]), sent[|sent| - 1].0)
  }

  lemma EnqueuedSnoc(qs: seq<seq<Ptr>>, sent: seq<(int, Ptr)>, x: (int, Ptr))
    requires 0 <= x.0 < |qs|
    ensures Enqueued(qs, sent + [x]) == Enqueued(qs, sent)[x.0 := Enqueued(qs, sent)[x.0] + [x.1]]
  {
    assert (sent + [x])[..|sent|] == sent;
  }

  lemma MarkedAllSnoc(ws: seq<UniqueQueue.UNode>, sent: seq<(int, Ptr)>, x: (int, Ptr))
    ensures MarkedAll(ws, sent + [x]) == Marked(MarkedAll(ws, sent), x.0)
  {
    assert (sent + [x])[..|sent|] == sent;
  }

  /** Each queue gains exactly the records for its id, in the order they were sent. */
  lemma {:induction false} EnqueuedAt(qs: seq<seq<Ptr>>, sent: seq<(int, Ptr)>, x: int)
    requires 0 <= x < |qs|
    ensures Enqueued(qs, sent)[x] == qs[x] + RecordsFor(sent, x)
  {
    if sent != [] {
      var n := |sent| - 1;
      EnqueuedAt(qs, sent[..n], x);
    }
  }

  /** After the marks, an id is queued for its worker exactly when it was already or some pair is for it. */
  lemma {:induction false} MarkedAllQueued(ws: seq<UniqueQueue.UNode>, sent: seq<(int, Ptr)>, x: int)
    ensures UniqueQueue.Queued(MarkedAll(ws, sent), x) <==> UniqueQueue.Queued(ws, x) || exists j :: 0 <= j < |sent| && sent[j].0 == x
  {
    if sent != [] {
      var n := |sent| - 1;
      MarkedAllQueued(ws, sent[..n], x);
      if exists j :: 0 <= j < n && sent[..n][j].0 == x {
        var j :| 0 <= j < n && sent[..n][j].0 == x;
        assert sent[j].0 == x;
      }
      if exists j :: 0 <= j < |sent| && sent[j].0 == x {
        var j :| 0 <= j < |sent| && sent[j].0 == x;
        if j < n {
          assert sent[..n][j].0 == x;
        }
      }
    }
  }

  lemma {:induction false} RecordsForAppend(a: seq<(int, Ptr)>, b: seq<(int, Ptr)>, x: int)
    ensures RecordsFor(a + b, x) == RecordsFor(a, x) + RecordsFor(b, x)
    decreases |b|
  {
    if b == [] {
      assert a + b == a;
    } else {
      var n := |b| - 1;
      assert (a + b)[..|a + b| - 1] == a + b[..n];
      RecordsForAppend(a, b[..n], x);
    }
  }

  /** The records for `x` of a walk: those of the walk without its last connection, then the last one's. */
  lemma SentLast(clients: seq<Client>, recs: seq<Ptr>, outcome: seq<bool>, x: int)
    requires |recs| == |clients| && |outcome| == |Subscribers(clients)| && clients != []
    ensures var n := |clients| - 1;
            var k := |Subscribers(clients[..n])|;
            k + (if Subscribed(clients[n]) then 1 else 0) == |outcome|
            && RecordsFor(Sent(clients, recs, outcome), x)
               == RecordsFor(Sent(clients[..n], recs[..n], outcome[..k]), x)
                  + (if Subscribed(clients[n]) && outcome[k] && clients[n].id == x then [recs[n]] else [])
  {
    var n := |clients| - 1;
    var k := |Subscribers(clients[..n])|;
    var tail: seq<(int, Ptr)> := if Subscribed(clients[n]) && outcome[k] then [(clients[n].id, recs[n])] else [];
    RecordsForAppend(Sent(clients[..n], recs[..n], outcome[..k]), tail, x);
    assert RecordsFor(tail, x) == if Subscribed(clients[n]) && outcome[k] && clients[n].id == x then [recs[n]] else [] by {
      if tail != [] {
        assert tail[..0] == [];
      }
    }
  }

  /** An id none of the connections has gets no record. */
  lemma {:induction false} NotSentBefore(clients: seq<Client>, recs: seq<Ptr>, outcome: seq<bool>, x: int)
    requires |recs| == |clients| && |outcome| == |Subscribers(clients)|
    requires forall i :: 0 <= i < |clients| ==> clients[i].id != x
    ensures RecordsFor(Sent(clients, recs, outcome), x) == []
    decreases |clients|
  {
    if clients != [] {
      var n := |clients| - 1;
      var k := |Subscribers(clients[..n])|;
      SentLast(clients, recs, outcome, x);
      NotSentBefore(clients[..n], recs[..n], outcome[..k], x);
    }
  }

  /** No two connections of the table share an id. */
  predicate DistinctIds(clients: seq<Client>)
  {
    forall i, j :: 0 <= i < j < |clients| ==> clients[i].id != clients[j].id
  }

  /**
   * With distinct ids, connection `j` of the walk gets exactly one record,
   * its own, when it is a subscriber whose answer was a success, and none
   * otherwise.
   */
  lemma {:induction false} SentFor(clients: seq<Client>, recs: seq<Ptr>, outcome: seq<bool>, j: int)
    requires |recs| == |clients| && |outcome| == |Subscribers(clients)| && DistinctIds(clients)
    requires 0 <= j < |clients|
    ensures RecordsFor(Sent(clients, recs, outcome), clients[j].id)
            == if Subscribed(clients[j]) && outcome[SubscriberIndex(clients, j)] then [recs[j]] else []
    decreases |clients|
  {
    var n := |clients| - 1;
    var k := |Subscribers(clients[..n])|;
    var x := clients[j].id;
    SentLast(clients, recs, outcome, x);
    var init, rinit, oinit := clients[..n], recs[..n], outcome[..k];
    if j < n {
      assert init[j] == clients[j] && rinit[j] == recs[j] && init[..j] == clients[..j];
      assert SubscriberIndex(init, j) == SubscriberIndex(clients, j);
      SentFor(init, rinit, oinit, j);
      if Subscribed(clients[j]) {
        assert oinit[SubscriberIndex(init, j)] == outcome[SubscriberIndex(clients, j)];
      }
    } else {
      NotSentBefore(init, rinit, oinit, x);
    }
  }

  /** An id that is no subscriber's gets no record. */
  lemma {:induction false} SentOnlySubscribers(clients: seq<Client>, recs: seq<Ptr>, outcome: seq<bool>, x: int)
    requires |recs| == |clients| && |outcome| == |Subscribers(clients)|
    requires x !in Subscribers(clients)
    ensures RecordsFor(Sent(clients, recs, outcome), x) == []
    decreases |clients|
  {
    if clients != [] {
      var n := |clients| - 1;
      var k := |Subscribers(clients[..n])|;
      SentLast(clients, recs, outcome, x);
      SentOnlySubscribers(clients[..n], recs[..n], outcome[..k], x);
    }
  }

  /** Some pair is for `x` exactly when `x` has records. */
  lemma {:induction false} RecordsForSome(sent: seq<(int, Ptr)>, x: int)
    ensures RecordsFor(sent, x) != [] <==> exists j :: 0 <= j < |sent| && sent[j].0 == x
  {
    if sent != [] {
      var n := |sent| - 1;
      RecordsForSome(sent[..n], x);
      if exists j :: 0 <= j < n && sent[..n][j].0 == x {
        var j :| 0 <= j < n && sent[..n][j].0 == x;
        assert sent[j].0 == x;
      }
      if exists j :: 0 <= j < |sent| && sent[j].0 == x {
        var j :| 0 <= j < |sent| && sent[j].0 == x;
        if j < n {
          assert sent[..n][j].0 == x;
        }
      }
    }
  }

  /**
   * What the publish does to one connection of a table with distinct ids:
   * its send queue gains its own record at the back, and its id is queued
   * for its worker, exactly when it is a subscriber whose send succeeded;
   * otherwise its queue is unchanged.
   */
  lemma PublishedTo(qs0: seq<seq<Ptr>>, ws0: seq<UniqueQueue.UNode>, clients: seq<Client>, recs: seq<Ptr>, outcome: seq<bool>, j: int)
    requires |recs| == |clients| && |outcome| == |Subscribers(clients)| && DistinctIds(clients)
    requires 0 <= j < |clients| && 0 <= clients[j].id < |qs0|
    ensures var sent := Sent(clients, recs, outcome);
            var got := Subscribed(clients[j]) && outcome[SubscriberIndex(clients, j)];
            Enqueued(qs0, sent)[clients[j].id] == qs0[clients[j].id] + (if got then [recs[j]] else [])
            && (UniqueQueue.Queued(MarkedAll(ws0, sent), clients[j].id) <==> UniqueQueue.Queued(ws0, clients[j].id) || got)
  {
    var sent := Sent(clients, recs, outcome);
    var x := clients[j].id;
    EnqueuedAt(qs0, sent, x);
    SentFor(clients, recs, outcome, j);
    MarkedAllQueued(ws0, sent, x);
    RecordsForSome(sent, x);
  }

  /**
   * The publish with the answers of `PubForeach`, for a table with
   * distinct ids: a connection's send queue gains its record exactly when
   * it subscribed and `tcp_send_data` admitted the record (one allocated,
   * the message LIVE, room in that queue before the publish), and only
   * then is its id newly marked.
   */
  lemma PublishedWhenAdmitted(qs0: seq<seq<Ptr>>, ws0: seq<UniqueQueue.UNode>, clients: seq<Client>, recs: seq<Ptr>, live: bool, j: int)
    requires |recs| == |clients| && DistinctIds(clients)
    requires 0 <= j < |clients| && 0 <= clients[j].id < |qs0|
    ensures var sent := Sent(clients, recs, Answers(clients, recs, live, qs0));
            var got := Subscribed(clients[j]) && recs[j] != NULL && live && |qs0[clients[j].id]| < SendQueue.SQ_DEFAULT_SIZE;
            Enqueued(qs0, sent)[clients[j].id] == qs0[clients[j].id] + (if got then [recs[j]] else [])
            && (UniqueQueue.Queued(MarkedAll(ws0, sent), clients[j].id) <==> UniqueQueue.Queued(ws0, clients[j].id) || got)
  {
    PublishedTo(qs0, ws0, clients, recs, Answers(clients, recs, live, qs0), j);
    if Subscribed(clients[j]) {
      AnswerOf(clients, recs, live, qs0, j);
    }
  }

  /** A connection that is no subscriber keeps its send queue, and its worker mark. */
  lemma NotPublishedTo(qs0: seq<seq<Ptr>>, ws0: seq<UniqueQueue.UNode>, clients: seq<Client>, recs: seq<Ptr>, outcome: seq<bool>, x: int)
    requires |recs| == |clients| && |outcome| == |Subscribers(clients)|
    requires x !in Subscribers(clients) && 0 <= x < |qs0|
    ensures var sent := Sent(clients, recs, outcome);
            Enqueued(qs0, sent)[x] == qs0[x]
            && (UniqueQueue.Queued(MarkedAll(ws0, sent), x) <==> UniqueQueue.Queued(ws0, x))
  {
    var sent := Sent(clients, recs, outcome);
    EnqueuedAt(qs0, sent, x);
    SentOnlySubscribers(clients, recs, outcome, x);
    MarkedAllQueued(ws0, sent, x);
    RecordsForSome(sent, x);
  }

  /**
   * The publish fan-out of a server's `send_tcp`: the connection table is
   * walked (`clients` in its visiting order, `recs` the record allocated
   * for each) and every connected SUB connection gets a send record via
   * `SendData`; a failure only raises a send-failure event. One outcome is
   * recorded per subscriber; the send queues gain the records of the
   * successful ones (`Sent`), their ids are marked for the workers, and
   * the message ends with one more reference per record queued.
   */
  method PubForeach(sq: SendQueue.Queues, wmq: UniqueQueue.Queue, clients: seq<Client>, recs: seq<Ptr>, m: Msg.Message)
    returns (outcome: seq<bool>)
    requires sq.Valid() && wmq.Valid() && 0 <= m.ref < U32_MOD && |recs| == |clients|
    requires forall i :: 0 <= i < |clients| ==> 0 <= clients[i].id < EMC_SOCKETS_DEFAULT
    modifies sq, sq.count, wmq, wmq.ids, wmq.queue, m
    ensures sq.Valid() && wmq.Valid()
    ensures |outcome| == |Subscribers(clients)|
    ensures sq.queues == Enqueued(old(sq.queues), Sent(clients, recs, outcome))
    ensures wmq.Contents() == MarkedAll(old(wmq.Contents()), Sent(clients, recs, outcome))
    ensures DistinctIds(clients) ==> outcome == Answers(clients, recs, old(m.flag) == EMC_LIVE, old(sq.queues))
    ensures m.ref == (old(m.ref) + Successes(outcome)) % U32_MOD
    ensures old(m.flag) != EMC_LIVE ==> Successes(outcome) == 0
    ensures m.flag == old(m.flag)
  {
    outcome := [];
    ghost var start := m.ref;
    ghost var qs0, ws0 := sq.queues, wmq.Contents();
    var i := 0;
    while i < |clients|
      invariant 0 <= i <= |clients| && Sound(sq, wmq)
      invariant Progress(sq.queues, wmq.Contents(), clients, recs, i, outcome, qs0, ws0, old(m.flag) == EMC_LIVE)
      invariant m.ref == (start + Successes(outcome)) % U32_MOD
      invariant old(m.flag) != EMC_LIVE ==> Successes(outcome) == 0
      invariant m.flag == old(m.flag)
    {
      ghost var qs, ws, before := sq.queues, wmq.Contents(), outcome;
      outcome := Offer(sq, wmq, clients, recs, i, m, outcome, qs0, ws0, start);
      ProgressStep(qs, ws, sq.queues, wmq.Contents(), clients, recs, i, before, outcome, qs0, ws0, old(m.flag) == EMC_LIVE);
      i := i + 1;
    }
    ProgressDone(sq.queues, wmq.Contents(), clients, recs, outcome, qs0, ws0, old(m.flag) == EMC_LIVE);
  }

  /** Both queues of the fan-out are well formed. */
  ghost predicate Sound(sq: SendQueue.Queues, wmq: UniqueQueue.Queue)
    reads sq, sq.count, wmq, wmq.ids, wmq.queue
  {
    sq.Valid() && wmq.Valid()
  }

  /** Whether `tcp_send_data` queues record `rec` for id `id` while that id's queue is still as in `qs`: a record, a LIVE message and room. */
  function Admits(rec: Ptr, live: bool, qs: seq<seq<Ptr>>, id: int): bool
  {
    rec != NULL && live && 0 <= id < |qs| && |qs[id]| < SendQueue.SQ_DEFAULT_SIZE
  }

  /**
   * The answers the fan-out gives, one per subscriber in visiting order,
   * when every send meets the queues as they were before it: whether
   * `Admits` takes the subscriber's record.
   */
  function Answers(clients: seq<Client>, recs: seq<Ptr>, live: bool, qs: seq<seq<Ptr>>): (a: seq<bool>)
    requires |recs| == |clients|
    ensures |a| == |Subscribers(clients)|
  {
    if clients == [] then []
    else
      var n := |clients| - 1;
      Answers(clients[..n], recs[..n], live, qs) + (if Subscribed(clients[n]) then [Admits(recs[n], live, qs, clients[n].id)] else [])
  }

  /** The answers after one more connection, as the loop of `PubForeach` takes them. */
  lemma AnswersStep(clients: seq<Client>, recs: seq<Ptr>, live: bool, qs: seq<seq<Ptr>>, i: int)
    requires |recs| == |clients| && 0 <= i < |clients|
    ensures Answers(clients[..i + 1], recs[..i + 1], live, qs)
            == Answers(clients[..i], recs[..i], live, qs) + (if Subscribed(clients[i]) then [Admits(recs[i], live, qs, clients[i].id)] else [])
  {
    assert clients[..i + 1][..i] == clients[..i];
    assert recs[..i + 1][..i] == recs[..i];
  }

  /** The answers of a prefix of the walk are a prefix of the answers. */
  lemma {:induction false} AnswersPrefix(clients: seq<Client>, recs: seq<Ptr>, live: bool, qs: seq<seq<Ptr>>, k: int)
    requires |recs| == |clients| && 0 <= k <= |clients|
    ensures var a := Answers(clients[..k], recs[..k], live, qs);
            |a| <= |Answers(clients, recs, live, qs)| && Answers(clients, recs, live, qs)[..|a|] == a
    decreases |clients| - k
  {
    if k == |clients| {
      assert clients[..k] == clients && recs[..k] == recs;
    } else {
      AnswersPrefix(clients, recs, live, qs, k + 1);
      AnswersStep(clients, recs, live, qs, k);
      var a := Answers(clients[..k], recs[..k], live, qs);
      var a' := Answers(clients[..k + 1], recs[..k + 1], live, qs);
      assert a'[..|a|] == a;
      assert Answers(clients, recs, live, qs)[..|a|] == a'[..|a|];
    }
  }

  /** Each subscriber's answer is what `Admits` says of its own record and queue. */
  lemma AnswerOf(clients: seq<Client>, recs: seq<Ptr>, live: bool, qs: seq<seq<Ptr>>, j: int)
    requires |recs| == |clients| && 0 <= j < |clients| && Subscribed(clients[j])
    ensures SubscriberIndex(clients, j) < |Answers(clients, recs, live, qs)|
    ensures Answers(clients, recs, live, qs)[SubscriberIndex(clients, j)] == Admits(recs[j], live, qs, clients[j].id)
  {
    AnswersPrefix(clients, recs, live, qs, j + 1);
    AnswersStep(clients, recs, live, qs, j);
  }

  /** With distinct ids, the fan-out has not touched the queue of the connection it visits next. */
  lemma Untouched(qs: seq<seq<Ptr>>, ws: seq<UniqueQueue.UNode>, clients: seq<Client>, recs: seq<Ptr>, i: int, outcome: seq<bool>,
                  qs0: seq<seq<Ptr>>, ws0: seq<UniqueQueue.UNode>)
    requires |recs| == |clients| && 0 <= i < |clients| && DistinctIds(clients)
    requires FannedOut(qs, ws, clients, recs, i, outcome, qs0, ws0) && 0 <= clients[i].id < |qs|
    ensures 0 <= clients[i].id < |qs0| && qs[clients[i].id] == qs0[clients[i].id]
  {
    var x := clients[i].id;
    EnqueuedAt(qs0, Sent(clients[..i], recs[..i], outcome), x);
    NotSentBefore(clients[..i], recs[..i], outcome, x);
  }

  /** The fan-out's account after visiting the first `i` connections, with its answers when the ids are distinct. */
  ghost predicate Progress(qs: seq<seq<Ptr>>, ws: seq<UniqueQueue.UNode>, clients: seq<Client>, recs: seq<Ptr>, i: int,
                           outcome: seq<bool>, qs0: seq<seq<Ptr>>, ws0: seq<UniqueQueue.UNode>, live: bool)
    requires |recs| == |clients| && 0 <= i <= |clients|
  {
    FannedOut(qs, ws, clients, recs, i, outcome, qs0, ws0)
    && (DistinctIds(clients) ==> outcome == Answers(clients[..i], recs[..i], live, qs0))
  }

  /** One visit keeps the account: the visit answers as `Admits` says of the queues it met, which are still those before the fan-out. */
  lemma ProgressStep(qs: seq<seq<Ptr>>, ws: seq<UniqueQueue.UNode>, qs': seq<seq<Ptr>>, ws': seq<UniqueQueue.UNode>,
                     clients: seq<Client>, recs: seq<Ptr>, i: int, outcome: seq<bool>, outcome': seq<bool>,
                     qs0: seq<seq<Ptr>>, ws0: seq<UniqueQueue.UNode>, live: bool)
    requires |recs| == |clients| && 0 <= i < |clients| && 0 <= clients[i].id < |qs|
    requires Progress(qs, ws, clients, recs, i, outcome, qs0, ws0, live)
    requires FannedOut(qs', ws', clients, recs, i + 1, outcome', qs0, ws0)
    requires outcome' == outcome + if Subscribed(clients[i]) then [Admits(recs[i], live, qs, clients[i].id)] else []
    ensures Progress(qs', ws', clients, recs, i + 1, outcome', qs0, ws0, live)
  {
    if DistinctIds(clients) {
      Untouched(qs, ws, clients, recs, i, outcome, qs0, ws0);
      AnswersStep(clients, recs, live, qs0, i);
    }
  }

  /** Once every connection is visited, the account and the answers are those of the whole walk. */
  lemma ProgressDone(qs: seq<seq<Ptr>>, ws: seq<UniqueQueue.UNode>, clients: seq<Client>, recs: seq<Ptr>,
                     outcome: seq<bool>, qs0: seq<seq<Ptr>>, ws0: seq<UniqueQueue.UNode>, live: bool)
    requires |recs| == |clients| && Progress(qs, ws, clients, recs, |clients|, outcome, qs0, ws0, live)
    ensures |outcome| == |Subscribers(clients)|
    ensures qs == Enqueued(qs0, Sent(clients, recs, outcome)) && ws == MarkedAll(ws0, Sent(clients, recs, outcome))
    ensures DistinctIds(clients) ==> outcome == Answers(clients, recs, live, qs0)
  {
    FannedOutDone(qs, ws, clients, recs, outcome, qs0, ws0);
    assert clients[..|clients|] == clients && recs[..|recs|] == recs;
  }

  /** Once every connection is visited, the account is that of the whole walk. */
  lemma FannedOutDone(qs: seq<seq<Ptr>>, ws: seq<UniqueQueue.UNode>, clients: seq<Client>, recs: seq<Ptr>,
                      outcome: seq<bool>, qs0: seq<seq<Ptr>>, ws0: seq<UniqueQueue.UNode>)
    requires |recs| == |clients| && FannedOut(qs, ws, clients, recs, |clients|, outcome, qs0, ws0)
    ensures |outcome| == |Subscribers(clients)|
    ensures qs == Enqueued(qs0, Sent(clients, recs, outcome)) && ws == MarkedAll(ws0, Sent(clients, recs, outcome))
  {
    assert clients[..|clients|] == clients && recs[..|recs|] == recs;
  }

  /** The fan-out's account after visiting the first `i` connections: the queues and marks it has added. */
  ghost predicate FannedOut(qs: seq<seq<Ptr>>, ws: seq<UniqueQueue.UNode>, clients: seq<Client>, recs: seq<Ptr>, i: int,
                            outcome: seq<bool>, qs0: seq<seq<Ptr>>, ws0: seq<UniqueQueue.UNode>)
    requires |recs| == |clients| && 0 <= i <= |clients|
  {
    |outcome| == |Subscribers(clients[..i])|
    && qs == Enqueued(qs0, Sent(clients[..i], recs[..i], outcome))
    && ws == MarkedAll(ws0, Sent(clients[..i], recs[..i], outcome))
  }

  /** The fan-out's visit of connection `i`, keeping the fan-out's account of what it has done so far. */
  method Offer(sq: SendQueue.Queues, wmq: UniqueQueue.Queue, clients: seq<Client>, recs: seq<Ptr>, i: int, m: Msg.Message,
               outcome: seq<bool>, ghost qs0: seq<seq<Ptr>>, ghost ws0: seq<UniqueQueue.UNode>, ghost start: int)
    returns (outcome': seq<bool>)
    requires sq.Valid() && wmq.Valid() && 0 <= m.ref < U32_MOD && |recs| == |clients| && 0 <= i < |clients|
    requires 0 <= clients[i].id < EMC_SOCKETS_DEFAULT
    requires FannedOut(sq.queues, wmq.Contents(), clients, recs, i, outcome, qs0, ws0)
    requires m.ref == (start + Successes(outcome)) % U32_MOD
    modifies sq, sq.count, wmq, wmq.ids, wmq.queue, m
    ensures sq.Valid() && wmq.Valid()
    ensures FannedOut(sq.queues, wmq.Contents(), clients, recs, i + 1, outcome', qs0, ws0)
    ensures outcome' == outcome + if Subscribed(clients[i]) then [Admits(recs[i], old(m.flag) == EMC_LIVE, old(sq.queues), clients[i].id)] else []
    ensures m.ref == (start + Successes(outcome')) % U32_MOD
    ensures old(m.flag) != EMC_LIVE ==> Successes(outcome') == Successes(outcome)
    ensures m.flag == old(m.flag)
  {
    assert |outcome| == |Subscribers(clients[..i])|;
    ghost var sent := Sent(clients[..i], recs[..i], outcome);
    if Subscribed(clients[i]) {
      ghost var admits := Admits(recs[i], m.flag == EMC_LIVE, sq.queues, clients[i].id);
      var r := SendData(sq, wmq, clients[i].id, m, recs[i]);
      assert (r == 0) == admits;
      outcome' := outcome + [r == 0];
      assert outcome'[..|outcome'| - 1] == outcome;
      SentStep(clients, recs, i, outcome, r == 0);
      if r == 0 {
        ModStep(start, Successes(outcome));
        EnqueuedSnoc(qs0, sent, (clients[i].id, recs[i]));
        MarkedAllSnoc(ws0, sent, (clients[i].id, recs[i]));
      } else {
        assert Sent(clients[..i + 1], recs[..i + 1], outcome') == sent + [];
        assert sent + [] == sent;
      }
    } else {
      outcome' := outcome;
      SentStep(clients, recs, i, outcome, false);
      assert outcome + [] == outcome;
      assert Sent(clients[..i + 1], recs[..i + 1], outcome') == sent + [];
      assert sent + [] == sent;
    }
  }
}
