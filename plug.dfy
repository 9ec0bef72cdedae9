/**
 * The plug of `plug.c`: the user-facing endpoint. A plug belongs to a
 * device, has a mode (REQ, REP, PUB or SUB), at most an IPC and a TCP
 * transport, and a multi-consumer ring of received message pointers.
 *
 * The registry lookups of the source are done by the caller: a plug or a
 * device the registry does not know is `null`. What the transports, the TCP
 * manager and `check_local_machine` answer is passed in; the transports
 * themselves are handles.
 */
module Plug {
  import opened CInt
  import opened Config
  import opened Utility
  import RingQueue
  import Device

  class Plug {
    const device: int
    var mode: int
    var ipc: Ptr
    var tcp: Ptr
    const mq: RingQueue.Queue

    ghost predicate Valid()
      reads this, mq, mq.node, mq.cs
    {
      mq.Valid() && mq.mode == RingQueue.RQ_M && 0 <= mode < 0x1_0000
    }

    /** The zeroed plug of `emc_plug`: no mode, no transport, an empty queue. */
    constructor (device: int)
      ensures Valid() && fresh(mq) && fresh(mq.node) && fresh(mq.cs) && this.device == device
      ensures mode == EMC_NONE && ipc == NULL && tcp == NULL && mq.Pending() == []
    {
      this.device, mode, ipc, tcp := device, EMC_NONE, NULL, NULL;
      mq := new RingQueue.Queue(RingQueue.RQ_M);
    }
  }

  /** The mode a connecting plug takes: it is the client side, so PUB is heard as SUB and REP asks as REQ. */
  function ClientMode(mode: int): (m: int)
    ensures m != EMC_PUB && m != EMC_REP
    ensures mode == EMC_PUB ==> m == EMC_SUB
    ensures mode == EMC_REP ==> m == EMC_REQ
    ensures mode != EMC_PUB && mode != EMC_REP ==> m == mode
    ensures 0 <= mode < 0x1_0000 ==> 0 <= m < 0x1_0000
  {
    if mode == EMC_PUB then EMC_SUB else if mode == EMC_REP then EMC_REQ else mode
  }

  /** Coercing twice is coercing once. */
  lemma ClientModeIdempotent(mode: int)
    ensures ClientMode(ClientMode(mode)) == ClientMode(mode)
  {
  }

  /**
   * The errno the manager step of `emc_bind` and `emc_connect` leaves, as
   * `set_device_tcp_mgr` is written: the lookups set ENODEVICE for an
   * unknown device, and the setter, which runs when the device has no
   * manager yet, sets ENODEVICE on its branch for a KNOWN device. So a
   * manager that could not be made is reported as a missing device.
   */
  function ManagerErrnoAsWritten(known: bool, hadManager: bool): (e: Option<Code>)
    ensures !known ==> e == Some(ENoDevice)
    ensures known ==> (e == Some(ENoDevice) <==> !hadManager)
  {
    if !known || !hadManager then Some(ENoDevice) else None
  }

  /**
   * The errno evidently intended, the pattern of every other accessor in
   * `device.c`: ENODEVICE exactly when the device is unknown.
   */
  function ManagerErrno(known: bool, hadManager: bool): (e: Option<Code>)
    ensures e == Some(ENoDevice) <==> !known
    ensures e.Some? ==> e == Some(ENoDevice)
  {
    if !known then Some(ENoDevice) else None
  }

  /** Where the two differ: a known device whose manager could not be made is blamed as unknown. */
  lemma ManagerErrnoBlamesKnownDevice(known: bool, hadManager: bool)
    ensures ManagerErrnoAsWritten(known, hadManager) != ManagerErrno(known, hadManager) <==> known && !hadManager
    ensures ManagerErrnoAsWritten(true, false) == Some(ENoDevice) && ManagerErrno(true, false) == None
  {
  }

  /**
   * The TCP manager step shared by `emc_bind` and `emc_connect`: a device
   * without a manager gets the one `created` (which may be NULL). The answer
   * is the device's manager afterwards and the errno the step leaves, the
   * as-written one of `ManagerErrnoAsWritten`.
   */
  method EnsureManager(ed: Device.Device?, created: Ptr) returns (mgr: Ptr, err: Option<Code>)
    requires ed != null ==> ed.Valid()
    modifies ed
    ensures ed == null ==> mgr == NULL && err == Some(ENoDevice)
    ensures ed != null ==> ed.Valid() && ed.operate == old(ed.operate) && ed.thread == old(ed.thread)
    ensures ed != null ==> err == ManagerErrnoAsWritten(true, old(ed.mgr) != NULL)
    ensures ed != null ==> mgr == ed.mgr && ed.mgr == (if old(ed.mgr) == NULL then created else old(ed.mgr))
  {
    if ed == null {
      return NULL, Some(ENoDevice);
    }
    err := None;
    if ed.mgr == NULL {
      ed.mgr := created;
      err := Some(ENoDevice);
    }
    mgr := ed.mgr;
  }

  /**
   * `emc_bind`: ENOPLUG for an unknown plug, EREBIND when it has a
   * transport already. Otherwise, once the device has a TCP manager, the
   * plug gets a TCP listener and then an IPC server (`tcpMade`, `ipcMade`,
   * NULL when creation failed). It answers 0 only when both exist; a TCP
   * listener made before a failed IPC server stays attached. From the
   * manager step on, the errno left is that step's.
   */
  method Bind(pg: Plug?, ed: Device.Device?, createdMgr: Ptr, tcpMade: Ptr, ipcMade: Ptr)
    returns (r: int, err: Option<Code>)
    requires pg != null ==> pg.Valid()
    requires ed != null ==> ed.Valid()
    modifies pg, ed
    ensures pg == null ==> r == -1 && err == Some(ENoPlug)
    ensures pg != null ==> pg.Valid() && pg.mode == old(pg.mode) && (r == 0 || r == -1)
    ensures pg != null && (old(pg.ipc) != NULL || old(pg.tcp) != NULL) ==>
              r == -1 && err == Some(ERebind) && pg.ipc == old(pg.ipc) && pg.tcp == old(pg.tcp)
    ensures pg != null && old(pg.ipc) == NULL && old(pg.tcp) == NULL ==>
              (r == 0 <==> ed != null && (old(ed.mgr) != NULL || createdMgr != NULL) && tcpMade != NULL && ipcMade != NULL)
    ensures pg != null && old(pg.ipc) == NULL && old(pg.tcp) == NULL ==>
              err == ManagerErrnoAsWritten(ed != null, ed != null && old(ed.mgr) != NULL)
    ensures r == 0 ==> pg.tcp == tcpMade && pg.ipc == ipcMade
    ensures ed != null ==> ed.Valid()
  {
    if pg == null {
      return -1, Some(ENoPlug);
    }
    if pg.ipc != NULL || pg.tcp != NULL {
      return -1, Some(ERebind);
    }
    var mgr;
    mgr, err := EnsureManager(ed, createdMgr);
    if mgr == NULL {
      return -1, err;
    }
    pg.tcp := tcpMade;
    if pg.tcp == NULL {
      return -1, err;
    }
    pg.ipc := ipcMade;
    if pg.ipc == NULL {
      return -1, err;
    }
    r := 0;
  }

  /**
   * `emc_connect`: ENOPLUG and EREBIND as `Bind`. Otherwise the client mode
   * is stored and, once the device has a TCP manager, exactly one transport
   * is opened: IPC when no address is given (`ip` is None) or the address is
   * this machine (`local`), TCP otherwise. `made` is the transport created,
   * NULL when creation failed. From the manager step on, the errno left is
   * that step's.
   */
  method Connect(pg: Plug?, ed: Device.Device?, mode: int, ip: Option<int>, local: bool, createdMgr: Ptr, made: Ptr)
    returns (r: int, err: Option<Code>)
    requires 0 <= mode < 0x1_0000
    requires pg != null ==> pg.Valid()
    requires ed != null ==> ed.Valid()
    modifies pg, ed
    ensures pg == null ==> r == -1 && err == Some(ENoPlug)
    ensures pg != null ==> pg.Valid() && (r == 0 || r == -1)
    ensures pg != null && (old(pg.ipc) != NULL || old(pg.tcp) != NULL) ==>
              r == -1 && err == Some(ERebind) && pg.ipc == old(pg.ipc) && pg.tcp == old(pg.tcp) && pg.mode == old(pg.mode)
    ensures pg != null && old(pg.ipc) == NULL && old(pg.tcp) == NULL ==>
              pg.mode == ClientMode(mode)
              && (r == 0 <==> ed != null && (old(ed.mgr) != NULL || createdMgr != NULL) && made != NULL)
              && err == ManagerErrnoAsWritten(ed != null, ed != null && old(ed.mgr) != NULL)
    ensures r == 0 && (ip.None? || local) ==> pg.ipc == made && pg.tcp == NULL
    ensures r == 0 && !(ip.None? || local) ==> pg.tcp == made && pg.ipc == NULL
    ensures r == 0 ==> (pg.ipc == NULL) != (pg.tcp == NULL)
    ensures ed != null ==> ed.Valid()
  {
    if pg == null {
      return -1, Some(ENoPlug);
    }
    if pg.ipc != NULL || pg.tcp != NULL {
      return -1, Some(ERebind);
    }
    pg.mode := ClientMode(mode);
    var mgr;
    mgr, err := EnsureManager(ed, createdMgr);
    if mgr == NULL {
      return -1, err;
    }
    if ip.None? || local {
      pg.ipc := made;
      if pg.ipc == NULL {
        return -1, err;
      }
    } else {
      pg.tcp := made;
      if pg.tcp == NULL {
        return -1, err;
      }
    }
    r := 0;
  }

  /**
   * The answer of `emc_send` and `emc_control` over the plug's transports:
   * 0 when some transport the plug has answered 0, -1 otherwise (also
   * when it has none).
   */
  function Either(ipc: Ptr, ipcResult: int, tcp: Ptr, tcpResult: int): (r: int)
    ensures r == 0 || r == -1
    ensures r == 0 <==> (ipc != NULL && ipcResult == 0) || (tcp != NULL && tcpResult == 0)
  {
    var viaIpc := if ipc != NULL && ipcResult == 0 then 0 else -1;
    if tcp != NULL && tcpResult == 0 then 0 else viaIpc
  }

  /** With no transport at all, nothing can succeed. */
  lemma NoTransportFails(ipcResult: int, tcpResult: int)
    ensures Either(NULL, ipcResult, NULL, tcpResult) == -1
  {
  }

  /**
   * `emc_send`: ENOPLUG for an unknown plug; otherwise the message goes to
   * each transport the plug has (`ipcResult`, `tcpResult` are what
   * `send_ipc` and `send_tcp` answer), and the plug succeeds when one did.
   */
  function Send(pg: Plug?, ipcResult: int, tcpResult: int): (res: (int, Option<Code>))
    reads pg
    ensures pg == null ==> res == (-1, Some(ENoPlug))
    ensures pg != null ==> res.1 == None && (res.0 == 0 <==> (pg.ipc != NULL && ipcResult == 0) || (pg.tcp != NULL && tcpResult == 0))
    ensures res.0 == 0 || res.0 == -1
  {
    if pg == null then (-1, Some(ENoPlug)) else (Either(pg.ipc, ipcResult, pg.tcp, tcpResult), None)
  }

  /**
   * `emc_control`: ENOPLUG for an unknown plug; -1 unless the device has
   * the CONTROL option; otherwise, for a CLOSE request, 0 when some
   * transport the plug has closed the connection, and -1 for any other
   * request.
   */
  function Control(pg: Plug?, ed: Device.Device?, ctl: int, ipcClosed: int, tcpClosed: int): (res: (int, Option<Code>))
    reads pg, ed
    requires ed != null ==> 0 <= ed.operate < U32_MOD
    ensures pg == null ==> res == (-1, Some(ENoPlug))
    ensures res.0 == 0 || res.0 == -1
    ensures pg != null ==>
              (res.0 == 0 <==> Device.GetControl(ed).0 != 0 && Device.Names(ctl, EMC_CTL_CLOSE)
                               && ((pg.ipc != NULL && ipcClosed == 0) || (pg.tcp != NULL && tcpClosed == 0)))
    ensures pg != null && ed == null ==> res == (-1, Some(ENoDevice))
  {
    if pg == null then (-1, Some(ENoPlug))
    else if Device.GetControl(ed).0 == 0 then (-1, if ed == null then Some(ENoDevice) else None)
    else if Device.Names(ctl, EMC_CTL_CLOSE) then (Either(pg.ipc, ipcClosed, pg.tcp, tcpClosed), None)
    else (-1, None)
  }

  /**
   * `emc_recv`: ENOPLUG for an unknown plug. When nothing is queued the
   * caller first waits (`waitResult`); a failed wait answers -1. Then the
   * oldest message is taken, EQUEUE when there is none. Messages queued by
   * other threads during the wait are not modelled.
   */
  method Recv(pg: Plug?, waitResult: int) returns (r: int, err: Option<Code>, msg: Ptr)
    requires pg != null ==> pg.Valid()
    modifies if pg == null then {} else {pg.mq}
    ensures pg == null ==> r == -1 && err == Some(ENoPlug)
    ensures pg != null ==> pg.Valid() && (r == 0 || r == -1)
    ensures pg != null && old(pg.mq.Pending()) == [] ==>
              r == -1 && pg.mq.Pending() == [] && err == (if waitResult != 0 then None else Some(EQueue))
    ensures pg != null && old(pg.mq.Pending()) != [] ==>
              r == 0 && err == None && msg == old(pg.mq.Pending())[0] && pg.mq.Pending() == old(pg.mq.Pending())[1..]
  {
    msg := NULL;
    if pg == null {
      return -1, Some(ENoPlug), NULL;
    }
    if pg.mq.CheckMultiple() == 0 {
      if waitResult != 0 {
        return -1, None, NULL;
      }
    }
    var q;
    q, msg := pg.mq.PopMultiple();
    if q < 0 {
      return -1, Some(EQueue), NULL;
    }
    r, err := 0, None;
  }

  /**
   * `push_plug_message`: ENOPLUG for an unknown plug, EQUEUE with nothing
   * queued when the ring is full, otherwise the message joins the back.
   */
  method PushMessage(pg: Plug?, msg: Ptr) returns (r: int, err: Option<Code>)
    requires pg != null ==> pg.Valid()
    modifies if pg == null then {} else {pg.mq, pg.mq.node}
    ensures pg == null ==> r == -1 && err == Some(ENoPlug)
    ensures pg != null ==> pg.Valid() && (r == 0 || r == -1)
    ensures pg != null ==> (r == -1 <==> |old(pg.mq.Pending())| >= RingQueue.RQ_SIZE - 1)
    ensures pg != null && r == -1 ==> err == Some(EQueue) && pg.mq.Pending() == old(pg.mq.Pending())
    ensures pg != null && r == 0 ==> err == None && pg.mq.Pending() == old(pg.mq.Pending()) + [msg]
  {
    if pg == null {
      return -1, Some(ENoPlug);
    }
    var q := pg.mq.Push(msg);
    if q < 0 {
      return -1, Some(EQueue);
    }
    r, err := 0, None;
  }

  /** `get_plug_mode`: the plug's mode; `(ushort)-1` and ENOPLUG for an unknown plug. */
  function GetMode(pg: Plug?): (r: (int, Option<Code>))
    reads pg
    requires pg != null ==> 0 <= pg.mode < 0x1_0000
    ensures 0 <= r.0 < 0x1_0000
    ensures pg == null ==> r == (0xFFFF, Some(ENoPlug))
    ensures pg != null ==> r == (pg.mode, None)
  {
    if pg == null then (0xFFFF, Some(ENoPlug)) else (pg.mode, None)
  }

  /**
   * The drain loop of `emc_close`: every message still queued is popped,
   * oldest first, and handed to `emc_msg_free`; `freed` lists them in that
   * order and the queue is left empty.
   */
  method Drain(pg: Plug) returns (freed: seq<Ptr>)
    requires pg.Valid()
    modifies pg.mq
    ensures pg.Valid() && freed == old(pg.mq.Pending()) && pg.mq.Pending() == []
  {
    freed := [];
    while true
      invariant pg.Valid() && old(pg.mq.Pending()) == freed + pg.mq.Pending()
      decreases |pg.mq.Pending()|
    {
      var q, msg := pg.mq.PopMultiple();
      if q < 0 {
        break;
      }
      freed := freed + [msg];
    }
  }

  /** `emc_close`: ENOPLUG for an unknown plug; otherwise the queue is drained and 0 is answered. */
  method Close(pg: Plug?) returns (r: int, err: Option<Code>, freed: seq<Ptr>)
    requires pg != null ==> pg.Valid()
    modifies if pg == null then {} else {pg.mq}
    ensures pg == null ==> r == -1 && err == Some(ENoPlug) && freed == []
    ensures pg != null ==> pg.Valid() && r == 0 && err == None && freed == old(pg.mq.Pending()) && pg.mq.Pending() == []
  {
    if pg == null {
      return -1, Some(ENoPlug), [];
    }
    freed := Drain(pg);
    r, err := 0, None;
  }
}
