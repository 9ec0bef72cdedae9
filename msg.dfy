/**
 * The message object of `msg.c`: a header (liveness flag, serial, mode,
 * connection id, length, reference count, deletion latch, addition) in
 * front of `len` payload bytes. `flag` is EMC_LIVE from allocation until
 * the first successful free, which sets it to EMC_DEAD; every accessor
 * checks it, and after the C `free` it is all that the checks observe, so
 * the model keeps the object and its DEAD flag. A NULL message is `null`.
 */
module Msg {
  import opened CInt
  import opened Config
  import Global

  class Message {
    var flag: int
    var serial: int
    var mode: ushort
    var id: int
    var len: int
    var ref: int
    var del: int
    var addition: Ptr
    const data: array<byte>

    /** A freshly allocated header over `payload`. */
    constructor (payload: seq<byte>, serial: int)
      requires |payload| < U32_MOD
      ensures flag == EMC_LIVE && this.serial == serial && mode == 0 && id == -1
      ensures len == |payload| && ref == 0 && del == 0 && addition == NULL
      ensures fresh(data) && data[..] == payload
    {
      flag, this.serial, mode, id, len, ref, del, addition := EMC_LIVE, serial, 0, -1, |payload|, 0, 0, NULL;
      data := new byte[|payload|](i requires 0 <= i < |payload| => payload[i]);
    }
  }

  /** `msg_check_live` behind a NULL test: the message exists and is LIVE. */
  predicate Usable(m: Message?)
    reads m
  {
    m != null && m.flag == EMC_LIVE
  }

  /**
   * `emc_msg_alloc`: NULL when the allocation fails; otherwise a LIVE
   * message with id -1, mode 0, no reference, no addition, the next data
   * serial, and `size` payload bytes copied from `data` when given (and
   * `size` is not 0), zeros otherwise.
   */
  method Alloc(data: Option<seq<byte>>, size: int, g: Global.Runtime, mallocOk: bool) returns (m: Message?)
    requires 0 <= size < U32_MOD && (data.Some? ==> |data.value| >= size)
    requires g.Valid()
    modifies g
    ensures g.Valid() && g.records == old(g.records) && g.deviceSerial == old(g.deviceSerial)
    ensures !mallocOk ==> m == null && g.dataSerial == old(g.dataSerial)
    ensures mallocOk ==> m != null && fresh(m) && fresh(m.data) && Usable(m)
    ensures mallocOk ==> g.dataSerial == (old(g.dataSerial) + 1) % U32_MOD && m.serial == ToI32(g.dataSerial)
    ensures mallocOk ==> m.id == -1 && m.mode == 0 && m.len == size && m.ref == 0 && m.addition == NULL && m.del == 0
    ensures mallocOk ==> m.data[..] == if data.Some? && size > 0 then data.value[..size] else Zeros(size)
  {
    if !mallocOk {
      return null;
    }
    var s := g.NextDataSerial();
    var payload := if data.Some? && size > 0 then data.value[..size] else Zeros(size);
    m := new Message(payload, ToI32(s));
  }

  /** `emc_msg_build`: mode, id, length and addition copied from `old`, only when both are LIVE. */
  method Build(m: Message?, old_: Message?)
    modifies m
    ensures m != null ==> m.flag == old(m.flag) && m.serial == old(m.serial) && m.ref == old(m.ref) && m.del == old(m.del)
    ensures Usable(m) && Usable(old_) ==>
              m.mode == old(old_.mode) && m.id == old(old_.id) && m.len == old(old_.len) && m.addition == old(old_.addition)
    ensures !(old(Usable(m)) && old(Usable(old_))) ==> m != null ==>
              m.mode == old(m.mode) && m.id == old(m.id) && m.len == old(m.len) && m.addition == old(m.addition)
  {
    if m != null && old_ != null && m.flag == EMC_LIVE && old_.flag == EMC_LIVE {
      m.mode, m.id, m.len, m.addition := old_.mode, old_.id, old_.len, old_.addition;
    }
  }

  /** `emc_msg_getid`: the connection id, or -1 for NULL or a dead message. */
  function GetId(m: Message?): (id: int)
    reads m
    ensures !Usable(m) ==> id == -1
    ensures Usable(m) ==> id == m.id
  {
    if m == null || m.flag != EMC_LIVE then -1 else m.id
  }

  /** `emc_msg_get_mode`: the mode, or `(ushort)-1` (0xFFFF) for NULL or a dead message. */
  function GetMode(m: Message?): (mode: ushort)
    reads m
    ensures !Usable(m) ==> mode == 0xFFFF
    ensures Usable(m) ==> mode == m.mode
  {
    if m == null || m.flag != EMC_LIVE then 0xFFFF else m.mode
  }

  /** `emc_msg_length`: the unsigned length read as an `int`, or 0 for NULL or a dead message. */
  function Length(m: Message?): (n: int)
    reads m
    ensures IsInt32(n)
    ensures !Usable(m) ==> n == 0
    ensures Usable(m) ==> n == ToI32(m.len)
  {
    if m == null || m.flag != EMC_LIVE then 0 else ToI32(m.len)
  }

  /** `emc_msg_buffer`: the payload, or NULL for NULL or a dead message. */
  function Buffer(m: Message?): (b: array?<byte>)
    reads m
    ensures !Usable(m) ==> b == null
    ensures Usable(m) ==> b == m.data
  {
    if m == null || m.flag != EMC_LIVE then null else m.data
  }

  /** `emc_msg_get_addition`: the addition, or NULL for NULL or a dead message. */
  function GetAddition(m: Message?): (p: Ptr)
    reads m
    ensures !Usable(m) ==> p == NULL
    ensures Usable(m) ==> p == m.addition
  {
    if m == null || m.flag != EMC_LIVE then NULL else m.addition
  }

  /** `emc_msg_zero_ref`: 1 when no reference is held, 0 when one is, -1 for NULL or a dead message. */
  function ZeroRef(m: Message?): (z: int)
    reads m
    ensures !Usable(m) ==> z == -1
    ensures Usable(m) ==> (z == 1 <==> m.ref == 0) && (z == 0 <==> m.ref != 0)
  {
    if m == null || m.flag != EMC_LIVE then -1 else if m.ref == 0 then 1 else 0
  }

  /** `emc_msg_serial`: the serial, or -1 for a dead message (a NULL message is not checked). */
  function Serial(m: Message): (s: int)
    reads m
    ensures m.flag != EMC_LIVE ==> s == -1
    ensures m.flag == EMC_LIVE ==> s == m.serial
  {
    if m.flag != EMC_LIVE then -1 else m.serial
  }

  /** `emc_msg_set_mode`: only a LIVE message's mode changes. */
  method SetMode(m: Message?, mode: ushort)
    modifies m
    ensures m != null ==> m.mode == (if old(Usable(m)) then mode else old(m.mode))
    ensures m != null ==> m.flag == old(m.flag) && m.id == old(m.id) && m.len == old(m.len)
                          && m.addition == old(m.addition) && m.ref == old(m.ref) && m.serial == old(m.serial)
  {
    if m != null && m.flag == EMC_LIVE {
      m.mode := mode;
    }
  }

  /** `emc_msg_setid`: only a LIVE message's id changes. */
  method SetId(m: Message?, id: int)
    modifies m
    ensures m != null ==> m.id == (if old(Usable(m)) then id else old(m.id))
    ensures m != null ==> m.flag == old(m.flag) && m.mode == old(m.mode) && m.len == old(m.len)
                          && m.addition == old(m.addition) && m.ref == old(m.ref) && m.serial == old(m.serial)
  {
    if m != null && m.flag == EMC_LIVE {
      m.id := id;
    }
  }

  /** `emc_msg_set_addition`: only a LIVE message's addition changes. */
  method SetAddition(m: Message?, addition: Ptr)
    modifies m
    ensures m != null ==> m.addition == (if old(Usable(m)) then addition else old(m.addition))
    ensures m != null ==> m.flag == old(m.flag) && m.mode == old(m.mode) && m.len == old(m.len)
                          && m.id == old(m.id) && m.ref == old(m.ref) && m.serial == old(m.serial)
  {
    if m != null && m.flag == EMC_LIVE {
      m.addition := addition;
    }
  }

  /**
   * `emc_msg_free`: -1 for NULL or a dead message; otherwise the deletion
   * latch is taken, the message is marked DEAD and released, and 0 is
   * returned. Every accessor fails afterwards and a second free returns -1.
   */
  method Free(m: Message?) returns (r: int)
    modifies m
    ensures r == 0 || r == -1
    ensures r == 0 <==> old(Usable(m))
    ensures !old(Usable(m)) ==> m != null ==> m.flag == old(m.flag)
    ensures !Usable(m) && GetId(m) == -1 && GetMode(m) == 0xFFFF && Length(m) == 0
    ensures Buffer(m) == null && GetAddition(m) == NULL && ZeroRef(m) == -1
    ensures m != null ==> Serial(m) == -1
  {
    if m == null {
      return -1;
    }
    if m.flag != EMC_LIVE {
      return -1;
    }
    m.del := 1;
    m.flag := EMC_DEAD;
    r := 0;
  }

  /** `emc_msg_ref_add`: one more reference (modulo 2^32) and 0 on a LIVE message; -1 otherwise. */
  method RefAdd(m: Message) returns (r: int)
    requires 0 <= m.ref < U32_MOD
    modifies m
    ensures (r == 0 <==> old(m.flag) == EMC_LIVE) && (r == -1 <==> old(m.flag) != EMC_LIVE)
    ensures m.ref == if r == 0 then (old(m.ref) + 1) % U32_MOD else old(m.ref)
    ensures m.flag == old(m.flag) && m.serial == old(m.serial)
  {
    if m.flag == EMC_LIVE {
      m.ref := (m.ref + 1) % U32_MOD;
      return 0;
    }
    return -1;
  }

  /**
   * `emc_msg_ref_dec`: one reference fewer and 0 on a LIVE message, -1
   * otherwise. The count is unsigned with no lower bound: from 0 it wraps
   * to 2^32 - 1.
   */
  method RefDec(m: Message) returns (r: int)
    requires 0 <= m.ref < U32_MOD
    modifies m
    ensures (r == 0 <==> old(m.flag) == EMC_LIVE) && (r == -1 <==> old(m.flag) != EMC_LIVE)
    ensures m.ref == if r == 0 then (old(m.ref) - 1) % U32_MOD else old(m.ref)
    ensures r == 0 && old(m.ref) == 0 ==> m.ref == U32_MOD - 1
    ensures m.flag == old(m.flag) && m.serial == old(m.serial)
  {
    if m.flag == EMC_LIVE {
      m.ref := (m.ref - 1) % U32_MOD;
      return 0;
    }
    return -1;
  }
}
