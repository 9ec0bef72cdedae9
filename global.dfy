/**
 * The process-wide state of `global.c`: the device and data serial
 * counters, the device registry (a hash map keyed by device id), the pool
 * of free connection ids, and the reconnect registry (a sorted map from
 * connection id to a reconnect record allocated from a block pool), and
 * the block pool of monitor event records.
 *
 * The record a reconnect entry points to is kept in `records`, keyed by its
 * block address. The model's constructor is the first `global_init`; the
 * later calls find the registry made and do nothing.
 */
module Global {
  import opened CInt
  import opened Config
  import PQueue
  import ChainTable
  import SortedMap
  import Heap

  const GLOBAL_DEVICE_DEFAULT: int := 4096
  /** `sizeof(struct reconnect)`: three packed pointers on a 64-bit target. */
  const RECONNECT_SIZE: int := 24
  /** `sizeof(struct monitor_data)`: four ints, 16 address bytes, an int and a pointer, packed. */
  const MONITOR_DATA_SIZE: int := 44

  /** What a reconnect record holds: the callback and its two arguments. */
  datatype Reconnect = Reconnect(cb: Ptr, client: Ptr, addition: Ptr)

  /** The ids `0 .. n - 1` in ascending order. */
  function Ascending(n: nat): (s: seq<int>)
    ensures |s| == n && forall i :: 0 <= i < n ==> s[i] == i
  {
    seq(n, i => i)
  }

  class Runtime {
    var deviceSerial: int
    var dataSerial: int
    const devices: ChainTable.Table
    const ids: PQueue.Queue
    const rcmq: SortedMap.Map
    const rcheap: Heap.Pool
    const mtheap: Heap.Pool
    var records: map<Ptr, Reconnect>

    ghost predicate Valid()
      reads this, ids, ids.units, devices, devices.nodes, devices.head, rcmq, rcmq.node, rcheap, mtheap
    {
      ids.Valid() && devices.Valid() && rcmq.Valid() && rcheap.Valid() && mtheap.Valid() && rcheap != mtheap
      && ids.units != devices.head && devices.missing == NULL
      && 0 <= deviceSerial < U32_MOD && 0 <= dataSerial < U32_MOD
    }

    /**
     * `global_init` on first use: an empty device registry sized for 4096
     * devices, the id pool holding `0 .. EMC_SOCKETS_DEFAULT - 1` in
     * ascending order, an empty reconnect registry and record pool, and
     * both serials at 0.
     */
    constructor ()
      ensures Valid() && deviceSerial == 0 && dataSerial == 0 && records == map[]
      ensures ids.Contents() == Ascending(EMC_SOCKETS_DEFAULT)
      ensures rcmq.Entries() == [] && rcheap.used == 0 && mtheap.used == 0
      ensures devices.missing == NULL && devices.size == devices.nodes.Length > GLOBAL_DEVICE_DEFAULT
      ensures forall b :: 0 <= b < devices.nodes.Length ==> devices.chains[b] == []
    {
      var q := new PQueue.Queue();
      var index := 0;
      while index < EMC_SOCKETS_DEFAULT
        invariant 0 <= index <= EMC_SOCKETS_DEFAULT
        invariant fresh(q) && fresh(q.units) && q.Valid() && q.Contents() == Ascending(index)
      {
        var _ := q.Push(index);
        assert Ascending(index + 1) == Ascending(index) + [index];
        index := index + 1;
      }
      var t := ChainTable.NewHashMap(GLOBAL_DEVICE_DEFAULT);
      ids := q;
      devices := t;
      rcmq := new SortedMap.Map(EMC_SOCKETS_DEFAULT);
      rcheap := new Heap.Pool(RECONNECT_SIZE, EMC_SOCKETS_DEFAULT);
      mtheap := new Heap.Pool(MONITOR_DATA_SIZE, EMC_SOCKETS_DEFAULT);
      deviceSerial, dataSerial := 0, 0;
      records := map[];
    }

    /** `global_get_data_serial`: the counter is pre-incremented modulo 2^32 and its new value returned. */
    method NextDataSerial() returns (s: int)
      requires Valid()
      modifies this
      ensures Valid() && s == (old(dataSerial) + 1) % U32_MOD && dataSerial == s
      ensures deviceSerial == old(deviceSerial) && records == old(records)
    {
      dataSerial := (dataSerial + 1) % U32_MOD;
      s := dataSerial;
    }

    /**
     * `global_add_device`: the device is registered under the current
     * device serial (read as an `int`), which is returned and then advanced;
     * -1 with nothing changed when the registry has no free node.
     */
    method AddDevice(device: Ptr) returns (id: int)
      requires Valid()
      modifies this, devices, devices.nodes, devices.head
      ensures Valid() && dataSerial == old(dataSerial) && records == old(records)
      ensures old(devices.free) == [] ==>
                id == -1 && deviceSerial == old(deviceSerial) && devices.chains == old(devices.chains)
      ensures old(devices.free) != [] ==>
                id == ToI32(old(deviceSerial)) && deviceSerial == (old(deviceSerial) + 1) % U32_MOD
      ensures forall b :: 0 <= b < devices.nodes.Length ==>
                devices.Chain(b) == if old(devices.free) != [] && b == ChainTable.Bucket(ToI32(old(deviceSerial)), devices.size)
                                    then old(devices.Chain(b)) + [ChainTable.Pair(ToI32(old(deviceSerial)), device)]
                                    else old(devices.Chain(b))
    {
      id := ToI32(deviceSerial);
      var r := devices.Insert(id, device);
      if r < 0 {
        return -1;
      }
      deviceSerial := (deviceSerial + 1) % U32_MOD;
    }

    /** `global_get_device`: NULL for a negative id, otherwise the registry's answer (NULL when absent). */
    method GetDevice(id: int) returns (device: Ptr)
      requires Valid()
      ensures id < 0 ==> device == NULL
      ensures id >= 0 ==> var m := ChainTable.FirstMatch(devices.Chain(ChainTable.Bucket(id, devices.size)), id);
                          device == if m.Some? then m.value else NULL
    {
      if id < 0 {
        return NULL;
      }
      var found;
      found, device := devices.Search(id);
    }

    /** `global_erase_device`: ids outside `[0, 4096)` are ignored; otherwise the first entry with the id is removed. */
    method EraseDevice(id: int)
      requires Valid()
      modifies devices, devices.nodes, devices.head
      ensures Valid()
      ensures !(0 <= id < GLOBAL_DEVICE_DEFAULT) ==> devices.chains == old(devices.chains) && devices.nodes[..] == old(devices.nodes[..])
      ensures forall b :: 0 <= b < devices.nodes.Length ==>
                devices.Chain(b) == if 0 <= id < GLOBAL_DEVICE_DEFAULT && b == ChainTable.Bucket(id, devices.size)
                                    then ChainTable.RemoveFirst(old(devices.Chain(b)), id)
                                    else old(devices.Chain(b))
    {
      if 0 <= id < GLOBAL_DEVICE_DEFAULT {
        devices.Erase(id);
      }
    }

    /** `global_get_connect_id`: the front free id, or -1 when every id is taken. */
    method GetConnectId() returns (id: int)
      requires Valid()
      modifies ids, ids.units
      ensures Valid()
      ensures old(ids.Contents()) == [] ==> id == -1 && ids.Contents() == []
      ensures old(ids.Contents()) != [] ==> id == old(ids.Contents())[0] && ids.Contents() == old(ids.Contents())[1..]
      ensures ids.units == old(ids.units)
    {
      var r, v := ids.Pop();
      if r < 0 {
        return -1;
      }
      id := v;
    }

    /**
     * `global_idle_connect_id`: the id joins the back of the free pool,
     * with no check that it was taken, so released ids come back in release
     * order and an id released twice can be handed out twice.
     */
    method IdleConnectId(id: int)
      requires Valid()
      modifies ids, ids.units
      ensures Valid() && ids.Contents() == old(ids.Contents()) + [id]
      ensures ids.units == old(ids.units) || fresh(ids.units)
    {
      var _ := ids.Push(id);
    }

    /**
     * `global_add_reconnect`: a record is taken from the pool (-1 when that
     * fails) and filed under `id`; when `id` is already filed the record
     * goes back to the pool and -1 is returned.
     */
    method AddReconnect(id: int, cb: Ptr, client: Ptr, addition: Ptr, mallocOk: bool) returns (r: int)
      requires Valid()
      modifies this, rcmq, rcmq.node, rcheap
      ensures Valid() && (r == 0 || r == -1)
      ensures r == 0 ==> !SortedMap.HasKey(old(rcmq.Entries()), id)
      ensures SortedMap.HasKey(old(rcmq.Entries()), id) ==> r == -1 && rcmq.Entries() == old(rcmq.Entries())
      ensures r == -1 ==> rcmq.Entries() == old(rcmq.Entries())
      ensures r == 0 ==> exists rc :: rc != NULL && rcmq.Entries() == SortedMap.Insert(old(rcmq.Entries()), SortedMap.Entry(id, rc))
                                      && rc in records && records[rc] == Reconnect(cb, client, addition)
    {
      var rc := rcheap.Alloc(mallocOk);
      if rc == NULL {
        return -1;
      }
      records := records[rc := Reconnect(cb, client, addition)];
      r := rcmq.Add(id, rc);
      if r < 0 {
        var _ := rcheap.Free(rc);
        return -1;
      }
    }

    /**
     * The reconnect sweep: `map_foreach` over the registry with
     * `reconnect_map_foreach_cb`. `retried(e)` says whether the record of
     * entry `e` has a callback and that callback returned 0 (the reconnect
     * went through); exactly those entries are removed, and every entry is
     * looked at once, in id order.
     */
    method SweepReconnect(retried: SortedMap.Entry -> bool) returns (visited: seq<SortedMap.Entry>)
      requires Valid()
      modifies rcmq, rcmq.node
      ensures Valid() && visited == old(rcmq.Entries())
      ensures rcmq.Entries() == SortedMap.Keep(old(rcmq.Entries()), retried)
    {
      visited := rcmq.Foreach(retried);
    }

    /** `global_alloc_monitor`: a monitor record from its pool (NULL when that fails). */
    method AllocMonitor(mallocOk: bool) returns (md: Ptr)
      requires Valid()
      modifies mtheap
      ensures Valid() && (md != NULL ==> mtheap.used == old(mtheap.used) + 1)
      ensures md == NULL ==> mtheap.used == old(mtheap.used)
    {
      md := mtheap.Alloc(mallocOk);
    }

    /** `global_free_monitor`: a non-NULL record goes back to its pool. */
    method FreeMonitor(md: Ptr)
      requires Valid()
      modifies mtheap
      ensures Valid()
      ensures md == NULL || old(mtheap.used) == 0 ==> mtheap.idle == old(mtheap.idle) && mtheap.used == old(mtheap.used)
      ensures md != NULL && old(mtheap.used) > 0 ==> mtheap.idle == old(mtheap.idle) + [md] && mtheap.used == old(mtheap.used) - 1
    {
      if md != NULL {
        var _ := mtheap.Free(md);
      }
    }
  }
}
