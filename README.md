# easymc core in Dafny

easymc is a small C messaging runtime. An application opens a *device*, creates
*plugs* on it, binds or connects each plug in one of four modes (REQ, REP, PUB,
SUB) and exchanges reference-counted *messages*. A plug travels over TCP to
another machine, or over shared memory (IPC) on the same one. Beneath the
sockets, shared memory and threads lies a sequential layer of data structures
and decisions. This project models that layer and proves what it promises:

- the ring channels: the 65536-slot pointer ring `ringqueue` with one or many
  consumers, the 8-slot int ring `ringarray` (the shared-memory free-slot ring)
  and the 128-slot byte ring `ringbuffer` (the shared-memory wire);
- framing: TCP cuts a message into frames of at most TCP_DATA_SIZE payload
  bytes (`tcp_data_sep` and the `lave` loop of `process_send`); IPC cuts it into
  packets (`write_ipc_data`); `unpack` parses a byte stream back into frames,
  keyed on the magic 0x5876; `merger` reassembles fragments under per-fragment
  flags;
- keyed containers and queues: the sorted array map, the chained hash tables
  `hashmap` and `sockhash` with their free-node lists, the queues `pqueue`
  (the connection-id pool), `nqueue` and the de-duplicating `uniquequeue`, the
  per-connection send queues and the block pool `heap`;
- the message header: a LIVE/DEAD state, a reference count modulo 2^32,
  accessors that fail on a dead message, and free-once behaviour;
- the policy logic of `global.c`, `device.c` and `plug.c` and the decisions of
  `tcp.c` and `ipc.c`: seeding and reuse of connection ids, the data serial,
  the option bitmask, the rebind guard and mode coercion, the REQ/REP/PUB/SUB
  routing, the least-loaded worker choice, login slot checks and the heartbeat
  timeouts of shared memory;
- the error-string table of `utility.c`.

One Dafny module models one source file, under the source file's name. Code
that updates state in place becomes a class whose methods carry `modifies`
clauses: the rings, map, hash tables and queues keep their arrays and cursors
as the C code does, with a ghost sequence of the items held, and each method
is proved against that sequence. Decisions and encodings become functions,
and the properties that relate several operations are lemmas. Examples are
FIFO order, exact capacity, the split and reassembly round trips, and lookup
after insert or erase. The C integer types are written out: two's-complement
casts, `ushort` fields, and the reference count, the device and data serials
and the elapsed times, which wrap at 32 bits. The ring cursors are the
exception. The ring classes keep them as unbounded integers, which is what the
source's `int` cursors do only until they pass INT_MAX. Module `RingWrap`
reads the cursor tests on 32-bit cursors: the differences and the equality
test stay exact, and two ordered comparisons do not (see Findings).

The compare-and-swap loops of the rings and the message header are single
sequential steps. Time, allocation outcomes, system-call results and the
answers of code outside this layer are parameters. The global registries are
replaced by the objects they would return.

The size of the frame header `struct data_unit`, which no source file
defines, is the constant `Common.UNIT_SIZE` = 20. The TCP frame size of
`tcp.c` (`TCP_DATA_SIZE` = 8172) then satisfies MAX_DATA_SIZE = TCP_DATA_SIZE
+ UNIT_SIZE, and the split and reassembly proofs rely on that equation. The
IPC packet payload is MAX_DATA_SIZE - UNIT_SIZE. `config.h` defines
TCP_DATA_SIZE as 8179, but `tcp.c` redefines it, and the model follows
`tcp.c`.

## Model

| member | source | states |
|---|---|---|
| Utility.Custom | src/emc.h:78-139 | a name's custom value is EMC_CUSTOM_ERRNO minus its position 1..12, so it is negative and below EMC_CUSTOM_ERRNO |
| Utility.CustomDistinct | src/emc.h:78-139 | two different names never share a custom value |
| Utility.CaseOf | src/util/utility.c:120-183 | the `switch` case a code selects belongs to a name compiled in with exactly that value; no case is selected iff no compiled-in name has that value |
| Utility.ErrnoStr | src/util/utility.c:120-183 | a compiled-in custom code yields its own description; every other code is handed to `strerror` |
| Common.SerialKey | src/common.h:60-69 | the key of (id, serial) is a signed 64-bit value whose low 32 bits are the id's bit pattern |
| Common.SerialKeyInjective | src/common.h:60-69 | different (id, serial) pairs never share a key, so fragments of different messages never meet in one reassembly unit |
| Heap.Pool.constructor | src/util/heap.c:66-86 | `count` idle blocks with distinct addresses, none in use |
| Heap.Pool.Alloc | src/util/heap.c:103-138 | with no idle block or `used >= count` a chunk of `count` new blocks is appended and `count` doubles, or NULL with nothing changed when the allocation fails; then the front idle block is handed out and `used` grows by one |
| Heap.Pool.Free | src/util/heap.c:140-152 | -1 and no change when no block is in use; otherwise the block joins the back of the idle list and `used` drops by one |
| Heap.Pool.Size | src/util/heap.c:154-160 | the number of blocks in use |
| PQueue.Queue.constructor | src/util/pqueue.c:51-60 | an empty queue with room for 1024 pointers |
| PQueue.Queue.Grow | src/util/pqueue.c:71-75 | 1024 more slots exactly when full, the queued pointers unchanged |
| PQueue.Queue.Push | src/util/pqueue.c:69-79 | the pointer joins the back and the push always returns 0 |
| PQueue.Queue.PushHead | src/util/pqueue.c:81-96 | the pointer becomes the front, the rest follow in order, and the push always returns 0 |
| PQueue.Queue.Pop | src/util/pqueue.c:98-111 | -1 iff empty, with no change; otherwise the front pointer is returned and removed |
| PQueue.Queue.Size | src/util/pqueue.c:113-119 | the number of queued pointers |
| NQueue.Queue.constructor | src/util/nqueue.c:48-56 | an empty queue whose EMC_SOCKETS_DEFAULT slots all hold -1 |
| NQueue.Queue.Push | src/util/nqueue.c:62-71 | -1 iff all slots are taken, with no change; otherwise the id joins the back |
| NQueue.Queue.Pop | src/util/nqueue.c:73-86 | -1 iff empty, with no change; otherwise the front id is returned and removed |
| RingArray.RingArraySize | src/util/ringarray.c:38-48 | the packed struct is 48 bytes: 8 nodes and 4 cursors, sized as `ipc.c` lays out the region |
| RingArray.Ring.constructor | src/util/ringarray.c:101-107 | zeroed nodes, every cursor at -1, nothing held |
| RingArray.Ring.Init | src/util/ringarray.c:101-107 | zeroed nodes, every cursor at -1, nothing held |
| RingArray.Ring.IsFull | src/util/ringarray.c:94-99 | full iff 7 values are held |
| RingArray.Ring.Push | src/util/ringarray.c:109-125 | -1 iff 7 values are held, with no change; otherwise the value is written to `node[(cursor + 1) & 7]` alone and joins the back |
| RingArray.Ring.Pop | src/util/ringarray.c:127-150 | -1 iff empty, with no change; otherwise the oldest value is returned and removed |
| RingArray.Seed | src/ipc.c:1008-1010 | pushing slot numbers 0 .. count-1 into an empty ring keeps only the first 7 |
| RingBuffer.Channel.constructor | src/util/ringbuffer.c:96-101 | a zeroed region with every cursor at -1 and nothing unread |
| RingBuffer.Channel.Init | src/util/ringbuffer.c:96-101 | every cursor at -1 and nothing unread; the slot bytes stay |
| RingBuffer.Channel.IsFull | src/util/ringbuffer.c:89-94 | full iff 127 records are unread |
| RingBuffer.Channel.Push | src/util/ringbuffer.c:103-119 | -1 iff the record is longer than MAX_DATA_SIZE or 127 records are unread, with no change; otherwise its bytes go to the start of slot `(cursor + 1) & 0x7F`, no other byte changes, and it joins the back |
| RingBuffer.Channel.Pop | src/util/ringbuffer.c:121-144 | -1 iff nothing is unread; otherwise the whole 8192-byte slot of the oldest record is copied out, beginning with that record, and the record is removed |
| RingQueue.LastConsumerUnchecked | src/util/ringqueue.c:114-133 | in single mode the cursor of the consumer with the last index handed out never affects the full test |
| RingQueue.MirrorsPush | src/util/ringqueue.c:184 | writing item n into slot `n & 0xFFFF` keeps every slot holding the latest item that maps to it |
| RingQueue.Queue.constructor | src/util/ringqueue.c:135-155 | every cursor at -1 and every consumer cursor at -1, so nothing is pending |
| RingQueue.Queue.CheckConsumer | src/util/ringqueue.c:114-133 | the full test: in single mode only consumers below the last index handed out are scanned, in multiple mode the shared committed cursor is compared |
| RingQueue.Queue.GetSingleConsumer | src/util/ringqueue.c:162-169 | consumer indices are handed out as 0, 1, 2, ... |
| RingQueue.Queue.Push | src/util/ringqueue.c:179-197 | -1 iff the full test holds, with no change; otherwise the item goes to slot `(cursor + 1) & 0xFFFF`, no other slot changes, and it joins the pending items; in multiple mode full means 65535 items pending |
| RingQueue.Queue.Store | src/util/ringqueue.c:184-196 | the accepted push: claim the next cursor, fill its slot alone, commit it |
| RingQueue.Queue.PopSingle | src/util/ringqueue.c:199-210 | -1 iff that consumer's cursor equals the commit cursor; otherwise its cursor alone advances and, unless it was overrun, it receives its oldest unseen item |
| RingQueue.Queue.PopMultiple | src/util/ringqueue.c:212-236 | -1 iff the shared consumer has caught up, with no change; otherwise the oldest pending item is returned and removed, in push order |
| RingQueue.Queue.CheckSingle | src/util/ringqueue.c:238-245 | 0 iff the queue is in single mode and that consumer has nothing pending |
| RingQueue.Queue.CheckMultiple | src/util/ringqueue.c:247-254 | 0 iff the queue is in multiple mode and nothing is pending |
| RingWrap.WrapStallsPop | src/util/ringbuffer.c:76-87 | once the committed cursor has passed INT_MAX and the consumer cursor, at least two behind it, has not, the pop test as written refuses on the 32-bit cursors although items are unread |
| RingWrap.PopRefusedExact | src/util/ringbuffer.c:121-132 | with `read_next`'s comparison taken as a difference, a pop is refused on the 32-bit cursors exactly when nothing is unread |
| RingWrap.WrapHidesFull | src/util/ringqueue.c:114-133 | once the claim cursor has passed INT_MAX and the consumer cursor has not, the ring queue's full test as written answers not full, however many items are held |
| RingWrap.FullExact | src/util/ringbuffer.c:89-94 | the full test by the difference alone gives on the 32-bit cursors what it gives on unbounded ones |
| RingWrap.SingleEmptyExact | src/util/ringqueue.c:199-210 | the equality test of the single-consumer pop holds on the 32-bit cursors exactly when the unbounded cursors are equal |
| SendQueue.QueuedUpdate | src/util/sendqueue.c:109-161 | replacing one id's queue changes the cells in use by the difference in its length |
| SendQueue.QueuedBound | src/util/sendqueue.c:88-105 | with every queue within 1024 and one below it, fewer cells are in use than the chunks can hold |
| SendQueue.QueuedNone | src/util/sendqueue.c:58-74 | with every queue empty no cell is in use |
| SendQueue.Queues.constructor | src/util/sendqueue.c:58-74 | every id's queue empty and one chunk of cells idle |
| SendQueue.Queues.TakeCell | src/util/sendqueue.c:94-138 | a push takes one idle cell, refilling the idle list with new cells only when it is empty |
| SendQueue.Queues.Push | src/util/sendqueue.c:84-115 | -1 iff the id is out of range or its queue already holds 1024 items, with no change; otherwise the item joins the back of that id's queue alone |
| SendQueue.Queues.PushHead | src/util/sendqueue.c:117-148 | as Push, but the item goes to the front |
| SendQueue.Queues.Pop | src/util/sendqueue.c:150-170 | -1 iff the id is out of range or its queue is empty; otherwise that queue's front item is returned and removed and nothing else changes |
| SendQueue.Queues.Size | src/util/sendqueue.c:172-179 | the length of that id's queue, 0 for an id out of range |
| UniqueQueue.MarksPush | src/util/uniquequeue.c:74-76 | queueing an unmarked id and marking it keeps the marks equal to the queued ids |
| UniqueQueue.MarksPop | src/util/uniquequeue.c:91-96 | removing the oldest pair and clearing its mark keeps the marks equal to the queued ids |
| UniqueQueue.NotQueuedHasRoom | src/util/uniquequeue.c:66-73 | a queue of distinct ids is never full while some id is missing from it |
| UniqueQueue.Queue.constructor | src/util/uniquequeue.c:51-57 | nothing queued and nothing marked |
| UniqueQueue.Queue.Push | src/util/uniquequeue.c:64-80 | an id already queued gives 0 and changes nothing; otherwise the pair joins the back; afterwards the id is queued, exactly once |
| UniqueQueue.Queue.Pop | src/util/uniquequeue.c:82-100 | -1 iff empty; otherwise the oldest pair is returned and removed and its id is no longer queued, so it may be pushed again |
| SortedMap.Find | src/util/map.c:125-150 | the lookup result: nothing iff no entry has the key, else the value of an entry with it |
| SortedMap.Insert | src/util/map.c:49-77 | insertion adds exactly the one entry |
| SortedMap.Update | src/util/map.c:152-177 | only the entries with the key get the new value; keys and order stay |
| SortedMap.InsertSorted | src/util/map.c:49-77 | inserting an absent key keeps the keys strictly ascending |
| SortedMap.InsertAt | src/util/map.c:56-74 | the entry lands exactly where the binary search stops, after every smaller key and before every greater one |
| SortedMap.RemoveAt | src/util/map.c:179-212 | erasing a present key deletes exactly its index, the later entries moving down in order |
| SortedMap.Remove | src/util/map.c:179-212 | the entries left by erasing a key are no more than before |
| SortedMap.RemoveExactly | src/util/map.c:179-212 | an entry survives erasure exactly when it was there under another key |
| SortedMap.RemoveAbsent | src/util/map.c:179-191 | erasing an absent key changes nothing |
| SortedMap.RemoveFind | src/util/map.c:179-212 | after erasure the key is gone and every other key keeps its value |
| SortedMap.InsertFind | src/util/map.c:110-123 | after adding an absent key it maps to the new value and every other key is unchanged |
| SortedMap.InsertRemove | src/util/map.c:110-212 | erasing a key just added gives back the original entries |
| SortedMap.UpdateFind | src/util/map.c:152-177 | after a set a present key maps to the new value and every other key is unchanged |
| SortedMap.KeepSorted | src/util/map.c:214-228 | dropping entries during the visit keeps the rest ascending |
| SortedMap.KeepFrom | src/util/map.c:214-228 | every entry left after the visit was there before |
| SortedMap.Keep | src/util/map.c:214-228 | the entries left by the visit are no more than before |
| SortedMap.KeepExactly | src/util/map.c:214-228 | an entry survives the visit exactly when it was there and the callback did not erase it |
| SortedMap.VisitStep | src/util/map.c:219-226 | stepping the index back after an erasure makes the entry that moved into the slot the next one visited |
| SortedMap.FindUnique | src/util/map.c:125-150 | in an ascending table the entry at an index is what a lookup of its key returns |
| SortedMap.UpdateAt | src/util/map.c:152-177 | setting a present key replaces the value at its index alone |
| SortedMap.RemoveSortedAt | src/util/map.c:195-209 | removing one index keeps the keys ascending |
| SortedMap.Map.constructor | src/util/map.c:95-103 | room for `size` entries, none live |
| SortedMap.Map.Search | src/util/map.c:79-93 | the index of the key among the live entries, -1 iff absent |
| SortedMap.Map.SortSwap | src/util/map.c:49-77 | -1 iff the key is present, with no change; otherwise the entry is inserted in key order |
| SortedMap.Map.Place | src/util/map.c:71-74 | the entry goes to the search position and the later entries move up one |
| SortedMap.Map.ShiftDown | src/util/map.c:195-209 | the entries after the erased index move down one |
| SortedMap.Map.Add | src/util/map.c:110-123 | -1 iff the key is present, with no change; otherwise the node array doubles when full and the entry is inserted in key order |
| SortedMap.Map.Get | src/util/map.c:125-150 | 0 and the stored value for a present key, -1 and NULL for an absent one |
| SortedMap.Map.Set | src/util/map.c:152-177 | -1 iff absent; a present key's value is replaced and nothing else changes |
| SortedMap.Map.Erase | src/util/map.c:179-212 | -1 iff absent; otherwise exactly that key's entry goes, the rest keeping their order |
| SortedMap.Map.Foreach | src/util/map.c:214-228 | every entry is visited once in key order, and exactly those whose callback erased them are gone |
| SortedMap.Map.Size | src/util/map.c:230-241 | the number of live entries |
| SortedMap.Map.Clear | src/util/map.c:243-247 | no entry is live afterwards |
| SortedMap.Locate | src/util/map.c:49-93 | the binary search finds the key iff it is present, else the place where it belongs |
| ChainTable.Bucket | src/util/hashmap.c:118-201 | the bucket `key & (size - 1)` lies below `size` |
| ChainTable.PowerBucket | src/util/hashmap.c:68-135 | with a power-of-two size the bucket is the key's unsigned value modulo the size |
| ChainTable.PowerBucketsAllUsed | src/util/hashmap.c:69-76 | with a power-of-two size every bucket can be reached |
| ChainTable.NonPowerBucketUnused | src/util/sockhash.c:51-98 | with a size that is not a power of two (6) some bucket (2) is never used |
| ChainTable.BucketCount | src/util/hashmap.c:69-76 | the smallest power of two strictly greater than `max` |
| ChainTable.View | src/util/hashmap.c:118-135 | the pairs stored along a chain, in link order |
| ChainTable.FirstMatch | src/util/hashmap.c:118-135 | the value of the first pair with the key, or nothing iff no pair has it |
| ChainTable.AppendFind | src/util/hashmap.c:118-174 | after appending, an earlier hit still wins; an absent key now finds the appended value |
| ChainTable.AppendRemove | src/util/hashmap.c:137-201 | erasing a key inserted into a chain without it gives the chain back |
| ChainTable.RemoveFirstFind | src/util/hashmap.c:176-201 | erasing one key leaves every other key's search result alone |
| ChainTable.RemoveFirstAt | src/util/hashmap.c:176-201 | erasure removes exactly the first pair with the key |
| ChainTable.RemoveFirst | src/util/hashmap.c:176-201 | erasure removes at most one pair and adds none |
| ChainTable.LinksAppend | src/util/hashmap.c:155-170 | linking a detached node behind a chain's tail keeps every chain well linked |
| ChainTable.LinksRemove | src/util/hashmap.c:183-199 | unlinking a node from its chain keeps every chain well linked |
| ChainTable.ViewRemove | src/util/hashmap.c:183-199 | unlinking position i removes only that pair from that chain |
| ChainTable.InvTake | src/util/hashmap.c:147-154 | taking the oldest free node keeps the table's invariant |
| ChainTable.InvAppend | src/util/hashmap.c:155-170 | linking the node at the tail keeps the invariant |
| ChainTable.InvRemove | src/util/hashmap.c:183-199 | unlinking a node and freeing it keeps the invariant |
| ChainTable.Table.constructor | src/util/hashmap.c:78-104 | all nodes free in order with the initial key, every bucket empty |
| ChainTable.Table.Search | src/util/hashmap.c:118-135 | the value of the first node with the key in its bucket's chain, or the table's missing value |
| ChainTable.Table.Tail | src/util/hashmap.c:155-162 | the walk ends at the last node of the chain |
| ChainTable.Table.Insert | src/util/hashmap.c:137-174 | -1 iff no node is free, with no change; otherwise the pair joins the tail of its bucket's chain, duplicates allowed, and no other chain changes |
| ChainTable.Table.TakeFree | src/util/hashmap.c:147-154 | the oldest free node is detached |
| ChainTable.Table.Append | src/util/hashmap.c:155-170 | that chain alone gains the pair at its tail |
| ChainTable.Table.Erase | src/util/hashmap.c:176-201 | an absent key changes nothing; otherwise the first pair with the key leaves its chain, its node joins the free list, and no other chain changes |
| ChainTable.Table.Locate | src/util/hashmap.c:179-189 | the walk stops at the first node with the key, or at the chain's end, keeping its predecessor |
| ChainTable.Table.Unlink | src/util/hashmap.c:190-199 | the node leaves its chain and joins the back of the free list |
| ChainTable.Table.Foreach | src/util/hashmap.c:203-216 | every stored pair is visited, bucket 0 first, each chain in link order |
| ChainTable.NewHashMap | src/util/hashmap.c:68-105 | buckets and nodes number the smallest power of two above `max`, all nodes free with id 0, and a failed search gives NULL |
| ChainTable.NewSockHash | src/util/sockhash.c:51-75 | nodes number a power of two above `max` but the size field is `max`; all nodes free with fd -1, and a failed search gives -1 |
| Merger.Payload | src/util/merger.c:100-119 | the message area is exactly `total` bytes long |
| Merger.InitUnit | src/util/merger.c:100-119 | storage that is too small is replaced and the received count restarts at 0; storage that fits is zeroed and keeps its count; the new sizes and stamp are set, the message area is all zeros and no fragment is flagged |
| Merger.SetFlag | src/util/merger.c:121-131 | fragment `no`'s flag word becomes nonzero and no other byte changes |
| Merger.AddUnit | src/util/merger.c:121-131 | the fragment is spliced in at `start`; the received count grows by its length only if the fragment was not flagged before; no other flag changes |
| Merger.SpliceWindow | src/util/merger.c:126-127 | copying into the message area changes only the bytes under the fragment |
| Merger.DeliveredAsWritten | src/util/merger.c:133-148 | the callback receives the first `total` bytes of the storage, which begin with the flag words |
| Merger.Delivered | src/util/merger.c:133-148 | the intended delivery is the message area, `total` bytes |
| Merger.Release | src/util/merger.c:141-145 | the storage is gone and the counters are zero |
| Merger.FlagPrefixDelivered | src/util/merger.c:133-148 | a complete one-fragment message [7,7,7,7] is passed on as the flag word [1,0,0,0] |
| Merger.ChunkBounds | src/tcp.c:587-634 | every chunk starts inside the message and only the last one reaches its end |
| Merger.ChunkOffsets | src/tcp.c:587-634 | chunk `k` starts at `k*c` and ends after it, within the message |
| Merger.AddChunks | src/util/merger.c:121-131 | adding chunks keeps the unit well formed and its sizes |
| Merger.SpliceChunk | src/util/merger.c:126-127 | adding the next chunk to a prefix followed by zeros gives the longer prefix followed by zeros |
| Merger.ChunkStep | src/util/merger.c:121-131 | adding chunk `k` to a unit holding chunks below `k` gives a unit holding chunks up to `k` |
| Merger.AddChunksState | src/util/merger.c:121-131 | in-order reassembly holds exactly the chunks added so far, flagged and counted |
| Merger.AddChunksStep | src/util/merger.c:121-131 | adding the next chunk in order extends the account of the chunks held by one |
| Merger.InitHoldsNone | src/util/merger.c:100-119 | a freshly initialised unit holds no chunk: nothing flagged, nothing counted, an all-zero message area |
| Merger.IncompleteBeforeLast | src/util/merger.c:135 | before the last chunk the unit is not complete |
| Merger.CompleteAtLast | src/util/merger.c:135 | after the last chunk the unit is complete and its message area is the message |
| Merger.ReassembleInOrder | src/util/merger.c:100-148 | a message cut into chunks and added in order completes exactly at the last chunk and the intended delivery is the message |
| Merger.DuplicateNotCounted | src/util/merger.c:121-131 | a fragment added twice is counted once |
| Merger.Pool.constructor | src/util/merger.c:62-78 | `count` units, 1024 when `count` is 0, all empty and idle in index order |
| Merger.Pool.Alloc | src/util/merger.c:85-98 | the oldest idle unit leaves the idle queue; NULL when none is idle |
| Merger.Pool.Init | src/util/merger.c:100-119 | unit `b` becomes its initialised value and no other unit changes |
| Merger.Pool.Add | src/util/merger.c:121-131 | unit `b` gains the fragment, no other unit changes, and the fragment length is returned |
| Merger.Pool.GetAsWritten | src/util/merger.c:133-148 | 0 iff complete, then the flag-prefixed bytes are passed on and the storage released; otherwise -1 and no change |
| Merger.Pool.Get | src/util/merger.c:133-148 | 0 iff complete, then the message area is passed on and the storage released; otherwise -1 and no change |
| Merger.Pool.Time | src/util/merger.c:150-152 | the stamp of unit `b` |
| Merger.Pool.Free | src/util/merger.c:154-167 | unit `b` is released and appended to the idle queue |
| Unpack.AddBytes | src/util/unpack.c:92-101 | a missing buffer is allocated zeroed; as many offered bytes as fit are appended and the rest dropped; the value returned is computed after the copy, so it is the count offered only while twice that many fit, else the room left |
| Unpack.Scan | src/util/unpack.c:106-109 | the scan stops at the first offset holding the magic, or at the end of the stored data when there is none |
| Unpack.FrameLength | src/util/unpack.c:111-114 | the length field with the compression bit cleared, never above 0x8000 |
| Unpack.NextFrame | src/util/unpack.c:103-133 | one parse step never grows the stored data; a nonzero result is a complete frame, consumed with its four header bytes |
| Unpack.FrameAt | src/util/unpack.c:111-133 | the step after the scan: an over-long length drops the magic, a short frame is kept, a complete frame is consumed |
| Unpack.GetAll | src/util/unpack.c:135-150 | the loop of parse steps never leaves more stored data than it started with |
| Unpack.Resync | src/util/unpack.c:115-119 | an over-long length yields no frame, and only a single stored byte is a fault |
| Unpack.Hold | src/util/unpack.c:120-125 | an incomplete frame is kept whole at the buffer start and nothing is returned |
| Unpack.Frame | src/util/unpack.c:111-128 | an uncompressed frame is its body plus four header bytes |
| Unpack.NextFrameWhole | src/util/unpack.c:103-133 | a complete frame at the start is returned whole with its length and the rest moves to the front |
| Unpack.Wire | src/util/unpack.c:103-133 | frames laid end to end, first frame first |
| Unpack.Delivered | src/util/unpack.c:140-144 | the callback receives each body with its length, in order |
| Unpack.GetAllUnfold | src/util/unpack.c:140-144 | a nonzero step is followed by the parse of what it left |
| Unpack.GetAllFrames | src/util/unpack.c:103-150 | stored whole frames with nonempty bodies are handed out exactly, in order, and nothing stays stored |
| Unpack.AddThenGet | src/util/unpack.c:92-150 | appending whole frames to an empty unit and parsing delivers every body in order and leaves the unit empty |
| Unpack.ZeroFrameStops | src/util/unpack.c:127-150 | a frame whose length field is 0 is consumed and ends the parse, the bytes after it staying stored |
| Unpack.NoMagicDiscards | src/util/unpack.c:106-110 | with no magic the stored data is discarded and 0 is returned |
| Unpack.Stream.constructor | src/util/unpack.c:55-71 | a unit starts with no buffer and nothing stored |
| Unpack.Stream.Add | src/util/unpack.c:92-101 | the buffer and count become those `AddBytes` computes, allocating the buffer only if it was missing |
| Unpack.Stream.MoveDown | src/util/unpack.c:116-131 | the `n` bytes from `src` move to the start and the rest is untouched |
| Unpack.Stream.Seek | src/util/unpack.c:106-109 | the offset of the first magic, or the stored length |
| Unpack.Stream.GetPeer | src/util/unpack.c:103-133 | the returned length, body and new buffer are those of one parse step |
| Unpack.Stream.NextPeer | src/util/unpack.c:140-144 | a zero step ends the parse; a nonzero step emits its frame first, shrinks the stored data and leaves the rest of the parse to what remains |
| Unpack.Stream.Skip | src/util/unpack.c:115-119 | the buffer and count become those of the over-long step |
| Unpack.Stream.Keep | src/util/unpack.c:120-125 | the buffer and count become those of the incomplete-frame step |
| Unpack.Stream.Take | src/util/unpack.c:111-133 | the rest of one step after the scan, as `FrameAt` states it |
| Unpack.Stream.Consume | src/util/unpack.c:126-131 | a complete frame's body is copied out and the bytes after it move to the start |
| Unpack.Stream.Get | src/util/unpack.c:135-150 | the frames passed on are the parse of the stored data, in order, and the buffer is released when nothing is left stored |
| Unpack.Stream.Parse | src/util/unpack.c:140-144 | the loop leaves exactly the parse of what was stored: the frames in order, the buffer, the count and the fault |
| Unpack.Stream.Release | src/util/unpack.c:155-158 | the buffer is released and the count kept |
| Unpack.Pool.constructor | src/util/unpack.c:55-71 | `count` units, 1024 when 0, all empty and idle in order |
| Unpack.Pool.Alloc | src/util/unpack.c:78-90 | the oldest idle unit leaves the idle queue; NULL when none is idle |
| Unpack.Pool.Free | src/util/unpack.c:152-162 | the unit's buffer is released and it joins the back of the idle queue |
| Msg.Message.constructor | src/msg.c:68-80 | a fresh LIVE header with id -1, mode 0, no reference, no addition, and the payload copied in |
| Msg.Alloc | src/msg.c:68-80 | NULL when the allocation fails; otherwise a LIVE message with id -1, mode 0, no reference, the next data serial, and the given bytes or zeros as payload |
| Msg.Build | src/msg.c:82-89 | mode, id, length and addition are copied only when both messages are LIVE; nothing else changes |
| Msg.GetId | src/msg.c:91-96 | the id of a LIVE message, -1 for NULL or a dead one |
| Msg.GetMode | src/msg.c:98-103 | the mode of a LIVE message, 0xFFFF for NULL or a dead one |
| Msg.Length | src/msg.c:105-110 | the unsigned length read as an `int`, 0 for NULL or a dead message |
| Msg.Buffer | src/msg.c:147-150 | the payload of a LIVE message, NULL otherwise |
| Msg.GetAddition | src/msg.c:130-135 | the addition of a LIVE message, NULL otherwise |
| Msg.ZeroRef | src/msg.c:152-157 | 1 iff no reference is held, 0 iff one is, -1 for NULL or a dead message |
| Msg.Serial | src/msg.c:183-188 | the serial of a LIVE message, -1 for a dead one |
| Msg.SetMode | src/msg.c:112-116 | only a LIVE message's mode changes |
| Msg.SetId | src/msg.c:118-122 | only a LIVE message's id changes |
| Msg.SetAddition | src/msg.c:124-128 | only a LIVE message's addition changes |
| Msg.Free | src/msg.c:137-145 | 0 iff the message was LIVE; afterwards it is DEAD, every accessor fails and a second free returns -1 |
| Msg.RefAdd | src/msg.c:159-169 | a LIVE message gains one reference modulo 2^32 and 0 is returned; otherwise -1 and no change |
| Msg.RefDec | src/msg.c:171-181 | a LIVE message loses one reference, wrapping from 0 to 2^32-1, and 0 is returned; otherwise -1 and no change |
| Global.Ascending | src/global.c:96-117 | the ids 0 .. n-1 in ascending order |
| Global.Runtime.constructor | src/global.c:96-117 | an empty device registry, the id pool holding every connection id in ascending order, empty reconnect registry and pools, both serials 0 |
| Global.Runtime.NextDataSerial | src/global.c:179-181 | the serial is pre-incremented modulo 2^32 and the new value returned |
| Global.Runtime.AddDevice | src/global.c:140-148 | the device is filed under the current serial, which is returned and then advanced; -1 with no change when no node is free |
| Global.Runtime.GetDevice | src/global.c:150-154 | NULL for a negative id, otherwise the registry's first match or NULL |
| Global.Runtime.EraseDevice | src/global.c:156-161 | ids outside 0 .. 4095 are ignored; otherwise the first entry with the id leaves its chain |
| Global.Runtime.GetConnectId | src/global.c:183-189 | the front free id leaves the pool; -1 when every id is taken |
| Global.Runtime.IdleConnectId | src/global.c:191-194 | the id joins the back of the pool, unchecked |
| Global.Runtime.AddReconnect | src/global.c:212-223 | 0 iff a record was taken and `id` was not filed yet, in which case the record is filed under `id`; -1 otherwise with the registry unchanged |
| Global.Runtime.SweepReconnect | src/global.c:73-82 | every entry is visited once in id order and exactly those whose reconnect went through are removed |
| Global.Runtime.AllocMonitor | src/global.c:225-227 | a monitor record from its pool, NULL when that fails |
| Global.Runtime.FreeMonitor | src/global.c:229-233 | a non-NULL record goes back to its pool |
| Device.Radix | src/device.c:103-141 | 256^n is positive |
| Device.Half | src/device.c:103-141 | the signed bound of n bytes is not negative |
| Device.LE | src/device.c:109-117 | a little-endian read of n bytes is below 256^n |
| Device.LEBytes | src/device.c:109-117 | the store of a value into n bytes writes exactly n bytes |
| Device.LERoundTrip | src/device.c:109-117 | reading back the bytes of a stored value gives the value |
| Device.Signed | src/device.c:109-117 | a signed read of n bytes lies in the range of that size |
| Device.Encode | src/device.c:109-117 | a signed store into n bytes writes n bytes |
| Device.EncodeRoundTrip | src/device.c:109-117 | a signed value stored and read back in its own size is unchanged |
| Device.OptValue | src/device.c:109-117 | the option value of size 1, 2, 4 or 8 read as a signed integer and assigned to an `int`; other sizes give 0 |
| Device.OptValueEncode | src/device.c:109-117 | a value stored in an option of its own size reads back as itself, cut to 32 bits |
| Device.LowBit | src/device.c:182-189 | the masked low bit is the word's parity |
| Device.LowBits | src/device.c:182-198 | the three low masks each pick one bit |
| Device.WithBit | src/device.c:123-138 | setting or clearing one option bit changes that bit alone |
| Device.Device.constructor | src/device.c:59-82 | a zeroed device with an empty event queue |
| Device.Set | src/device.c:103-141 | ENODEVICE for an unknown device; the THREAD bit sets the thread count to at least 1, refused once a manager exists; otherwise each named bit is set for a positive value and cleared for any other, no other bit changing |
| Device.GetMonitor | src/device.c:182-189 | the MONITOR bit; 0 and ENODEVICE for an unknown device |
| Device.GetControl | src/device.c:191-198 | the CONTROL bit; 0 and ENODEVICE for an unknown device |
| Device.SetThenGetMonitor | src/device.c:103-189 | switching monitoring on or off is what is then reported, and CONTROL is untouched |
| Device.PushEvent | src/device.c:168-179 | ENODEVICE for an unknown device; EQUEUE with nothing queued iff the queue is full; otherwise the record joins the back |
| Device.Monitor | src/device.c:143-166 | ENODEVICE for an unknown device; an empty queue answers -1; otherwise the oldest record is handed out and returned to its pool |
| Plug.Plug.constructor | src/plug.c:53-78 | a zeroed plug on its device, with no mode, no transport and an empty queue |
| Plug.ClientMode | src/plug.c:116-117 | a connecting plug never keeps PUB or REP: PUB becomes SUB, REP becomes REQ, anything else stays |
| Plug.ClientModeIdempotent | src/plug.c:116-117 | coercing a mode twice is coercing it once |
| Plug.EnsureManager | src/plug.c:90-95 | a device without a manager gets the one created; the answer is the device's manager afterwards; the errno left is `ManagerErrnoAsWritten`: ENODEVICE for an unknown device and also whenever a manager is stored |
| Plug.ManagerErrnoAsWritten | src/device.c:209-215 | ENODEVICE for an unknown device, and for a known one exactly when it had no manager yet |
| Plug.ManagerErrno | src/device.c:209-215 | ENODEVICE exactly for an unknown device |
| Plug.ManagerErrnoBlamesKnownDevice | src/device.c:209-215 | the two differ exactly for a known device that had no manager, which the source reports as missing |
| Plug.Bind | src/plug.c:80-105 | ENOPLUG for an unknown plug, EREBIND when a transport exists; otherwise 0 iff a manager exists or was made and both the TCP listener and the IPC server were made, and the errno left is the manager step's |
| Plug.Connect | src/plug.c:107-140 | ENOPLUG and EREBIND as for bind; otherwise the client mode is stored, the errno left is the manager step's, and 0 iff a manager exists and the one transport was made: IPC for no address or this machine, TCP otherwise |
| Plug.Either | src/plug.c:193-211 | 0 iff some transport the plug has answered 0 |
| Plug.NoTransportFails | src/plug.c:142-211 | with no transport nothing succeeds |
| Plug.Send | src/plug.c:193-211 | ENOPLUG for an unknown plug; otherwise 0 iff a transport the plug has accepted the message |
| Plug.Control | src/plug.c:142-163 | ENOPLUG for an unknown plug; 0 iff the device has CONTROL, the request names CLOSE and a transport the plug has closed the connection |
| Plug.Recv | src/plug.c:213-229 | ENOPLUG for an unknown plug; an empty queue answers -1; otherwise the oldest message is taken |
| Plug.PushMessage | src/plug.c:231-242 | ENOPLUG for an unknown plug; EQUEUE with nothing queued iff the ring is full; otherwise the message joins the back |
| Plug.GetMode | src/plug.c:244-251 | the plug's mode; 0xFFFF and ENOPLUG for an unknown plug |
| Plug.Drain | src/plug.c:178-184 | every queued message is freed, oldest first, and the queue is left empty |
| Plug.Close | src/plug.c:165-191 | ENOPLUG for an unknown plug; otherwise the queue is drained and 0 answered |
| Tcp.LeastThread | src/tcp.c:212-222 | the first worker area with the fewest connections when some area has room, area 0 when none has |
| Tcp.DataSep | src/tcp.c:551-563 | the next frame carries the next TCP_DATA_SIZE bytes or fewer from where the unsent part begins, numbered by the full frames before it, with a length field of header plus payload and a byte count of four more |
| Tcp.SepParses | src/tcp.c:551-563 | a frame as cut is exactly what the stream parser expects, and an empty parser receiving it hands back header and payload whole |
| Tcp.DataSepIsChunk | src/tcp.c:551-563 | the frame cut after `k` full frames is chunk `k` of the message, and it is the last when the unsent part fits one frame |
| Tcp.CutFrames | src/tcp.c:587-634 | when every write is whole, the frames cut are the consecutive chunks of the message, numbered from 0, one per chunk |
| Tcp.RecvResult | src/tcp.c:404-424 | -1 iff the peer closed or a read failed for good, 0 iff the failure was transient, the count otherwise |
| Tcp.ClosedPeerCloses | src/tcp.c:404-424 | a read of 0 bytes is always a closed peer |
| Tcp.UnpackDispatch | src/tcp.c:346-400 | an unknown connection is ignored; a fragment is merged under the connection's serial key at its chunk offset; a whole DATA frame is delivered once connected, a whole LOGIN frame yields its mode, anything else is ignored |
| Tcp.DispatchOfFrame | src/tcp.c:346-400 | a frame cut by the sender is delivered as the whole message when it fits one frame, and otherwise merged at exactly its chunk's offset |
| Tcp.SendRecord.constructor | src/tcp.c:514-522 | a LIVE record for the message, its wait flag and its serial |
| Tcp.ReleaseMsg | src/tcp.c:285-297 | only a LIVE record is released; the message is freed only for a no-wait send whose message holds no reference and still carries the record's serial |
| Tcp.ReleaseTwice | src/tcp.c:285-297 | releasing twice is releasing once |
| Tcp.SendRoute | src/tcp.c:1146-1227 | on a server a REQ answers as REP to its peer, SUB is refused and PUB goes to the subscribers; on a client every message leaves in the client's mode, REQ and SUB refused while disconnected |
| Tcp.ModeRead | src/msg.c:98-103 | a dead message reads as `(ushort)-1`, which is none of REQ, REP, PUB and SUB, so no route is taken for it; a live one reads as its mode |
| Tcp.NoSubFromServer | src/tcp.c:1146-1227 | a server never sends a SUB message, and a REQ never leaves a server as REQ: it answers as REP |
| Tcp.SendData | src/tcp.c:514-537 | 0 iff a record exists, the message is LIVE and the send queue has room; then the message gains a reference, the record joins its connection's queue and the connection is marked; otherwise nothing changes |
| Tcp.Subscribers | src/tcp.c:540-548 | the ids the publish callback sends to, at most one per connection |
| Tcp.SubscribersAre | src/tcp.c:540-548 | an id is a subscriber iff some connected SUB connection has it |
| Tcp.PubForeach | src/tcp.c:540-548 | one outcome per subscriber; the send queues are the old ones with each successful subscriber's record appended to its own queue (`Enqueued` of `Sent`), the worker queue has exactly those ids marked (`MarkedAll`), and the message gains exactly one reference per success, none for a dead message; when the ids are distinct, the outcomes are `Answers`: each subscriber's send succeeds iff it has a record, the message is LIVE and its queue had room before the publish |
| Tcp.Marked | src/util/uniquequeue.c:63-79 | after marking, the id is queued for its worker, and exactly the ids queued before or this one are |
| Tcp.SubscriberIndex | src/tcp.c:540-548 | a subscribed connection's place in the subscribers holds its id |
| Tcp.SentStep | src/tcp.c:540-548 | visiting one more connection adds its pair to what was sent exactly when it is subscribed and its send succeeded |
| Tcp.Enqueued | src/tcp.c:514-537 | queueing records keeps the number of send queues |
| Tcp.EnqueuedAt | src/tcp.c:514-537 | each send queue gains exactly the records sent to its id, at its back and in order |
| Tcp.MarkedAllQueued | src/tcp.c:514-537 | after the fan-out an id is queued for its worker exactly when it was already or some record was sent to it |
| Tcp.NotSentBefore | src/tcp.c:540-548 | an id no connection has gets no record |
| Tcp.SentFor | src/tcp.c:540-548 | with distinct ids a connection gets exactly its own record when it is subscribed and its send succeeded, and none otherwise |
| Tcp.SentOnlySubscribers | src/tcp.c:540-548 | an id that is no subscriber's gets no record |
| Tcp.PublishedTo | src/tcp.c:540-548 | after the publish a connection's send queue is the old one plus its own record exactly when it subscribed and its send succeeded, and it is queued for its worker exactly when it was before or its send succeeded |
| Tcp.NotPublishedTo | src/tcp.c:540-548 | a connection that is no subscriber keeps its send queue and its worker mark |
| Tcp.Offer | src/tcp.c:540-548 | one visit extends the fan-out's account: a subscriber's outcome is whether `tcp_send_data` admits its record on the queue as the visit finds it, its record is queued and its id marked on success, and the message gains one reference per success |
| Tcp.Answers | src/tcp.c:540-548 | one answer per subscriber |
| Tcp.AnswersStep | src/tcp.c:540-548 | the answers after one more connection are those before it plus, for a subscriber, whether its record is admitted |
| Tcp.AnswersPrefix | src/tcp.c:540-548 | the answers of a prefix of the walk are a prefix of the answers |
| Tcp.AnswerOf | src/tcp.c:540-548 | each subscriber's answer is whether its own record is admitted on its own queue |
| Tcp.Untouched | src/tcp.c:540-548 | with distinct ids, the queue of the connection visited next is still as it was before the publish |
| Tcp.ProgressStep | src/tcp.c:540-548 | one visit keeps the fan-out's account and its answers |
| Tcp.ProgressDone | src/tcp.c:540-548 | once every connection is visited the queues, the marks and the answers are those of the whole walk |
| Tcp.PublishedWhenAdmitted | src/tcp.c:514-548 | with distinct ids, after the publish a connection's send queue gains its record, and its id is newly marked, exactly when it subscribed, has a record, the message is LIVE and its queue had room before |
| Tcp.FannedOutDone | src/tcp.c:540-548 | once every connection is visited the queues and marks are those of the whole walk |
| Ipc.PackageCount | src/ipc.c:586-664 | the packet count, the quotient rounded up, is the number of chunks |
| Ipc.WriteData | src/ipc.c:586-664 | a message that fits travels whole; a command other than data fails iff the ring refuses it; a longer message is split into consecutive chunks numbered from 0, all with one id, serial and total; nothing is pushed while the link is down |
| Ipc.PacketsArrive | src/ipc.c:537-566 | a packet written whole arrives complete with its command and bytes; each packet of a longer message is a fragment for one merger keyed by id and serial, carrying its chunk at its chunk's offset |
| Ipc.ProcessData | src/ipc.c:537-566 | a packet whose length equals its total is delivered complete with its id, command and bytes; any other is a fragment for the merger keyed by id and serial, with its total and its bytes at offset `no * IPC_CHUNK` |
| Ipc.WriteRoute | src/ipc.c:689-780 | on a server REQ is answered as REP to the named peer, SUB refused, PUB sent to subscribers; on a client REQ and SUB go over the link and REP and PUB find no table; dead messages are skipped |
| Ipc.ServerNeverSendsRequest | src/ipc.c:689-780 | whatever a server sends to a peer leaves as REP |
| Ipc.SendAdmit | src/ipc.c:1285-1296 | refused iff a client sends a LIVE REQ or SUB while its link is down |
| Ipc.PeerOffset | src/ipc.c:212-222 | peer `locate`'s part starts after the heartbeat word, the slot ring and the server's part, and ends within the region, the last peer ending at its end |
| Ipc.PeerPartHoldsRing | src/ipc.c:49-50 | a peer part is a heartbeat word, four cursors and 128 slots of MAX_DATA_SIZE bytes |
| Ipc.PeerPartsDisjoint | src/ipc.c:212-222 | different peers never share a byte of the region |
| Ipc.Elapsed | src/ipc.c:787-823 | the unsigned 32-bit elapsed time |
| Ipc.DropsOnlyLate | src/ipc.c:787-823 | only a connected peer is dropped, and only after more than IPC_TIMEOUT both since its heartbeat and since its last arrival |
| Ipc.LateAcrossWrap | src/ipc.c:787-869 | across the clock's wrap, both the heartbeat test and the silence test hold exactly when more than IPC_TIMEOUT has passed |
| Ipc.Server.constructor | src/ipc.c:964-1032 | no peers, a fresh record pool, and the slot ring holding 0 .. 6 in order because it keeps only seven of the eight slots pushed |
| Ipc.Server.Claim | src/ipc.c:190-195 | a record from the pool and then the front id of the global pool; nothing is taken when the record allocation fails |
| Ipc.Server.GiveBack | src/ipc.c:198-237 | the id goes back to the pool and the record to the peer pool |
| Ipc.Server.Enter | src/ipc.c:222-238 | the peer is filed under its id iff the id is not filed yet; otherwise the id and record go back |
| Ipc.Server.LoginAsWritten | src/ipc.c:186-244 | accepted iff a record exists, the semaphore opens, the slot is valid, the answer is pushed and the id is new; an invalid slot keeps the record and the id taken |
| Ipc.Server.Login | src/ipc.c:186-244 | accepted under the same conditions, and every refusal leaves the pool as it was and returns the claimed id |
| Ipc.Server.Retire | src/ipc.c:277-305 | the entry is erased, its slot is pushed back unless the ring is full, its id released and its record freed |
| Ipc.Server.Logout | src/ipc.c:277-305 | a known peer is retired; an unknown id changes nothing |
| Ipc.Server.Close | src/ipc.c:1253-1283 | -1 iff the id is unknown; otherwise the peer is retired and its id returned to the pool |
| Ipc.Server.Arrive | src/ipc.c:306-330 | a known sender's arrival time is updated and the message takes its id and mode; an unknown sender's message keeps id -1 and mode 0 |
| Ipc.Server.CheckPeers | src/ipc.c:787-823 | the peers left are exactly those that do not drop, and the dropped ids return to the pool in visiting order |
| Ipc.Server.Visit | src/ipc.c:787-823 | one visit extends the sweep's account by the visited peer |
| Ipc.Server.Sweep | src/ipc.c:787-823 | the peer is retired exactly when its heartbeat is late and it has been quiet |
| Ipc.KeptStep | src/ipc.c:787-823 | visiting one more peer removes it from what is kept exactly when it drops |
| Ipc.LaterStep | src/util/map.c:214-228 | in ascending order each visit removes exactly the visited id from those still to visit |
| Ipc.SweptStart | src/util/map.c:214-228 | before the sweep every peer is still to visit and nothing is removed |
| Ipc.SweptAt | src/util/map.c:214-228 | the peer visited next is still filed as it was |
| Ipc.SweptStep | src/ipc.c:787-823 | visiting the next peer retires it exactly when it drops |
| Ipc.SweptDone | src/ipc.c:787-823 | after the sweep exactly the peers that do not drop are left, and a peer is dropped iff it drops |
| Ipc.Link.constructor | src/ipc.c:1176-1228 | a client link with no server id, its local id, down, with a reopen in flight iff the first open succeeded, and its reopen clock started at `now`, when the check thread `ipc_check_cb` that `create_ipc` starts begins (src/ipc.c:884-886) |
| Ipc.Link.Receive | src/ipc.c:257-330 | a login answer brings the link up under the server's id and releases the local id; a logout takes it down; data records the arrival time; nothing else changes |
| Ipc.Link.Check | src/ipc.c:835-869 | a reopen is attempted exactly when the link is judged stale; it takes the link down and forgets the server's id |
| Ipc.Link.Reopens | src/ipc.c:835-869 | a live link with a reopen in flight is never reopened, a down link with none in flight always is, and a live link only after more than IPC_TIMEOUT of silence |
| Ipc.FreshLinkStays | src/ipc.c:835-869 | a live link heard from within the timeout is never reopened |
| Ipc.FreshPeerStays | src/ipc.c:787-823 | a peer whose heartbeat is at most IPC_TIMEOUT old is never dropped |
| Ipc.SubCount | src/ipc.c:667-687 | the number of SUB peers is at most the number of peers |
| Ipc.PubOne | src/ipc.c:667-687 | the record is queued iff it exists and the queue has room, and then a LIVE message gains one reference |
| Ipc.PubForeach | src/ipc.c:667-687 | the outcomes and the records queued are exactly those of `PubRun` from the room the queue had before the publish; the queue gains the queued records at its back, and a LIVE message one reference per record queued |
| Ipc.PubVisit | src/ipc.c:667-687 | one visit extends the publish by the next peer exactly as `PubRun` does, and a LIVE message gains a reference when the peer's record is queued |
| Ipc.PubRun | src/ipc.c:667-687 | one outcome per SUB peer, as many records queued as outcomes that succeeded, each of them an allocated record of `recs` |
| Ipc.PubRunStep | src/ipc.c:667-687 | a SUB peer's record is queued when one was allocated and the queue still has room after the records queued before it; other peers change nothing |
| Ipc.PubRunQueued | src/ipc.c:667-687 | the publish queues the allocated records of the SUB peers in visiting order, cut off at the room the queue had |
| ChainTable.FirstMatchAt | src/util/hashmap.c:118-135 | the search past a prefix of non-matching pairs is the search restarted there |
| ChainTable.RemoveFirstAbsent | src/util/hashmap.c:176-201 | erasing a key no pair holds leaves the chain as it was |
| ChainTable.ViewAppend | src/util/hashmap.c:155-170 | linking a node behind chain `b`'s tail adds its pair to that chain alone |
| ChainTable.Table.Attach | src/util/hashmap.c:152-170 | the detached node takes the pair and becomes the bucket's head when the chain is empty, else its tail's successor |
| ChainTable.Table.Detach | src/util/hashmap.c:183-199 | the found node is cut out of its chain, the head moving on when it was first |
| SortedMap.UpdateAbsent | src/util/map.c:152-177 | setting an absent key leaves the entries as they were |

## Left out

- Concurrency: the compare-and-swap loops, memory barriers and atomic counters become single steps. Worker threads, the check and send loops, the busy waits of blocking sends, `event.c` and `thread.h` are not part of this model.
- Operating-system I/O: sockets, epoll/IOCP, shared-memory mapping, semaphores, `check_local_machine` and `get_cpu_num` are not modelled. Their outcomes are parameters (`semOk`, `openOk`, `reopenOk`, `pushOk`, `nread`, `transient`, the transports made by bind and connect).
- Clocks (`timeGetTime`) are a `now` parameter. The outcome of `malloc_impl` is a `mallocOk` parameter. `strerror` is a function parameter. Which error names the platform defines itself is a set parameter (`native`).
- Callbacks handed to the containers (`map_foreach`, `hashmap_foreach`, the reconnect callback) are a function parameter or a visiting order given by the caller.
- The monitor events raised by the transports are not modelled. Only the record queue of `push_device_event` and `emc_monitor` is, not the record's fields.
- Calls whose signatures do not match across files are not reconciled. Examples are `create_ipc` and `add_tcp` as `plug.c` calls them, `merger_init` and `merger_add` as the transports call them, and the `uniquequeue` calls. Each utility is modelled by its own definition.
- `emc_msg_set_result`/`get_result` are declared but never defined, so they are not modelled. `map_erase_nonlock` is also declared without a definition. Where the peer sweeps of `src/ipc.c` use it, the model takes its evident meaning: the erase of `map_erase` without the lock. `heap_reset` and the demo programs under `test/` are not modelled either.
- Message payloads longer than 2^31 bytes are not modelled. Lengths are taken to fit an `int`.
- `emc_device`, `emc_plug` and `emc_destory` are not modelled beyond the zeroed objects they create. They only allocate and register.
- Ipc.Server.CheckPeers: `map_foreach` visits the peers in key order. The model takes that order as a parameter (`order`, ascending and listing exactly the filed ids) together with the heartbeat word each peer last wrote (`beat`).
- Ipc.PubForeach: the pool of send records (`send_heap`) is not modelled, so the record given back with `heap_free` when the queue is full is not tracked. Allocation outcomes are the parameter `recs`.
- Ipc.WriteRoute: on a client the source dereferences the server table, which is NULL, for REP and PUB. The model marks those routes `NoTable` rather than modelling the crash.
- RingQueue.Queue.GetSingleConsumer: requires fewer than RQ_CONSUMER - 1 indices handed out. The source hands out indices without a bound, and from index 1024 on `pop_ringqueue_single` would read and write past the `cs` array of RQ_CONSUMER cursors. The model does not cover that overflow. The core modelled here creates only multiple-consumer queues (src/device.c:67, src/ipc.c:1221, src/plug.c:62), so no caller reaches the bound.
- Tcp.SendData: the worker queue `uniquequeue` is taken to accept the connection. A full worker queue is not modelled.
- Tcp.CutFrames: models the case where every `send` writes the whole frame. After a partial write the source lowers `lave` by the bytes written less preamble and header. That case, and the failed or zero-byte writes that close the connection, are not modelled.
- ChainTable.NewSockHash: requires 1 <= `max` < 2^30. With `max` = 0 the source masks keys with -1 and can index past its arrays. Larger values overflow the node count.
- ChainTable.NewHashMap: requires `max` < 2^30, so that the power-of-two node count fits an `int`.
- Unpack.Stream.Get: the three bytes just past the allocation, which the parser may read when a magic word straddles its end, are a parameter (`past`). C leaves their contents undefined.
- RingArray.Ring.Pop: the cursors are unbounded integers. On the source's 32-bit `int` cursors, `read_next`'s ordered comparison refuses every pop once the commit cursor has passed INT_MAX while the consumer cursor is two or more behind (RingWrap.WrapStallsPop). The contract holds for the first 2^31 pushes, and always for the corrected difference test (RingWrap.PopRefusedExact).
- RingBuffer.Channel.Pop: the same gap as RingArray.Ring.Pop. The 32-bit `read_next` of `ringbuffer.c` stalls as that of `ringarray.c` does.
- RingQueue.Queue.PopMultiple: the same gap as RingArray.Ring.Pop, for the shared consumer cursor.
- RingQueue.Queue.CheckConsumer: states the full test on unbounded cursors. On 32-bit cursors the `pd >= cs` guard fails once the claim cursor has passed INT_MAX and a consumer cursor has not, so the source answers not full however much is held (RingWrap.WrapHidesFull). The difference test alone stays exact (RingWrap.FullExact).
- RingQueue.Queue.Push: its "-1 iff full" inherits the gap of RingQueue.Queue.CheckConsumer. After the wrap the source accepts pushes that overwrite unread slots.
- RingQueue.Queue.PopSingle: its own equality test is exact on 32-bit cursors (RingWrap.SingleEmptyExact). After the wrap, what it receives can have been overwritten by RingQueue.Queue.Push as described above.
- Plug.Connect: with no address the source calls `inet_addr(NULL)` before `create_ipc`, which is undefined behaviour. The model takes the branch the `!ip` test selects and opens IPC, which is what the code evidently intends.
- Plug.Bind, Plug.Connect: a transport creation that fails may set its own errno inside `add_tcp` or `create_ipc`. That errno is not modelled; the errno stated is the manager step's.
- Tcp.UnpackDispatch: requires a frame of at least the header, and 2 payload bytes for a whole LOGIN frame. On a shorter frame `tcp_unpack_cb` reads past the frame and computes `len - sizeof(struct data_unit)` below zero. That case is not modelled.

## Findings

| source | as written | input that shows it | evidently intended | confidence | as-written member | corrected member |
|---|---|---|---|---|---|---|
| src/util/merger.c:133-148 | `merger_get` passes `unit->data` to the callback, and that storage begins with the per-fragment flag words, so the callback gets the flags followed by the first `total - 4*packets` message bytes | one fragment [7,7,7,7] of a 4-byte message: the callback receives [1,0,0,0] | pass `unit->data + packets*sizeof(int)`, the message area | not executed | Merger.FlagPrefixDelivered | Merger.ReassembleInOrder |
| src/ipc.c:212-221 | a login whose slot `locate` is outside 0..7 returns without giving back the connection id and the record it already claimed | a login with `locate` = 8 while a record and an id are available: the record pool keeps one more block in use and the id leaves the pool for good | release the id and the record, as every other refused login does | not executed | Ipc.Server.LoginAsWritten | Ipc.Server.Login |
| src/device.c:209-215 | `set_device_tcp_mgr` sets `errno = ENODEVICE` inside `if(ed)`, so it reports a missing device exactly when the device exists; bind and connect leave that errno | bind on a known device with no manager yet: the manager is stored and errno reads ENODEVICE | set ENODEVICE in the `!ed` case, as every other accessor of `device.c` does | not executed | Plug.ManagerErrnoBlamesKnownDevice | Plug.ManagerErrno |
| src/util/ringbuffer.c:76-87 | `read_next` compares `next > cursor` on the 32-bit `int` cursors; once the commit cursor passes INT_MAX it is negative, so every pop is refused while the consumer is behind, and the ring then fills and refuses every push; `ringarray.c:81-92` and `ringqueue.c:101-112` are the same | commit cursor 2^31 (stored as INT_MIN) and consumer cursor 2^31 - 3: two items are unread and every pop returns -1 | compare by difference, `cursor - next < 0`, as the first test of the pop already does | not executed | RingWrap.WrapStallsPop | RingWrap.PopRefusedExact |
| src/util/ringqueue.c:114-133 | the full test is guarded by `pd >= cs`, which is false once the claim cursor passes INT_MAX and the consumer cursor has not, so a full queue reads as not full | claim cursor 2^31 (stored as INT_MIN) and consumer cursor 2^31 - 65536: 65536 items are held and the push is accepted, overwriting an unread slot | drop the ordered guard and test the difference alone, as `ringbuffer_check_consumer` does | not executed | RingWrap.WrapHidesFull | RingWrap.FullExact |
