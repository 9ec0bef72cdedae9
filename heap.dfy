/**
 * The fixed-size block pool of `heap.c`. Blocks are named by their
 * address; `idle` is the idle list, front first, and `used` counts the
 * blocks handed out and not given back. When a request finds no idle block
 * (or `used` has reached `count`) a new chunk of `count` blocks is
 * allocated, appended to the idle list, and `count` doubles.
 *
 * Whether the C allocator succeeds is the parameter `mallocOk`; the
 * addresses of a fresh chunk are modelled as `next, next + 1, ...`, which no
 * earlier block has.
 */
module Heap {
  import opened CInt

  /** The size of the chunk table `mem`. */
  const HEAP_DEFAULT_COUNT: int := 1024

  /** The addresses `from, from + 1, ..., from + n - 1`. */
  function Fresh(from: int, n: int): (s: seq<Ptr>)
    requires n >= 0
    ensures |s| == n && forall i :: 0 <= i < n ==> s[i] == from + i
  {
    seq(n, i => from + i)
  }

  class Pool {
    const block: int
    var count: int
    var used: int
    var idle: seq<Ptr>
    /** The lowest address no block has yet. */
    var next: int
    /** How many entries of `mem` hold a chunk. */
    var chunks: int

    ghost predicate Valid()
      reads this
    {
      0 <= used && 0 <= count && next >= 1 && 0 <= chunks <= HEAP_DEFAULT_COUNT
      && forall i :: 0 <= i < |idle| ==> idle[i] != NULL
    }

    /** `heap_new`: one chunk of `count` idle blocks, none in use. */
    constructor (block: int, count: int)
      requires count >= 0
      ensures Valid() && this.block == block && this.count == count && used == 0
      ensures idle == Fresh(1, count) && chunks == 1
    {
      this.block, this.count, used := block, count, 0;
      idle, next, chunks := Fresh(1, count), 1 + count, 1;
    }

    /**
     * `heap_alloc`. When no block is idle or `used >= count`, a chunk of
     * `count` new blocks is appended to the idle list and `count` doubles;
     * if that allocation fails NULL is returned and nothing changes. Then
     * the front idle block is handed out, or NULL when there is still none
     * (only possible with `count` 0). A chunk beyond the 1024th is not
     * recorded in `mem`.
     */
    method Alloc(mallocOk: bool) returns (b: Ptr)
      requires Valid()
      modifies this
      ensures Valid()
      ensures var grow := old(idle) == [] || old(used) >= old(count);
              var pool := if grow then old(idle) + Fresh(old(next), old(count)) else old(idle);
              if grow && !mallocOk then
                b == NULL && idle == old(idle) && used == old(used) && count == old(count)
              else
                count == (if grow then 2 * old(count) else old(count))
                && (if pool == [] then b == NULL && idle == [] && used == old(used)
                    else b == pool[0] && b != NULL && idle == pool[1..] && used == old(used) + 1)
    {
      if idle == [] || used >= count {
        if !mallocOk {
          return NULL;
        }
        if chunks < HEAP_DEFAULT_COUNT {
          chunks := chunks + 1;
        }
        idle := idle + Fresh(next, count);
        next := next + count;
        count := count * 2;
      }
      if idle == [] {
        return NULL;
      }
      b := idle[0];
      idle := idle[1..];
      used := used + 1;
    }

    /**
     * `heap_free`: -1 when no block is in use; otherwise the block joins the
     * back of the idle list. Nothing checks that it came from this pool or
     * is not idle already (a NULL block would be dereferenced, so the model
     * asks for a non-NULL one).
     */
    method Free(buf: Ptr) returns (r: int)
      requires Valid() && buf != NULL
      modifies this
      ensures Valid() && (r == 0 || r == -1)
      ensures r == -1 <==> old(used) == 0
      ensures r == -1 ==> idle == old(idle) && used == old(used)
      ensures r == 0 ==> idle == old(idle) + [buf] && used == old(used) - 1
      ensures count == old(count)
    {
      if used == 0 {
        return -1;
      }
      idle := idle + [buf];
      used := used - 1;
      r := 0;
    }

    /** `heap_size`: the number of blocks in use. */
    function Size(): (n: int)
      reads this
      requires Valid()
      ensures n >= 0 && n == used
    {
      used
    }
  }
}
