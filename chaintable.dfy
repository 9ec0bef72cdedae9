/**
 * The chained hash table behind both `hashmap.c` and `sockhash.c`: a fixed
 * array of nodes, an array of bucket heads, and a FIFO list of free nodes.
 * Nodes are named by index and `-1` is the null link. A key's bucket is
 * `key & (size - 1)`. The ghost `chains` lists, for every bucket, the nodes
 * reached from its head in order; `owner` and `pos` give each node's bucket
 * and place (`owner` is -1 for a free node).
 */
module ChainTable {
  import opened CInt

  /** What one node stores: the key (id or fd), the value (address or id), the link. */
  datatype Node = Node(key: int, val: int, next: int)

  /** A key with its value, as seen from outside the table. */
  datatype Pair = Pair(key: int, val: int)

  ghost predicate IsPow2(n: int)
  {
    exists k: nat :: Pow2(k) == n
  }

  /** The bucket of `key` in a table whose `size` field is `size`: `key & (size - 1)`. */
  function Bucket(key: int, size: int): (b: int)
    requires 1 <= size < U32_MOD
    ensures 0 <= b < size
  {
    And32BelowMask(key, size - 1);
    And32(key, size - 1)
  }

  /** For a power-of-two size the bucket is the key's unsigned value modulo the size. */
  lemma PowerBucket(key: int, k: nat)
    requires 1 <= Pow2(k) < U32_MOD
    ensures Bucket(key, Pow2(k)) == ToU32(key) % Pow2(k)
  {
    AndLowMask(ToU32(key), k);
  }

  /** So with a power-of-two size every bucket is the bucket of some key: itself. */
  lemma PowerBucketsAllUsed(b: int, k: nat)
    requires 1 <= Pow2(k) < U32_MOD && 0 <= b < Pow2(k)
    ensures Bucket(b, Pow2(k)) == b
  {
    PowerBucket(b, k);
    assert ToU32(b) == b;
    DivModUnique(b, Pow2(k), 0, b);
  }

  lemma AndFiveSteps(a: nat)
    ensures And(a, 5) == 4 * And(a / 4, 1) + (if a % 2 == 1 then 1 else 0)
  {
    if a != 0 {
      assert And(a, 5) == 2 * And(a / 2, 2) + (if a % 2 == 1 then 1 else 0);
      if a / 2 != 0 {
        assert And(a / 2, 2) == 2 * And(a / 4, 1);
      } else {
        assert a / 4 == 0;
      }
    }
  }

  /**
   * With a size that is not a power of two the mask skips buckets: for
   * size 6 (mask 5, binary 101) no key lands in bucket 2.
   */
  lemma NonPowerBucketUnused(key: int)
    ensures Bucket(key, 6) != 2
  {
    var a := ToU32(key);
    AndFiveSteps(a);
    AndBelowRight(a / 4, 1);
  }

  /**
   * The sizing loop of `hashmap_new` and `sockhash_new`: the smallest power
   * of two strictly greater than `max` (1 when `max` is negative or 0... 0 gives 1).
   */
  method BucketCount(max: int) returns (sz: int)
    requires max < 0x4000_0000
    ensures IsPow2(sz) && sz > max && 1 <= sz < 0x8000_0000
    ensures sz == 1 || sz / 2 <= max
  {
    sz := 1;
    ghost var k: nat := 0;
    while sz <= max
      invariant sz == Pow2(k) && 1 <= sz < 0x8000_0000
      invariant sz == 1 || sz / 2 <= max
      decreases max - sz
    {
      sz := sz * 2;
      k := k + 1;
    }
  }

  /** The pairs stored at the nodes `c`, in order (a node index out of range reads as `Pair(-1, -1)`). */
  function View(c: seq<int>, ns: seq<Node>): (v: seq<Pair>)
    ensures |v| == |c|
    ensures forall i {:trigger v[i]} :: 0 <= i < |c| && 0 <= c[i] < |ns| ==> v[i] == Pair(ns[c[i]].key, ns[c[i]].val)
  {
    seq(|c|, i requires 0 <= i < |c| => if 0 <= c[i] < |ns| then Pair(ns[c[i]].key, ns[c[i]].val) else Pair(-1, -1))
  }

  /** Extending a prefix by one element. */
  lemma TakeOneMore<T>(s: seq<T>, i: int)
    requires 0 <= i < |s|
    ensures s[..i + 1] == s[..i] + [s[i]]
  {
  }

  /** The value of the first pair with `key`, searching from the front. */
  function FirstMatch(s: seq<Pair>, key: int): (r: Option<int>)
    ensures r.None? <==> forall i :: 0 <= i < |s| ==> s[i].key != key
    ensures r.Some? ==> exists i :: 0 <= i < |s| && s[i] == Pair(key, r.value)
                                      && forall j :: 0 <= j < i ==> s[j].key != key
  {
    if s == [] then None
    else if s[0].key == key then (assert s[0] == Pair(key, s[0].val); Some(s[0].val))
    else
      var r := FirstMatch(s[1..], key);
      assert forall i :: 1 <= i < |s| ==> s[i] == s[1..][i - 1];
      if r.Some? then
        (ghost var i :| 0 <= i < |s| - 1 && s[1..][i] == Pair(key, r.value)
                        && forall j :: 0 <= j < i ==> s[1..][j].key != key;
         assert s[i + 1] == Pair(key, r.value) && forall j :: 0 <= j < i + 1 ==> s[j].key != key;
         r)
      else r
  }

  /** `s` without its first pair with `key` (unchanged when there is none). */
  function RemoveFirst(s: seq<Pair>, key: int): (r: seq<Pair>)
    ensures |r| <= |s| <= |r| + 1
    ensures forall i :: 0 <= i < |r| ==> r[i] in s
  {
    if s == [] then []
    else if s[0].key == key then s[1..]
    else [s[0]] + RemoveFirst(s[1..], key)
  }

  /** The search result at a position that earlier pairs do not match: the search restarted there. */
  lemma {:induction false} FirstMatchAt(s: seq<Pair>, key: int, i: int)
    requires 0 <= i < |s| && forall j :: 0 <= j < i ==> s[j].key != key
    ensures FirstMatch(s, key) == FirstMatch(s[i..], key)
    ensures FirstMatch(s[i..], key) == if s[i].key == key then Some(s[i].val) else FirstMatch(s[i + 1..], key)
    decreases i
  {
    if i > 0 {
      assert s[1..][i - 1..] == s[i..];
      FirstMatchAt(s[1..], key, i - 1);
    } else if s[0].key != key {
      assert s[1..] == s[i + 1..];
    }
  }

  /** No pair before index `i` of `s` holds `key`. */
  ghost predicate KeyAbsent(s: seq<Pair>, key: int, i: int)
  {
    0 <= i <= |s| && forall j :: 0 <= j < i ==> s[j].key != key
  }

  /** One more non-matching pair extends the key-free prefix. */
  lemma KeyAbsentStep(s: seq<Pair>, key: int, i: int)
    requires KeyAbsent(s, key, i) && i < |s| && s[i].key != key
    ensures KeyAbsent(s, key, i + 1)
  {
  }

  /** Removing the first pair with `key` found at index `i` deletes index `i`. */
  lemma {:induction false} RemoveFirstAt(s: seq<Pair>, key: int, i: int)
    requires 0 <= i < |s| && s[i].key == key && forall j :: 0 <= j < i ==> s[j].key != key
    ensures RemoveFirst(s, key) == Without(s, i)
    decreases i
  {
    if i > 0 {
      RemoveFirstAt(s[1..], key, i - 1);
      assert s[..i] == [s[0]] + s[1..][..i - 1];
      assert s[i + 1..] == s[1..][i..];
    }
  }

  lemma {:induction false} RemoveFirstAbsent(s: seq<Pair>, key: int)
    requires forall j :: 0 <= j < |s| ==> s[j].key != key
    ensures RemoveFirst(s, key) == s
    decreases |s|
  {
    if s != [] {
      assert forall j :: 0 <= j < |s| - 1 ==> s[1..][j] == s[j + 1];
      RemoveFirstAbsent(s[1..], key);
    }
  }

  /**
   * Appending a pair leaves every earlier search result alone; a key that
   * was absent now finds the appended value. A duplicate insert is hidden
   * behind the first one.
   */
  lemma {:induction false} AppendFind(s: seq<Pair>, p: Pair, key: int)
    ensures FirstMatch(s + [p], key) == if FirstMatch(s, key).Some? then FirstMatch(s, key)
                                         else if p.key == key then Some(p.val) else None
    decreases |s|
  {
    if s != [] {
      assert (s + [p])[1..] == s[1..] + [p];
      AppendFind(s[1..], p, key);
    }
  }

  /** Erasing a key that was inserted into a chain without it gives the chain back. */
  lemma {:induction false} AppendRemove(s: seq<Pair>, p: Pair)
    requires FirstMatch(s, p.key).None?
    ensures RemoveFirst(s + [p], p.key) == s
    decreases |s|
  {
    if s == [] {
      assert ([p])[1..] == [];
    } else {
      assert (s + [p])[1..] == s[1..] + [p];
      assert s[0].key != p.key;
      AppendRemove(s[1..], p);
    }
  }

  /** After the only pair with `key` is removed the key is found no more; other keys are unaffected. */
  lemma {:induction false} RemoveFirstFind(s: seq<Pair>, key: int, other: int)
    requires other != key
    ensures FirstMatch(RemoveFirst(s, key), other) == FirstMatch(s, other)
    decreases |s|
  {
    if s != [] && s[0].key != key {
      RemoveFirstFind(s[1..], key, other);
    }
  }

  /**
   * The chain lists `cs` agree with the nodes `ns`: each listed node is in
   * range, records its bucket in `ow` and its place in `ps`, and links to
   * the next listed node, the last one to -1.
   */
  ghost predicate Links(cs: seq<seq<int>>, ns: seq<Node>, ow: seq<int>, ps: seq<int>)
  {
    (forall b, i :: 0 <= b < |cs| && 0 <= i < |cs[b]| ==>
       0 <= cs[b][i] < |ns| && 0 <= cs[b][i] < |ow| && 0 <= cs[b][i] < |ps|
       && ow[cs[b][i]] == b && ps[cs[b][i]] == i)
    && (forall b, i {:trigger ns[cs[b][i]]} :: 0 <= b < |cs| && 0 <= i < |cs[b]| ==>
          ns[cs[b][i]].next == if i + 1 < |cs[b]| then cs[b][i + 1] else -1)
  }

  /** The nodes after storing `Node(key, v, -1)` at `o` and linking it behind the tail of chain `c`. */
  function Appended(ns: seq<Node>, c: seq<int>, o: int, key: int, v: int): seq<Node>
    requires 0 <= o < |ns| && forall i :: 0 <= i < |c| ==> 0 <= c[i] < |ns|
  {
    var ns1 := ns[o := Node(key, v, -1)];
    if c == [] then ns1 else ns1[c[|c| - 1] := ns1[c[|c| - 1]].(next := o)]
  }

  /** Linking a node that no chain holds behind the tail of chain `b` keeps every chain linked. */
  lemma LinksAppend(cs: seq<seq<int>>, ns: seq<Node>, ow: seq<int>, ps: seq<int>, b: int, o: int, key: int, v: int)
    requires Links(cs, ns, ow, ps) && |ns| == |ow| == |ps| && 0 <= b < |cs|
    requires 0 <= o < |ns| && ow[o] == -1
    ensures forall i :: 0 <= i < |cs[b]| ==> 0 <= cs[b][i] < |ns|
    ensures Links(cs[b := cs[b] + [o]], Appended(ns, cs[b], o, key, v), ow[o := b], ps[o := |cs[b]|])
  {
    var len := |cs[b]|;
    var cs', ns', ow', ps' := cs[b := cs[b] + [o]], Appended(ns, cs[b], o, key, v), ow[o := b], ps[o := len];
    forall b', i | 0 <= b' < |cs'| && 0 <= i < |cs'[b']|
      ensures 0 <= cs'[b'][i] < |ns'| && 0 <= cs'[b'][i] < |ow'| && 0 <= cs'[b'][i] < |ps'|
              && ow'[cs'[b'][i]] == b' && ps'[cs'[b'][i]] == i
              && ns'[cs'[b'][i]].next == if i + 1 < |cs'[b']| then cs'[b'][i + 1] else -1
    {
      if b' == b && i == len {
      } else {
        var m := cs[b'][i];
        assert cs'[b'][i] == m && m != o;
        if b' == b && i == len - 1 {
          assert cs'[b'][i + 1] == o;
        } else {
          assert ow[m] == b' && ps[m] == i;
          if len > 0 {
            assert ow[cs[b][len - 1]] == b && ps[cs[b][len - 1]] == len - 1;
          }
          assert ns'[m] == ns[m];
          assert i + 1 < |cs'[b']| ==> cs'[b'][i + 1] == cs[b'][i + 1];
        }
      }
    }
  }

  /** What each chain holds after linking the node `o` behind chain `b`: that chain gains the pair. */
  lemma ViewAppend(cs: seq<seq<int>>, ns: seq<Node>, ow: seq<int>, ps: seq<int>, b: int, o: int, key: int, v: int, b': int)
    requires Links(cs, ns, ow, ps) && |ns| == |ow| == |ps| && 0 <= b < |cs| && 0 <= o < |ns| && ow[o] == -1
    requires 0 <= b' < |cs|
    ensures forall j :: 0 <= j < |cs[b]| ==> 0 <= cs[b][j] < |ns|
    ensures View(cs[b := cs[b] + [o]][b'], Appended(ns, cs[b], o, key, v))
            == if b' == b then View(cs[b], ns) + [Pair(key, v)] else View(cs[b'], ns)
  {
    var c' := cs[b := cs[b] + [o]][b'];
    var ns' := Appended(ns, cs[b], o, key, v);
    forall x | 0 <= x < |cs[b']|
      ensures 0 <= cs[b'][x] < |ns| && ns'[cs[b'][x]].key == ns[cs[b'][x]].key && ns'[cs[b'][x]].val == ns[cs[b'][x]].val
    {
      assert ow[cs[b'][x]] == b';
    }
    var w := View(c', ns');
    if b' == b {
      forall x | 0 <= x < |w|
        ensures w[x] == (View(cs[b], ns) + [Pair(key, v)])[x]
      {
        if x < |cs[b]| {
          assert c'[x] == cs[b][x];
        } else {
          assert c'[x] == o;
        }
      }
    } else {
      assert c' == cs[b'];
    }
  }

  /** `s` without index `i`. */
  function Without<T>(s: seq<T>, i: int): (r: seq<T>)
    requires 0 <= i < |s|
    ensures |r| == |s| - 1
  {
    s[..i] + s[i + 1..]
  }

  lemma WithoutAt<T>(s: seq<T>, i: int, x: int)
    requires 0 <= i < |s| && 0 <= x < |s| - 1
    ensures Without(s, i)[x] == if x < i then s[x] else s[x + 1]
  {
  }

  /**
   * The nodes after unlinking position `i` of chain `c`: the node is
   * cleared to `Node(-1, val, -1)` and its predecessor, if any, takes over
   * its link.
   */
  function Removed(ns: seq<Node>, c: seq<int>, i: int, val: int): seq<Node>
    requires 0 <= i < |c| && forall j :: 0 <= j < |c| ==> 0 <= c[j] < |ns|
  {
    var ns1 := ns[c[i] := Node(-1, val, -1)];
    if i == 0 then ns1 else ns1[c[i - 1] := ns1[c[i - 1]].(next := ns[c[i]].next)]
  }

  /** Erasure's writes in their own order (clear, relink the predecessor, cut the link) give `Removed`. */
  lemma RemovedOrder(ns: seq<Node>, c: seq<int>, i: int, val: int)
    requires 0 < i < |c| && (forall j :: 0 <= j < |c| ==> 0 <= c[j] < |ns|) && c[i] != c[i - 1]
    ensures ns[c[i] := Node(-1, val, ns[c[i]].next)][c[i - 1] := ns[c[i - 1]].(next := ns[c[i]].next)][c[i] := Node(-1, val, -1)]
            == Removed(ns, c, i, val)
  {
  }

  /** The places after position `i` of bucket `b` leaves it: later nodes of `b` move up one. */
  function Shifted(ps: seq<int>, ow: seq<int>, b: int, i: int): (r: seq<int>)
    requires |ow| == |ps|
    ensures |r| == |ps|
    ensures forall m :: 0 <= m < |ps| ==> r[m] == if ow[m] == b && ps[m] > i then ps[m] - 1 else ps[m]
  {
    seq(|ps|, m requires 0 <= m < |ps| => if ow[m] == b && ps[m] > i then ps[m] - 1 else ps[m])
  }

  /** One link of the chains `cs'` left after unlinking position `i` of chain `b`. */
  lemma LinksRemoveAt(cs: seq<seq<int>>, ns: seq<Node>, ow: seq<int>, ps: seq<int>, b: int, i: int, val: int,
                      cs': seq<seq<int>>, ns': seq<Node>, ow': seq<int>, ps': seq<int>, b': int, j: int)
    requires Links(cs, ns, ow, ps) && |ns| == |ow| == |ps| && 0 <= b < |cs| && 0 <= i < |cs[b]|
    requires cs' == cs[b := Without(cs[b], i)] && ns' == Removed(ns, cs[b], i, val)
    requires ow' == ow[cs[b][i] := -1] && ps' == Shifted(ps, ow', b, i)
    requires 0 <= b' < |cs'| && 0 <= j < |cs'[b']|
    ensures 0 <= cs'[b'][j] < |ns'| && 0 <= cs'[b'][j] < |ow'| && 0 <= cs'[b'][j] < |ps'|
    ensures ow'[cs'[b'][j]] == b' && ps'[cs'[b'][j]] == j
    ensures ns'[cs'[b'][j]].next == if j + 1 < |cs'[b']| then cs'[b'][j + 1] else -1
  {
    var n := cs[b][i];
    var k := if b' == b && j >= i then j + 1 else j;
    var m := cs[b'][k];
    if b' == b {
      WithoutAt(cs[b], i, j);
      if j + 1 < |cs'[b']| {
        WithoutAt(cs[b], i, j + 1);
      }
    }
    assert cs'[b'][j] == m;
    assert ow[m] == b' && ps[m] == k;
    assert ow[n] == b && ps[n] == i;
    assert ns[n].next == if i + 1 < |cs[b]| then cs[b][i + 1] else -1;
    if i > 0 {
      assert ow[cs[b][i - 1]] == b && ps[cs[b][i - 1]] == i - 1;
    }
    if j + 1 < |cs'[b']| {
      assert cs'[b'][j + 1] == cs[b'][if b' == b && j + 1 >= i then j + 2 else j + 1];
    }
  }

  /** What each chain holds after unlinking position `i` of chain `b`: only that pair is gone. */
  lemma ViewRemove(cs: seq<seq<int>>, ns: seq<Node>, ow: seq<int>, ps: seq<int>, b: int, i: int, val: int, b': int)
    requires Links(cs, ns, ow, ps) && |ns| == |ow| == |ps| && 0 <= b < |cs| && 0 <= i < |cs[b]| && 0 <= b' < |cs|
    ensures forall j :: 0 <= j < |cs[b]| ==> 0 <= cs[b][j] < |ns|
    ensures View(cs[b := Without(cs[b], i)][b'], Removed(ns, cs[b], i, val))
            == if b' == b then Without(View(cs[b], ns), i) else View(cs[b'], ns)
  {
    var c' := cs[b := Without(cs[b], i)][b'];
    var ns' := Removed(ns, cs[b], i, val);
    var n := cs[b][i];
    assert ow[n] == b && ps[n] == i;
    if i > 0 {
      assert 0 <= cs[b][i - 1] < |ns|;
    }
    forall x | 0 <= x < |c'|
      ensures 0 <= c'[x] < |ns| && ns'[c'[x]].key == ns[c'[x]].key && ns'[c'[x]].val == ns[c'[x]].val
    {
      var k := if b' == b && x >= i then x + 1 else x;
      if b' == b {
        WithoutAt(cs[b], i, x);
      }
      assert c'[x] == cs[b'][k];
      assert ow[cs[b'][k]] == b' && ps[cs[b'][k]] == k;
    }
    var v := View(c', ns');
    if b' == b {
      forall x | 0 <= x < |v|
        ensures v[x] == Without(View(cs[b], ns), i)[x]
      {
        WithoutAt(cs[b], i, x);
        WithoutAt(View(cs[b], ns), i, x);
      }
    } else {
      assert c' == cs[b'];
    }
  }

  /** Unlinking position `i` of chain `b` keeps every chain linked. */
  lemma LinksRemove(cs: seq<seq<int>>, ns: seq<Node>, ow: seq<int>, ps: seq<int>, b: int, i: int, val: int)
    requires Links(cs, ns, ow, ps) && |ns| == |ow| == |ps| && 0 <= b < |cs| && 0 <= i < |cs[b]|
    ensures forall j :: 0 <= j < |cs[b]| ==> 0 <= cs[b][j] < |ns|
    ensures Links(cs[b := Without(cs[b], i)], Removed(ns, cs[b], i, val), ow[cs[b][i] := -1],
                  Shifted(ps, ow[cs[b][i] := -1], b, i))
  {
    var cs', ns', ow' := cs[b := Without(cs[b], i)], Removed(ns, cs[b], i, val), ow[cs[b][i] := -1];
    var ps' := Shifted(ps, ow', b, i);
    forall b', j | 0 <= b' < |cs'| && 0 <= j < |cs'[b']|
      ensures 0 <= cs'[b'][j] < |ns'| && 0 <= cs'[b'][j] < |ow'| && 0 <= cs'[b'][j] < |ps'|
              && ow'[cs'[b'][j]] == b' && ps'[cs'[b'][j]] == j
    {
      LinksRemoveAt(cs, ns, ow, ps, b, i, val, cs', ns', ow', ps', b', j);
    }
    forall b', j | 0 <= b' < |cs'| && 0 <= j < |cs'[b']|
      ensures ns'[cs'[b'][j]].next == if j + 1 < |cs'[b']| then cs'[b'][j + 1] else -1
    {
      LinksRemoveAt(cs, ns, ow, ps, b, i, val, cs', ns', ow', ps', b', j);
    }
  }

  /** The free list holds distinct nodes that belong to no bucket. */
  ghost predicate FreeOk(fr: seq<int>, ow: seq<int>)
  {
    (forall i :: 0 <= i < |fr| ==> 0 <= fr[i] < |ow| && ow[fr[i]] == -1)
    && (forall i, j :: 0 <= i < j < |fr| ==> fr[i] != fr[j])
  }

  /**
   * The table's invariant over its parts: bucket heads `hs`, chain lists
   * `cs`, nodes `ns`, owners `ow`, places `ps` and free list `fr`.
   */
  ghost predicate Inv(size: int, hs: seq<int>, cs: seq<seq<int>>, ns: seq<Node>, ow: seq<int>, ps: seq<int>, fr: seq<int>)
  {
    1 <= size <= |ns| < U32_MOD && |hs| == |ns| && |cs| == |ns| && |ow| == |ns| && |ps| == |ns|
    && (forall b :: 0 <= b < |cs| ==> hs[b] == if cs[b] == [] then -1 else cs[b][0])
    && Links(cs, ns, ow, ps)
    && FreeOk(fr, ow)
  }

  /** Taking the oldest free node keeps the invariant; that node is in no chain and not free any more. */
  lemma InvTake(size: int, hs: seq<int>, cs: seq<seq<int>>, ns: seq<Node>, ow: seq<int>, ps: seq<int>, fr: seq<int>)
    requires Inv(size, hs, cs, ns, ow, ps, fr) && fr != []
    ensures Inv(size, hs, cs, ns, ow, ps, fr[1..])
    ensures 0 <= fr[0] < |ns| && ow[fr[0]] == -1 && forall i :: 0 <= i < |fr| - 1 ==> fr[1..][i] != fr[0]
  {
    forall i, j | 0 <= i < j < |fr| - 1
      ensures fr[1..][i] != fr[1..][j]
    {
      assert fr[1..][i] == fr[i + 1] && fr[1..][j] == fr[j + 1];
    }
    forall i | 0 <= i < |fr| - 1
      ensures fr[1..][i] != fr[0]
    {
      assert fr[1..][i] == fr[i + 1];
    }
  }

  /** Filling the detached node `o` and linking it at the tail of chain `b` keeps the invariant. */
  lemma InvAppend(size: int, hs: seq<int>, cs: seq<seq<int>>, ns: seq<Node>, ow: seq<int>, ps: seq<int>, fr: seq<int>,
                  b: int, o: int, key: int, v: int)
    requires Inv(size, hs, cs, ns, ow, ps, fr) && 0 <= b < |cs| && 0 <= o < |ns| && ow[o] == -1
    requires forall i :: 0 <= i < |fr| ==> fr[i] != o
    ensures forall i :: 0 <= i < |cs[b]| ==> 0 <= cs[b][i] < |ns|
    ensures Inv(size, if cs[b] == [] then hs[b := o] else hs, cs[b := cs[b] + [o]],
                Appended(ns, cs[b], o, key, v), ow[o := b], ps[o := |cs[b]|], fr)
  {
    LinksAppend(cs, ns, ow, ps, b, o, key, v);
    var ow' := ow[o := b];
    forall i | 0 <= i < |fr|
      ensures 0 <= fr[i] < |ow'| && ow'[fr[i]] == -1
    {
    }
  }

  /** Unlinking position `i` of chain `b` and appending its node to the free list keeps the invariant. */
  lemma InvRemove(size: int, hs: seq<int>, cs: seq<seq<int>>, ns: seq<Node>, ow: seq<int>, ps: seq<int>, fr: seq<int>,
                  b: int, i: int, val: int)
    requires Inv(size, hs, cs, ns, ow, ps, fr) && 0 <= b < |cs| && 0 <= i < |cs[b]|
    ensures forall j :: 0 <= j < |cs[b]| ==> 0 <= cs[b][j] < |ns|
    ensures Inv(size, if i == 0 then hs[b := if 1 < |cs[b]| then cs[b][1] else -1] else hs,
                cs[b := Without(cs[b], i)], Removed(ns, cs[b], i, val), ow[cs[b][i] := -1],
                Shifted(ps, ow[cs[b][i] := -1], b, i), fr + [cs[b][i]])
  {
    LinksRemove(cs, ns, ow, ps, b, i, val);
    var n := cs[b][i];
    assert ow[n] == b;
    var hs' := if i == 0 then hs[b := if 1 < |cs[b]| then cs[b][1] else -1] else hs;
    var cs' := cs[b := Without(cs[b], i)];
    forall b' | 0 <= b' < |cs'|
      ensures hs'[b'] == if cs'[b'] == [] then -1 else cs'[b'][0]
    {
      if b' == b && |cs'[b]| > 0 {
        WithoutAt(cs[b], i, 0);
      }
    }
    var ow', fr' := ow[n := -1], fr + [n];
    forall r | 0 <= r < |fr'|
      ensures 0 <= fr'[r] < |ow'| && ow'[fr'[r]] == -1
    {
      if r < |fr| {
        assert fr'[r] == fr[r];
      }
    }
    forall r, q | 0 <= r < q < |fr'|
      ensures fr'[r] != fr'[q]
    {
      assert fr'[r] == fr[r] && ow[fr[r]] == -1;
      if q < |fr| {
        assert fr'[q] == fr[q];
      }
    }
  }

  class Table {
    /** the `size` field: the bucket of a key is `key & (size - 1)` */
    const size: int
    /** the value stored by a fresh node's key and by an erased node's value */
    const initKey: int
    const initVal: int
    /** what a search returns for an absent key and what erasure stores as the value */
    const missing: int
    const nodes: array<Node>
    const head: array<int>
    var free: seq<int>
    ghost var chains: seq<seq<int>>
    ghost var owner: seq<int>
    ghost var pos: seq<int>

    ghost predicate Valid()
      reads this, nodes, head
    {
      head.Length == nodes.Length && |chains| == nodes.Length && |owner| == nodes.Length && |pos| == nodes.Length
      && Inv(size, head[..], chains, nodes[..], owner, pos, free)
    }

    /** The pairs reachable from bucket `b`, in chain order. */
    ghost function Chain(b: int): seq<Pair>
      reads this, nodes
      requires 0 <= b < |chains|
    {
      View(chains[b], nodes[..])
    }

    /** All pairs of buckets `0 .. n - 1`, bucket by bucket, each chain in order. */
    ghost function Flatten(n: int): seq<Pair>
      reads this, nodes
      requires 0 <= n <= |chains|
    {
      if n == 0 then [] else Flatten(n - 1) + Chain(n - 1)
    }

    /** Every node of bucket `b`'s chain is a node of the table. */
    lemma InRange(b: int)
      requires Valid() && 0 <= b < nodes.Length
      ensures forall j :: 0 <= j < |chains[b]| ==> 0 <= chains[b][j] < nodes.Length
    {
    }

    /** One link of a chain: the node after position `i` of bucket `b`'s chain. */
    lemma NextLink(b: int, i: int)
      requires Valid() && 0 <= b < nodes.Length && 0 <= i < |chains[b]|
      ensures 0 <= chains[b][i] < nodes.Length && owner[chains[b][i]] == b && pos[chains[b][i]] == i
      ensures nodes[chains[b][i]].next == if i + 1 < |chains[b]| then chains[b][i + 1] else -1
      ensures |Chain(b)| == |chains[b]| && Chain(b)[i] == Pair(nodes[chains[b][i]].key, nodes[chains[b][i]].val)
    {
      assert nodes[..][chains[b][i]] == nodes[chains[b][i]];
    }

    /** The head of bucket `b` is the first node of its chain, or -1. */
    lemma HeadLink(b: int)
      requires Valid() && 0 <= b < nodes.Length
      ensures head[b] == if chains[b] == [] then -1 else chains[b][0]
    {
      assert head[..][b] == head[b];
    }

    /** `hashmap_new`/`sockhash_new` after sizing: `n` nodes, all free in order, every bucket empty. */
    constructor (n: int, sizeField: int, initKey: int, initVal: int, missing: int)
      requires 1 <= sizeField <= n < U32_MOD
      ensures Valid() && fresh(nodes) && fresh(head)
      ensures size == sizeField && nodes.Length == n && this.initKey == initKey
      ensures this.initVal == initVal && this.missing == missing
      ensures free == seq(n, i => i)
      ensures forall b :: 0 <= b < n ==> chains[b] == [] && head[b] == -1
      ensures forall i :: 0 <= i < n ==> nodes[i] == Node(initKey, initVal, -1)
    {
      size, this.initKey, this.initVal, this.missing := sizeField, initKey, initVal, missing;
      nodes := new Node[n](_ => Node(initKey, initVal, -1));
      head := new int[n](_ => -1);
      free := seq(n, i => i);
      chains := seq(n, _ => []);
      owner := seq(n, _ => -1);
      pos := seq(n, _ => 0);
    }

    /**
     * `hashmap_search`/`sockhash_search`: walk the key's chain from its
     * head; the value of the first node with the key, or `missing`.
     */
    method Search(key: int) returns (found: bool, v: int)
      requires Valid()
      ensures var m := FirstMatch(Chain(Bucket(key, size)), key);
              found == m.Some? && v == if found then m.value else missing
    {
      var b := Bucket(key, size);
      ghost var c := Chain(b);
      HeadLink(b);
      var n := head[b];
      ghost var i := 0;
      while n != -1
        invariant 0 <= i <= |c| && n == if i < |c| then chains[b][i] else -1
        invariant forall j :: 0 <= j < i ==> c[j].key != key
        decreases |c| - i
      {
        FirstMatchAt(c, key, i);
        if nodes[n].key == key {
          return true, nodes[n].val;
        }
        NextLink(b, i);
        n := nodes[n].next;
        i := i + 1;
      }
      return false, missing;
    }

    /** The last node of the non-empty chain of bucket `b`, found by walking the links. */
    method Tail(b: int) returns (t: int)
      requires Valid() && 0 <= b < nodes.Length && chains[b] != []
      ensures t == chains[b][|chains[b]| - 1]
    {
      HeadLink(b);
      var n := head[b];
      ghost var i := 0;
      NextLink(b, 0);
      while nodes[n].next != -1
        invariant 0 <= i < |chains[b]| && n == chains[b][i]
        invariant nodes[n].next == if i + 1 < |chains[b]| then chains[b][i + 1] else -1
        decreases |chains[b]| - i
      {
        n := nodes[n].next;
        i := i + 1;
        NextLink(b, i);
      }
      return n;
    }

    /**
     * `hashmap_insert`/`sockhash_insert`: -1 with no change when no node is
     * free; otherwise the oldest free node takes the pair and is linked at
     * the tail of the key's chain, without any check for the key being
     * there already. No other chain changes.
     */
    method Insert(key: int, v: int) returns (r: int)
      requires Valid()
      modifies this, nodes, head
      ensures Valid()
      ensures r == 0 || r == -1
      ensures r == -1 <==> old(free) == []
      ensures r == -1 ==> free == old(free) && chains == old(chains) && nodes[..] == old(nodes[..])
      ensures r == 0 ==> free == old(free)[1..]
      ensures forall b :: 0 <= b < nodes.Length ==>
                Chain(b) == if r == 0 && b == Bucket(key, size) then old(Chain(b)) + [Pair(key, v)] else old(Chain(b))
    {
      var b := Bucket(key, size);
      if free == [] {
        return -1;
      }
      var o := TakeFree();
      Append(b, o, key, v);
      r := 0;
    }

    /** Detach the oldest free node `o` from the free list. */
    method TakeFree() returns (o: int)
      requires Valid() && free != []
      modifies this
      ensures Valid() && o == old(free)[0] && free == old(free)[1..]
      ensures 0 <= o < nodes.Length && owner[o] == -1 && forall i :: 0 <= i < |free| ==> free[i] != o
      ensures chains == old(chains) && owner == old(owner) && pos == old(pos)
    {
      InvTake(size, head[..], chains, nodes[..], owner, pos, free);
      o := free[0];
      free := free[1..];
    }

    /** Store the pair in the detached node `o` and link it at the tail of bucket `b`'s chain. */
    method Append(b: int, o: int, key: int, v: int)
      requires Valid() && 0 <= b < nodes.Length && 0 <= o < nodes.Length && owner[o] == -1
      requires forall i :: 0 <= i < |free| ==> free[i] != o
      modifies this, nodes, head
      ensures Valid() && free == old(free)
      ensures forall b' :: 0 <= b' < nodes.Length ==>
                Chain(b') == if b' == b then old(Chain(b')) + [Pair(key, v)] else old(Chain(b'))
    {
      ghost var ns, hs, cs, ow, ps := nodes[..], head[..], chains, owner, pos;
      InvAppend(size, hs, cs, ns, ow, ps, free, b, o, key, v);
      Attach(b, o, key, v);
      pos := pos[o := |cs[b]|];
      chains := chains[b := cs[b] + [o]];
      owner := owner[o := b];
      ghost var hs' := if cs[b] == [] then hs[b := o] else hs;
      ghost var ns' := Appended(ns, cs[b], o, key, v);
      assert head[..] == hs' && nodes[..] == ns';
      assert Valid() == Inv(size, hs', chains, ns', owner, pos, free);
      forall b' | 0 <= b' < nodes.Length
        ensures Chain(b') == if b' == b then View(cs[b'], ns) + [Pair(key, v)] else View(cs[b'], ns)
      {
        ViewAppend(cs, ns, ow, ps, b, o, key, v, b');
      }
    }

    /** The link updates of insertion: fill node `o` and link it from the tail of chain `b`, or from the head. */
    method Attach(b: int, o: int, key: int, v: int)
      requires Valid() && 0 <= b < nodes.Length && 0 <= o < nodes.Length && owner[o] == -1
      modifies nodes, head
      ensures forall j :: 0 <= j < |chains[b]| ==> 0 <= chains[b][j] < nodes.Length
      ensures nodes[..] == Appended(old(nodes[..]), chains[b], o, key, v)
      ensures head[..] == if chains[b] == [] then old(head[..])[b := o] else old(head[..])
    {
      ghost var ns := nodes[..];
      LinksAppend(chains, ns, owner, pos, b, o, key, v);
      HeadLink(b);
      var n := head[b];
      var t := -1;
      if n != -1 {
        t := Tail(b);
      }
      nodes[o] := Node(key, v, -1);
      if n == -1 {
        head[b] := o;
      } else {
        nodes[t] := nodes[t].(next := o);
      }
      assert nodes[..] == Appended(ns, chains[b], o, key, v);
    }

    /**
     * `hashmap_erase`/`sockhash_erase`: walk the key's chain keeping the
     * previous node; the first node with the key is unlinked, its key set
     * to -1 and its value to `missing`, and appended to the free list. An
     * absent key changes nothing.
     */
    method Erase(key: int)
      requires Valid()
      modifies this, nodes, head
      ensures Valid()
      ensures var b := Bucket(key, size);
              FirstMatch(old(Chain(b)), key).None? ==> free == old(free) && chains == old(chains) && nodes[..] == old(nodes[..])
      ensures var b := Bucket(key, size);
              FirstMatch(old(Chain(b)), key).Some? ==> |free| == |old(free)| + 1 && free[..|old(free)|] == old(free)
      ensures forall b :: 0 <= b < nodes.Length ==>
                Chain(b) == if b == Bucket(key, size) then RemoveFirst(old(Chain(b)), key) else old(Chain(b))
    {
      var b := Bucket(key, size);
      ghost var c := Chain(b);
      var n, prev, i := Locate(b, key);
      if n == -1 {
        RemoveFirstAbsent(c, key);
        return;
      }
      RemoveFirstAt(c, key, i);
      Unlink(b, i, prev);
    }

    /**
     * The walk of erasure: follow bucket `b`'s chain keeping the previous
     * node, up to the first node holding `key` (`n` at position `i`) or the
     * chain's end (`n == -1`).
     */
    method Locate(b: int, key: int) returns (n: int, prev: int, ghost i: int)
      requires Valid() && 0 <= b < nodes.Length
      ensures 0 <= i <= |chains[b]| && n == if i < |chains[b]| then chains[b][i] else -1
      ensures prev == if i > 0 then chains[b][i - 1] else -1
      ensures forall j :: 0 <= j < i ==> Chain(b)[j].key != key
      ensures i < |chains[b]| ==> Chain(b)[i].key == key
    {
      ghost var c := chains[b];
      HeadLink(b);
      n := head[b];
      prev := -1;
      i := 0;
      while n != -1 && nodes[n].key != key
        invariant 0 <= i <= |c| && n == if i < |c| then c[i] else -1
        invariant n == -1 || 0 <= n < nodes.Length
        invariant prev == if i > 0 then c[i - 1] else -1
        invariant KeyAbsent(Chain(b), key, i)
        decreases |c| - i
      {
        NextLink(b, i);
        KeyAbsentStep(Chain(b), key, i);
        prev := n;
        n := nodes[n].next;
        i := i + 1;
      }
    }

    /** The unlinking step of erasure: node `chains[b][i]`, whose predecessor is `prev`, goes to the free list. */
    method Unlink(b: int, ghost i: int, prev: int)
      requires Valid() && 0 <= b < nodes.Length && 0 <= i < |chains[b]|
      requires prev == if i > 0 then chains[b][i - 1] else -1
      modifies this, nodes, head
      ensures Valid()
      ensures free == old(free) + [old(chains[b][i])]
      ensures forall b' :: 0 <= b' < nodes.Length ==>
                Chain(b') == if b' == b then old(Without(Chain(b), i)) else old(Chain(b'))
    {
      ghost var ns, hs, cs, ow, ps := nodes[..], head[..], chains, owner, pos;
      InvRemove(size, hs, cs, ns, ow, ps, free, b, i, missing);
      var n := Detach(b, i, prev);
      free := free + [n];
      chains := chains[b := Without(cs[b], i)];
      owner := owner[n := -1];
      pos := Shifted(ps, owner, b, i);
      ghost var hs' := if i == 0 then hs[b := if 1 < |cs[b]| then cs[b][1] else -1] else hs;
      ghost var ns' := Removed(ns, cs[b], i, missing);
      assert head[..] == hs' && nodes[..] == ns' && owner == ow[cs[b][i] := -1];
      assert Valid() == Inv(size, hs', chains, ns', owner, pos, free);
      forall b' | 0 <= b' < nodes.Length
        ensures Chain(b') == if b' == b then Without(View(cs[b], ns), i) else View(cs[b'], ns)
      {
        ViewRemove(cs, ns, ow, ps, b, i, missing, b');
      }
    }

    /**
     * The link updates of erasure: clear node `n = chains[b][i]`, make its
     * predecessor (or the bucket head) skip it, and cut its link.
     */
    method Detach(b: int, ghost i: int, prev: int) returns (n: int)
      requires Valid() && 0 <= b < nodes.Length && 0 <= i < |chains[b]|
      requires prev == if i > 0 then chains[b][i - 1] else -1
      modifies nodes, head
      ensures n == chains[b][i]
      ensures forall j :: 0 <= j < |chains[b]| ==> 0 <= chains[b][j] < nodes.Length
      ensures nodes[..] == Removed(old(nodes[..]), chains[b], i, missing)
      ensures head[..] == if i == 0 then old(head[..])[b := if 1 < |chains[b]| then chains[b][1] else -1]
                          else old(head[..])
    {
      ghost var ns := nodes[..];
      NextLink(b, i);
      if i > 0 {
        NextLink(b, i - 1);
        NextLink(b, 0);
      }
      InRange(b);
      n := head[b];
      if prev != -1 {
        n := nodes[prev].next;
      }
      var after := nodes[n].next;
      nodes[n] := Node(-1, missing, after);
      assert nodes[..] == ns[n := Node(-1, missing, after)];
      if n == head[b] {
        head[b] := after;
        nodes[n] := nodes[n].(next := -1);
        assert nodes[..] == ns[n := Node(-1, missing, -1)];
      } else {
        nodes[prev] := nodes[prev].(next := after);
        assert nodes[..] == ns[n := Node(-1, missing, after)][prev := ns[prev].(next := after)];
        nodes[n] := nodes[n].(next := -1);
        assert nodes[..] == ns[n := Node(-1, missing, after)][prev := ns[prev].(next := after)][n := Node(-1, missing, -1)];
        RemovedOrder(ns, chains[b], i, missing);
      }
    }

    /**
     * `hashmap_foreach`: every stored pair, bucket 0 first, each chain in
     * link order; the callback's results play no part.
     */
    method Foreach() returns (visited: seq<Pair>)
      requires Valid() && size == nodes.Length
      ensures visited == Flatten(size)
    {
      visited := [];
      var b := 0;
      while b < size
        invariant 0 <= b <= size && visited == Flatten(b)
      {
        HeadLink(b);
        var n := head[b];
        ghost var i := 0;
        ghost var c, cb, before := chains[b], Chain(b), visited;
        while n != -1
          invariant 0 <= i <= |cb| && n == if i < |cb| then c[i] else -1
          invariant visited == before + cb[..i]
          decreases |cb| - i
        {
          NextLink(b, i);
          TakeOneMore(cb, i);
          visited := visited + [Pair(nodes[n].key, nodes[n].val)];
          n := nodes[n].next;
          i := i + 1;
        }
        assert cb[..i] == cb;
        b := b + 1;
      }
    }
  }

  /**
   * `hashmap_new`: `sz` buckets and `sz` nodes for the smallest power of two
   * `sz` above `max`, the `size` field is `sz`, every node is free with id 0
   * and address NULL, and a failed search answers NULL (0).
   */
  method NewHashMap(max: int) returns (t: Table)
    requires max < 0x4000_0000
    ensures fresh(t) && fresh(t.nodes) && fresh(t.head) && t.Valid()
    ensures t.size == t.nodes.Length && t.size > max && IsPow2(t.size) && (t.size == 1 || t.size / 2 <= max)
    ensures t.missing == 0 && t.free == seq(t.nodes.Length, i => i)
    ensures forall b :: 0 <= b < t.nodes.Length ==> t.chains[b] == []
    ensures forall i :: 0 <= i < t.nodes.Length ==> t.nodes[i] == Node(0, 0, -1)
  {
    var sz := BucketCount(max);
    t := new Table(sz, sz, 0, 0, 0);
  }

  /**
   * `sockhash_new`: `sz` buckets and nodes as for the hash map, but the
   * `size` field is `max` itself; every node is free with fd -1, and a
   * failed search answers -1. With `max` below 1 the mask `max - 1` indexes
   * outside the bucket array, so the model asks for `max >= 1`.
   */
  method NewSockHash(max: int) returns (t: Table)
    requires 1 <= max < 0x4000_0000
    ensures fresh(t) && fresh(t.nodes) && fresh(t.head) && t.Valid()
    ensures t.size == max && t.nodes.Length > max && IsPow2(t.nodes.Length)
    ensures t.missing == -1 && t.free == seq(t.nodes.Length, i => i)
    ensures forall b :: 0 <= b < t.nodes.Length ==> t.chains[b] == []
    ensures forall i :: 0 <= i < t.nodes.Length ==> t.nodes[i] == Node(-1, 0, -1)
  {
    var sz := BucketCount(max);
    t := new Table(sz, max, -1, 0, -1);
  }
}
