/**
 * The sorted-array map: a growable array of (key, value) nodes of which the
 * first `used` are live and kept in strictly ascending key order, searched
 * by binary search. The pure functions below say what each operation does
 * to the sequence of live entries; the `Map` methods do it in place.
 */
module SortedMap {
  import opened CInt

  datatype Entry = Entry(key: int, val: Ptr)

  predicate Sorted(s: seq<Entry>)
  {
    forall i, j :: 0 <= i < j < |s| ==> s[i].key < s[j].key
  }

  predicate HasKey(s: seq<Entry>, key: int)
  {
    exists i :: 0 <= i < |s| && s[i].key == key
  }

  /** The value stored under `key`, if any. */
  function Find(s: seq<Entry>, key: int): (r: Option<Ptr>)
    ensures r.None? <==> !HasKey(s, key)
    ensures r.Some? ==> exists i :: 0 <= i < |s| && s[i] == Entry(key, r.value)
  {
    if s == [] then None
    else if s[0].key == key then (assert s[0] == Entry(key, s[0].val); Some(s[0].val))
    else
      var r := Find(s[1..], key);
      assert forall i :: 0 <= i < |s| - 1 ==> s[1..][i] == s[i + 1];
      assert HasKey(s, key) ==> HasKey(s[1..], key) by {
        if HasKey(s, key) {
          var i :| 0 <= i < |s| && s[i].key == key;
          assert s[1..][i - 1].key == key;
        }
      }
      r
  }

  /** `s` with `e` inserted at the place its key takes in ascending order. */
  function Insert(s: seq<Entry>, e: Entry): (r: seq<Entry>)
    ensures |r| == |s| + 1 && multiset(r) == multiset(s) + multiset{e}
  {
    if s == [] || e.key < s[0].key then [e] + s
    else
      assert s == [s[0]] + s[1..];
      [s[0]] + Insert(s[1..], e)
  }

  /** `s` without its entries for `key`. */
  function Remove(s: seq<Entry>, key: int): (r: seq<Entry>)
    ensures |r| <= |s|
  {
    if s == [] then []
    else
      assert s == [s[0]] + s[1..];
      if s[0].key == key then Remove(s[1..], key) else [s[0]] + Remove(s[1..], key)
  }

  /** `s` with the value under `key` replaced by `v`. */
  function Update(s: seq<Entry>, key: int, v: Ptr): (r: seq<Entry>)
    ensures |r| == |s|
    ensures forall i :: 0 <= i < |s| ==> r[i].key == s[i].key
    ensures forall i :: 0 <= i < |s| ==> r[i].val == if s[i].key == key then v else s[i].val
  {
    if s == [] then []
    else [if s[0].key == key then Entry(key, v) else s[0]] + Update(s[1..], key, v)
  }

  /** The entries of `s` for which `drop` is false, in order. */
  function Keep(s: seq<Entry>, drop: Entry -> bool): (r: seq<Entry>)
    ensures |r| <= |s|
  {
    if s == [] then []
    else
      assert s == [s[0]] + s[1..];
      if drop(s[0]) then Keep(s[1..], drop) else [s[0]] + Keep(s[1..], drop)
  }

  lemma KeySplit(s: seq<Entry>, key: int)
    requires s != []
    ensures HasKey(s, key) <==> s[0].key == key || HasKey(s[1..], key)
  {
    if HasKey(s, key) && s[0].key != key {
      var i :| 0 <= i < |s| && s[i].key == key;
      assert s[1..][i - 1].key == key;
    }
    if HasKey(s[1..], key) {
      var i :| 0 <= i < |s| - 1 && s[1..][i].key == key;
      assert s[i + 1].key == key;
    }
  }

  /** A lower bound of every key and of `e.key` bounds every key after the insertion. */
  lemma {:induction false} InsertBound(s: seq<Entry>, e: Entry, lo: int)
    requires (forall i :: 0 <= i < |s| ==> lo < s[i].key) && lo < e.key
    ensures forall j :: 0 <= j < |Insert(s, e)| ==> lo < Insert(s, e)[j].key
    decreases |s|
  {
    if s != [] && e.key >= s[0].key {
      InsertBound(s[1..], e, lo);
      var t := Insert(s[1..], e);
      assert Insert(s, e) == [s[0]] + t;
      forall j | 0 <= j < |Insert(s, e)|
        ensures lo < Insert(s, e)[j].key
      {
        if j > 0 {
          assert Insert(s, e)[j] == t[j - 1];
        }
      }
    }
  }

  /** Inserting an absent key keeps the entries strictly ascending. */
  lemma {:induction false} InsertSorted(s: seq<Entry>, e: Entry)
    requires Sorted(s) && !HasKey(s, e.key)
    ensures Sorted(Insert(s, e))
    ensures Insert(s, e) != [] && (s != [] ==> Insert(s, e)[0].key == if e.key < s[0].key then e.key else s[0].key)
    decreases |s|
  {
    if s == [] || e.key < s[0].key {
    } else {
      KeySplit(s, e.key);
      InsertSorted(s[1..], e);
      var t := Insert(s[1..], e);
      forall i | 0 <= i < |s[1..]|
        ensures s[0].key < s[1..][i].key
      {
        assert s[1..][i] == s[i + 1];
      }
      InsertBound(s[1..], e, s[0].key);
      assert Insert(s, e) == [s[0]] + t;
    }
  }

  /**
   * In a sorted sequence the insertion place is where the binary search
   * stops: after every smaller key and before every greater one.
   */
  lemma {:induction false} InsertAt(s: seq<Entry>, e: Entry, p: int)
    requires 0 <= p <= |s|
    requires forall i :: 0 <= i < p ==> s[i].key < e.key
    requires forall i :: p <= i < |s| ==> e.key < s[i].key
    ensures Insert(s, e) == s[..p] + [e] + s[p..]
    decreases |s|
  {
    if s == [] || e.key < s[0].key {
      assert p == 0;
    } else {
      InsertAt(s[1..], e, p - 1);
      assert s[..p] == [s[0]] + s[1..][..p - 1];
      assert s[p..] == s[1..][p - 1..];
    }
  }

  lemma SortedTail(s: seq<Entry>)
    requires Sorted(s) && s != []
    ensures Sorted(s[1..]) && forall i :: 0 <= i < |s| - 1 ==> s[0].key < s[1..][i].key
  {
    forall i, j | 0 <= i < j < |s| - 1 ensures s[1..][i].key < s[1..][j].key {
      assert s[1..][i] == s[i + 1] && s[1..][j] == s[j + 1];
    }
    forall i | 0 <= i < |s| - 1 ensures s[0].key < s[1..][i].key {
      assert s[1..][i] == s[i + 1];
    }
  }

  /** The entry for a present key sits at one index, and removing the key deletes just that index. */
  lemma {:induction false} RemoveAt(s: seq<Entry>, n: int)
    requires Sorted(s) && 0 <= n < |s|
    ensures Remove(s, s[n].key) == s[..n] + s[n + 1..]
    decreases |s|
  {
    SortedTail(s);
    if n == 0 {
      RemoveAbsent(s[1..], s[0].key);
      assert s[1..] == s[..0] + s[1..];
    } else {
      RemoveAt(s[1..], n - 1);
      SplitAround(s, n);
    }
  }

  lemma SplitAround(s: seq<Entry>, n: int)
    requires 0 < n < |s|
    ensures s[1..][n - 1] == s[n]
    ensures s[..n] + s[n + 1..] == [s[0]] + (s[1..][..n - 1] + s[1..][n..])
  {
    assert s[..n] == [s[0]] + s[1..][..n - 1];
    assert s[n + 1..] == s[1..][n..];
  }

  lemma {:induction false} RemoveAbsent(s: seq<Entry>, key: int)
    requires !HasKey(s, key)
    ensures Remove(s, key) == s
    decreases |s|
  {
    if s != [] {
      KeySplit(s, key);
      RemoveAbsent(s[1..], key);
    }
  }

  /** An entry survives removal exactly when it was there under another key. */
  lemma {:induction false} RemoveExactly(s: seq<Entry>, key: int, e: Entry)
    ensures e in Remove(s, key) <==> e in s && e.key != key
    decreases |s|
  {
    if s != [] {
      RemoveExactly(s[1..], key, e);
      assert s == [s[0]] + s[1..];
      assert e in s <==> e == s[0] || e in s[1..];
    }
  }

  /** After removal the key is gone and every other key keeps its value. */
  lemma {:induction false} RemoveFind(s: seq<Entry>, key: int, k: int)
    ensures Find(Remove(s, key), k) == if k == key then None else Find(s, k)
    decreases |s|
  {
    if s != [] {
      RemoveFind(s[1..], key, k);
    }
  }

  /** After insertion of an absent key it maps to the new value and every other key is unchanged. */
  lemma {:induction false} InsertFind(s: seq<Entry>, e: Entry, k: int)
    requires !HasKey(s, e.key)
    ensures Find(Insert(s, e), k) == if k == e.key then Some(e.val) else Find(s, k)
    decreases |s|
  {
    if s != [] && e.key >= s[0].key {
      KeySplit(s, e.key);
      InsertFind(s[1..], e, k);
    }
  }

  /** Removing a key just inserted gives back the original entries. */
  lemma {:induction false} InsertRemove(s: seq<Entry>, e: Entry)
    requires !HasKey(s, e.key)
    ensures Remove(Insert(s, e), e.key) == s
    decreases |s|
  {
    if s == [] || e.key < s[0].key {
      RemoveAbsent(s, e.key);
    } else {
      KeySplit(s, e.key);
      InsertRemove(s[1..], e);
    }
  }

  /** A present key maps to the value just written; other keys are unchanged. */
  lemma {:induction false} UpdateFind(s: seq<Entry>, key: int, v: Ptr, k: int)
    ensures Find(Update(s, key, v), k) == if k == key && HasKey(s, key) then Some(v) else Find(s, k)
    decreases |s|
  {
    if s != [] {
      KeySplit(s, key);
      KeySplit(s, k);
      UpdateFind(s[1..], key, v, k);
    }
  }

  lemma {:induction false} KeepSorted(s: seq<Entry>, drop: Entry -> bool)
    requires Sorted(s)
    ensures Sorted(Keep(s, drop))
    decreases |s|
  {
    if s != [] {
      SortedTail(s);
      KeepSorted(s[1..], drop);
      var t := Keep(s[1..], drop);
      KeepFrom(s[1..], drop);
      forall j | 0 <= j < |t| ensures s[0].key < t[j].key {
        var k :| 0 <= k < |s[1..]| && s[1..][k] == t[j];
        assert s[k + 1] == t[j];
      }
    }
  }

  /** Every kept entry is an entry of the original sequence. */
  lemma {:induction false} KeepFrom(s: seq<Entry>, drop: Entry -> bool)
    ensures forall j :: 0 <= j < |Keep(s, drop)| ==> exists k :: 0 <= k < |s| && s[k] == Keep(s, drop)[j]
    decreases |s|
  {
    if s != [] {
      KeepFrom(s[1..], drop);
      var t := Keep(s[1..], drop);
      var r := Keep(s, drop);
      forall j | 0 <= j < |r| ensures exists k :: 0 <= k < |s| && s[k] == r[j] {
        if drop(s[0]) || j > 0 {
          var j' := if drop(s[0]) then j else j - 1;
          assert r[j] == t[j'];
          var k :| 0 <= k < |s[1..]| && s[1..][k] == t[j'];
          assert s[k + 1] == r[j];
        } else {
          assert s[0] == r[j];
        }
      }
      assert forall j :: 0 <= j < |r| ==> exists k :: 0 <= k < |s| && s[k] == r[j];
    } else {
      assert Keep(s, drop) == [];
    }
  }

  /** An entry survives the visit exactly when it was there and is not dropped. */
  lemma {:induction false} KeepExactly(s: seq<Entry>, drop: Entry -> bool, e: Entry)
    ensures e in Keep(s, drop) <==> e in s && !drop(e)
    decreases |s|
  {
    if s != [] {
      KeepExactly(s[1..], drop, e);
      assert s == [s[0]] + s[1..];
      assert e in s <==> e == s[0] || e in s[1..];
    }
  }

  lemma KeepAppend(a: seq<Entry>, e: Entry, drop: Entry -> bool)
    ensures Keep(a + [e], drop) == Keep(a, drop) + (if drop(e) then [] else [e])
  {
    if a == [] {
      assert [e][1..] == [];
    } else {
      assert (a + [e])[1..] == a[1..] + [e];
      KeepAppend(a[1..], e, drop);
    }
  }

  /**
   * One step of the visit: the entry at the current index is the next
   * unvisited one, and keeping or dropping it moves the split point on.
   */
  /** Splitting a sequence around its index `n`. */
  lemma TakeOne(s: seq<Entry>, n: int)
    requires 0 <= n < |s|
    ensures s[..n + 1] == s[..n] + [s[n]]
    ensures s[n..] == [s[n]] + s[n + 1..] && s[n..][1..] == s[n + 1..]
  {
  }

  lemma Assoc(a: seq<Entry>, e: Entry, b: seq<Entry>)
    ensures a + ([e] + b) == (a + [e]) + b
  {
  }

  /**
   * One step of the visit: the table is `kept + s[|v|..]` with the visited
   * prefix `v` already filtered into `kept`; visiting `s[|v|]` either drops
   * it (it is then the entry at index `|kept|`, and erasing its key leaves
   * `kept` followed by the rest) or keeps it.
   */
  lemma VisitStep(s: seq<Entry>, v: seq<Entry>, kept: seq<Entry>, drop: Entry -> bool)
    requires |v| < |s| && v == s[..|v|] && kept == Keep(v, drop) && Sorted(kept + s[|v|..])
    ensures (kept + s[|v|..])[|kept|] == s[|v|] && |kept| < |kept + s[|v|..]|
    ensures v + [s[|v|]] == s[..|v| + 1]
    ensures drop(s[|v|]) ==> Keep(v + [s[|v|]], drop) == kept
                              && Remove(kept + s[|v|..], s[|v|].key) == kept + s[|v| + 1..]
    ensures !drop(s[|v|]) ==> Keep(v + [s[|v|]], drop) == kept + [s[|v|]]
                               && (kept + [s[|v|]]) + s[|v| + 1..] == kept + s[|v|..]
  {
    TakeOne(s, |v|);
    KeepAppend(v, s[|v|], drop);
    CutAt(kept, s[|v|..]);
    if drop(s[|v|]) {
      RemoveAt(kept + s[|v|..], |kept|);
    } else {
      Assoc(kept, s[|v|], s[|v| + 1..]);
    }
  }

  /** Cutting the element at index `|k|` out of `k + t`. */
  lemma CutAt(k: seq<Entry>, t: seq<Entry>)
    requires t != []
    ensures (k + t)[|k|] == t[0]
    ensures (k + t)[..|k|] + (k + t)[|k| + 1..] == k + t[1..]
  {
    assert (k + t)[..|k|] == k;
    assert (k + t)[|k| + 1..] == t[1..];
  }

  /** The live nodes of one map. */
  class Map {
    var node: array<Entry>
    var used: int

    ghost predicate Valid()
      reads this, node
    {
      0 < node.Length && 0 <= used <= node.Length && Sorted(node[..used])
    }

    /** The live entries, in ascending key order. */
    ghost function Entries(): seq<Entry>
      reads this, node
      requires Valid()
    {
      node[..used]
    }

    /** `create_map`: room for `size` nodes, none live. */
    constructor (size: int)
      requires 0 < size
      ensures Valid() && Entries() == [] && node.Length == size && fresh(node)
    {
      node := new Entry[size](_ => Entry(0, NULL));
      used := 0;
    }

    /** `map_search_cb`: the index of `key` among the live entries, or -1. */
    method Search(key: int) returns (n: int)
      requires Valid()
      ensures -1 <= n < used
      ensures n >= 0 ==> node[n].key == key
      ensures n == -1 <==> !HasKey(Entries(), key)
    {
      var found, at := Locate(node[..used], key);
      n := if found then at else -1;
    }

    /**
     * `map_sort_swap`: binary search for the place of `key`; -1 with no
     * change when it is present, otherwise the entry is put there, later
     * entries move up one, and the count grows by one.
     */
    method SortSwap(key: int, val: Ptr) returns (r: int)
      requires Valid() && used < node.Length
      modifies this, node
      ensures Valid() && node == old(node)
      ensures r == 0 || r == -1
      ensures r == -1 <==> HasKey(old(Entries()), key)
      ensures r == -1 ==> Entries() == old(Entries())
      ensures r == 0 ==> Entries() == Insert(old(Entries()), Entry(key, val))
    {
      ghost var s := Entries();
      var found, low := Locate(node[..used], key);
      if found {
        return -1;
      }
      InsertAt(s, Entry(key, val), low);
      InsertSorted(s, Entry(key, val));
      ghost var before, after := s[..low], s[low..];
      assert node[..low] == before && node[low..used] == after;
      Place(low, Entry(key, val));
      return 0;
    }

    /** The `memmove` of `map_sort_swap` and the store: `e` goes to index `low`, nodes `low .. used-1` move up one place. */
    method Place(low: int, e: Entry)
      requires 0 <= low <= used < node.Length
      modifies this, node
      ensures node == old(node) && used == old(used) + 1
      ensures node[..used] == old(node[..low]) + [e] + old(node[low..used])
    {
      forall i | low < i <= used {
        node[i] := node[i - 1];
      }
      node[low] := e;
      assert node[..low] == old(node[..low]);
      assert node[low + 1..used + 1] == old(node[low..used]);
      used := used + 1;
      assert node[..used] == node[..low] + [node[low]] + node[low + 1..used];
    }

    /** The `memmove` of `map_erase`: nodes `n+1 .. used-1` move down one place. */
    method ShiftDown(n: int)
      requires 0 <= n < used <= node.Length
      modifies node
      ensures node[..n] == old(node[..n]) && node[n..used - 1] == old(node[n + 1..used])
    {
      forall i | n <= i < used - 1 {
        node[i] := node[i + 1];
      }
    }

    /**
     * `map_add`: -1 with no change when the key is present; otherwise the
     * node array doubles when full and the entry is inserted in order.
     */
    method Add(key: int, val: Ptr) returns (r: int)
      requires Valid()
      modifies this, node
      ensures Valid()
      ensures r == 0 || r == -1
      ensures r == -1 <==> HasKey(old(Entries()), key)
      ensures r == -1 ==> Entries() == old(Entries())
      ensures r == 0 ==> Entries() == Insert(old(Entries()), Entry(key, val))
      ensures r == -1 || old(used) < old(node.Length) ==> node == old(node)
      ensures r == 0 && old(used) >= old(node.Length) ==> fresh(node) && node.Length == 2 * old(node.Length)
    {
      ghost var s := Entries();
      var n := Search(key);
      if n >= 0 {
        return -1;
      }
      if used >= node.Length {
        var bigger := new Entry[2 * node.Length](_ => Entry(0, NULL));
        forall i | 0 <= i < used {
          bigger[i] := node[i];
        }
        assert bigger[..used] == node[..used];
        node := bigger;
      }
      assert Entries() == s;
      r := SortSwap(key, val);
    }

    /** `map_get`: 0 and the stored value for a present key, -1 and NULL otherwise. */
    method Get(key: int) returns (r: int, val: Ptr)
      requires Valid()
      ensures r == 0 || r == -1
      ensures r == -1 <==> Find(Entries(), key).None?
      ensures val == if r == 0 then Find(Entries(), key).value else NULL
    {
      if used == 0 {
        return -1, NULL;
      }
      var n := Search(key);
      if n < 0 {
        return -1, NULL;
      }
      FindAt(Entries(), n);
      return 0, node[n].val;
    }

    /** `map_set`: replace the value of a present key; -1 with no change when absent. */
    method Set(key: int, val: Ptr) returns (r: int)
      requires Valid()
      modifies node
      ensures Valid()
      ensures r == 0 || r == -1
      ensures r == -1 <==> !HasKey(old(Entries()), key)
      ensures Entries() == Update(old(Entries()), key, val)
    {
      if used == 0 {
        return -1;
      }
      var n := Search(key);
      if n < 0 {
        UpdateAbsent(Entries(), key, val);
        return -1;
      }
      ghost var s := Entries();
      node[n] := Entry(key, val);
      UpdateAt(s, n, val);
      assert node[..used] == s[n := Entry(key, val)];
      r := 0;
    }

    /**
     * `map_erase`: -1 with no change when the key is absent; otherwise its
     * entry goes and the later ones move down one, keeping their order.
     */
    method Erase(key: int) returns (r: int)
      requires Valid()
      modifies this, node
      ensures Valid() && node == old(node)
      ensures r == 0 || r == -1
      ensures r == -1 <==> !HasKey(old(Entries()), key)
      ensures Entries() == Remove(old(Entries()), key)
    {
      if used == 0 {
        return -1;
      }
      var n := Search(key);
      if n < 0 {
        RemoveAbsent(Entries(), key);
        return -1;
      }
      ghost var s := Entries();
      RemoveAt(s, n);
      node[n] := Entry(-1, NULL);
      if n != used - 1 {
        ShiftDown(n);
      }
      used := used - 1;
      assert node[..used] == s[..n] + s[n + 1..];
      RemoveSortedAt(s, n);
      r := 0;
    }

    /**
     * `map_foreach` with the callback protocol its users follow: the
     * callback returns nonzero exactly when it erased the entry it was
     * given (`drop`), and the index then steps back so the entry that moved
     * into that place is visited next. Every entry is visited once, in key
     * order, and exactly the dropped ones are gone.
     */
    method Foreach(drop: Entry -> bool) returns (visited: seq<Entry>)
      requires Valid()
      modifies this, node
      ensures Valid() && node == old(node)
      ensures visited == old(Entries())
      ensures Entries() == Keep(old(Entries()), drop)
    {
      ghost var s := Entries();
      ghost var kept: seq<Entry> := [];
      visited := [];
      var index := 0;
      while index < used
        invariant Valid() && node == old(node)
        invariant |visited| <= |s| && visited == s[..|visited|]
        invariant kept == Keep(visited, drop) && index == |kept|
        invariant Entries() == kept + s[|visited|..]
        decreases |s| - |visited|
      {
        var e := node[index];
        VisitStep(s, visited, kept, drop);
        assert e == Entries()[index];
        if drop(e) {
          var _ := Erase(e.key);
          index := index - 1;
        } else {
          kept := kept + [e];
        }
        visited := visited + [e];
        index := index + 1;
      }
      assert s[..|s|] == s;
    }

    /** `map_size` */
    function Size(): (r: int)
      reads this, node
      requires Valid()
      ensures r == |Entries()|
    {
      used
    }

    /** `map_clear`: no entry is live any more; the node array stays. */
    method Clear()
      requires Valid()
      modifies this
      ensures Valid() && Entries() == [] && node == old(node)
    {
      used := 0;
    }
  }

  /**
   * The binary search shared by `map_search_cb` and `map_sort_swap`: either
   * the index holding `key`, or the place where it belongs, after every
   * smaller key and before every greater one.
   */
  method Locate(s: seq<Entry>, key: int) returns (found: bool, at: int)
    requires Sorted(s)
    ensures found <==> HasKey(s, key)
    ensures found ==> 0 <= at < |s| && s[at].key == key
    ensures !found ==> 0 <= at <= |s| && (forall i :: 0 <= i < at ==> s[i].key < key)
                       && (forall i :: at <= i < |s| ==> key < s[i].key)
  {
    var low, high := 0, |s| - 1;
    while high >= 0 && low < |s| && low <= high
      invariant 0 <= low <= |s| && -1 <= high < |s| && low <= high + 1
      invariant forall i :: 0 <= i < low ==> s[i].key < key
      invariant forall i :: high < i < |s| ==> key < s[i].key
      decreases high - low
    {
      var mid := (low + high) / 2;
      if key == s[mid].key {
        return true, mid;
      } else if key < s[mid].key {
        high := mid - 1;
      } else {
        low := mid + 1;
      }
    }
    assert forall i :: 0 <= i < |s| ==> s[i].key != key;
    return false, low;
  }

  lemma FindAt(s: seq<Entry>, n: int)
    requires Sorted(s) && 0 <= n < |s|
    ensures Find(s, s[n].key) == Some(s[n].val)
  {
    RemoveFind(s, s[n].key, s[n].key);
    FindUnique(s, n);
  }

  lemma {:induction false} FindUnique(s: seq<Entry>, n: int)
    requires Sorted(s) && 0 <= n < |s|
    ensures Find(s, s[n].key) == Some(s[n].val)
    decreases |s|
  {
    if n > 0 {
      SortedTail(s);
      FindUnique(s[1..], n - 1);
    }
  }

  lemma {:induction false} UpdateAbsent(s: seq<Entry>, key: int, v: Ptr)
    requires !HasKey(s, key)
    ensures Update(s, key, v) == s
    decreases |s|
  {
    if s != [] {
      KeySplit(s, key);
      UpdateAbsent(s[1..], key, v);
    }
  }

  lemma UpdateAt(s: seq<Entry>, n: int, v: Ptr)
    requires Sorted(s) && 0 <= n < |s|
    ensures Update(s, s[n].key, v) == s[n := Entry(s[n].key, v)]
  {
    var t := Update(s, s[n].key, v);
    forall i | 0 <= i < |s| ensures t[i] == s[n := Entry(s[n].key, v)][i] {
      if i != n {
        assert s[i].key != s[n].key;
      }
    }
  }

  lemma RemoveSortedAt(s: seq<Entry>, n: int)
    requires Sorted(s) && 0 <= n < |s|
    ensures Sorted(s[..n] + s[n + 1..])
  {
    var t := s[..n] + s[n + 1..];
    forall i, j | 0 <= i < j < |t| ensures t[i].key < t[j].key {
      var i' := if i < n then i else i + 1;
      var j' := if j < n then j else j + 1;
      assert t[i] == s[i'] && t[j] == s[j'];
    }
  }
}
