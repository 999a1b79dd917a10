/**
  The expiry-ordered index of the TTL cache (type `heapq` in cache-ttl/cache.go).

  It is an array-backed binary min-heap of items ordered by expiry (the slice `pq`, whose
  type `PriorityQueue` implements Go's `heap.Interface`), together with a map `byKey` from
  each key to the very same item object. Every item records its own slot in `index`;
  `Swap`, `Push` and `Pop` keep that field up to date, which is what lets an update by key
  re-fix the heap without searching for the item.

  Time is an integer; the source's `time.Now()` becomes the parameter `now`, and
  `t.Before(u)` is the strict comparison `t < u`.
*/
module ExpiryIndex {
  import opened HeapOrder

  datatype Option<T> = None | Some(value: T)

  /** What a key holds, as the cache's callers see it: its value and its deadline. */
  datatype Entry<V> = Entry(value: V, expiry: int)

  /** The answer a lookup at time `now` gives: a key is found when it is present and its
      expiry is not strictly before `now` (an entry expiring exactly at `now` is still live). */
  function Lookup<V>(m: map<string, Entry<V>>, key: string, now: int): Option<V>
  {
    if key in m && !(m[key].expiry < now) then Some(m[key].value) else None
  }

  /** The entries a sweep at time `now` keeps: those whose expiry is not strictly before `now`. */
  function Sweep<V>(m: map<string, Entry<V>>, now: int): map<string, Entry<V>>
  {
    map k | k in m && !(m[k].expiry < now) :: m[k]
  }

  /** Removing an entry that has already expired does not change what a sweep keeps. */
  lemma SweepDropsExpired<V>(m: map<string, Entry<V>>, k: string, now: int)
    requires k in m && m[k].expiry < now
    ensures Sweep(m - {k}, now) == Sweep(m, now)
  {
  }

  /** A sweep keeps a map none of whose entries has expired. */
  lemma SweepKeepsLive<V>(m: map<string, Entry<V>>, now: int)
    requires forall k :: k in m ==> m[k].expiry >= now
    ensures Sweep(m, now) == m
  {
  }

  /** A sequence without repetitions has as many distinct elements as it has slots. */
  lemma {:induction false} DistinctCardinality<T>(s: seq<T>)
    requires forall i, j :: 0 <= i < j < |s| ==> s[i] != s[j]
    ensures |set x | x in s| == |s|
  {
    if s != [] {
      var t := s[..|s| - 1];
      DistinctCardinality(t);
      assert (set x | x in s) == (set x | x in t) + {s[|s| - 1]};
      assert s[|s| - 1] !in (set x | x in t);
    }
  }

  /** `m` maps exactly the keys of the items of `items`, each to the item carrying it. */
  ghost predicate Linked<V>(items: seq<Item<V>>, m: map<string, Item<V>>)
  {
    && (forall x {:trigger x in items} :: x in items ==> x.key in m && m[x.key] == x)
    && (forall k :: k in m ==> m[k].key == k && m[k] in items)
  }

  /** Reordering the items keeps the links. */
  lemma LinkedAfterReorder<V>(items0: seq<Item<V>>, items: seq<Item<V>>, m: map<string, Item<V>>)
    requires Linked(items0, m) && multiset(items) == multiset(items0)
    ensures Linked(items, m)
  {
    forall x | x in items
      ensures x in items0
    {
      assert multiset(items)[x] > 0;
    }
    forall k | k in m
      ensures m[k] in items
    {
      assert multiset(items0)[m[k]] > 0;
    }
  }

  /** Adding an item and registering it under its (new) key keeps the links. */
  lemma LinkedAfterPush<V>(items0: seq<Item<V>>, m0: map<string, Item<V>>, items: seq<Item<V>>, item: Item<V>)
    requires Linked(items0, m0) && item.key !in m0
    requires multiset(items) == multiset(items0) + multiset{item}
    ensures Linked(items, m0[item.key := item])
  {
    var m := m0[item.key := item];
    forall x | x in items
      ensures x.key in m && m[x.key] == x
    {
      assert multiset(items)[x] > 0;
      if x != item {
        assert multiset(items0)[x] > 0;
        assert x in items0;
      }
    }
    forall k | k in m
      ensures m[k].key == k && m[k] in items
    {
      if k != item.key {
        assert multiset(items0)[m[k]] > 0;
      }
      assert multiset(items)[m[k]] > 0;
    }
  }

  /** Removing an item and dropping its key keeps the links. */
  lemma LinkedAfterPop<V>(items0: seq<Item<V>>, m0: map<string, Item<V>>, items: seq<Item<V>>, item: Item<V>)
    requires Linked(items0, m0) && item in items0 && item !in items
    requires multiset(items) == multiset(items0) - multiset{item}
    ensures Linked(items, m0 - {item.key})
  {
    var m := m0 - {item.key};
    forall x | x in items
      ensures x.key in m && m[x.key] == x
    {
      assert multiset(items)[x] > 0;
      assert x in items0;
    }
    forall k | k in m
      ensures m[k].key == k && m[k] in items
    {
      assert m[k] != item;
      assert multiset(items0)[m[k]] > 0;
      assert multiset(items)[m[k]] == multiset(items0)[m[k]];
    }
  }

  /** An item of the priority queue; `pq` and `byKey` share it, and the index overwrites
      its value and expiry in place. Its key never changes: the one write to it in the
      source stores the key the item already carries. */
  class Item<V> {
    var value: V
    const key: string
    var expiry: int
    /** The item's slot in the heap, kept up to date by Swap, Push and Pop. */
    var index: int

    /** A fresh item as `upsert` builds it: `index` keeps Go's zero value until Push sets it. */
    constructor (value: V, key: string, expiry: int)
      ensures this.value == value && this.key == key && this.expiry == expiry
      ensures index == 0
    {
      this.value := value;
      this.key := key;
      this.expiry := expiry;
      index := 0;
    }
  }

  class Heapq<V> {
    /** The heap array (Go's `PriorityQueue` slice). */
    var pq: seq<Item<V>>
    /** Key to the item backing that key; the same objects as in `pq`. */
    var byKey: map<string, Item<V>>
    /** Every item this index has allocated: the objects its methods may modify. */
    ghost var Repr: set<Item<V>>
    /** The abstract contents: each key with its value and deadline. */
    ghost var contents: map<string, Entry<V>>

    /** Every item in the heap belongs to this index. */
    ghost predicate Tracked()
      reads this`pq, this`Repr
    {
      forall k :: 0 <= k < |pq| ==> pq[k] in Repr
    }

    /** Every item in the heap records its own slot; so the slots hold distinct objects. */
    ghost predicate Indexed()
      reads this`pq, pq
    {
      forall k :: 0 <= k < |pq| ==> pq[k].index == k
    }

    /** The expiry of each slot. */
    ghost function Expiries(): (e: seq<int>)
      reads this`pq, pq
      ensures |e| == |pq| && forall k {:trigger e[k]} :: 0 <= k < |pq| ==> e[k] == pq[k].expiry
    {
      var items := pq;
      seq(|items|, k requires 0 <= k < |items| reads items => items[k].expiry)
    }

    /** The index invariant: heap order on expiry, every item's `index` equal to its slot,
        `byKey` mapping exactly the keys of the heap's items, each to the item that carries
        that key, and `contents` holding what those items hold. */
    ghost predicate Valid()
      reads this`pq, this`byKey, this`Repr, this`contents, pq
    {
      && Tracked()
      && Indexed()
      && Ordered(Expiries(), |pq|)
      && Mirrored()
    }

    /** `byKey` links exactly the heap's items under their keys, and `contents` holds, under
        each key, the value and expiry of the item registered for it. */
    ghost predicate Mirrored()
      reads this`pq, this`byKey, this`contents, pq
    {
      && Linked(pq, byKey)
      && byKey.Keys == contents.Keys
      && forall k :: k in byKey ==> contents[k] == Entry(byKey[k].value, byKey[k].expiry)
    }

    /** An empty index, as the cache constructor builds it. */
    constructor ()
      ensures Valid() && pq == [] && byKey == map[] && contents == map[] && Repr == {}
    {
      pq := [];
      byKey := map[];
      Repr := {};
      contents := map[];
    }

    // ---------------------------------------------------------------------------------
    // PriorityQueue: the heap.Interface methods

    function Len(): int
      reads this`pq
    {
      |pq|
    }

    /** Min-heap on expiry: slot `i` sorts first when it expires strictly before slot `j`. */
    function Less(i: int, j: int): bool
      reads this`pq, pq
      requires 0 <= i < |pq| && 0 <= j < |pq|
    {
      pq[i].expiry < pq[j].expiry
    }

    /** Exchanges two slots and records the new slots in the two items. */
    method Swap(i: int, j: int)
      requires 0 <= i < |pq| && 0 <= j < |pq|
      modifies this`pq, {pq[i], pq[j]}`index
      ensures pq == Swapped(old(pq), i, j)
      ensures pq[j].index == j && (pq[i] != pq[j] || i == j ==> pq[i].index == i)
      ensures Expiries() == Swapped(old(Expiries()), i, j)
      ensures multiset(pq) == old(multiset(pq))
      ensures old(Indexed()) ==> Indexed()
      ensures old(Tracked()) ==> Tracked()
    {
      ghost var e := Expiries();
      SwapKeepsElements(pq, i, j);
      pq := Swapped(pq, i, j);
      pq[i].index := i;
      pq[j].index := j;
      assert |Expiries()| == |Swapped(e, i, j)|;
      forall k | 0 <= k < |pq|
        ensures Expiries()[k] == Swapped(e, i, j)[k]
      {
      }
    }

    /** Appends `item` at slot n and records n in it. */
    method Push(item: Item<V>)
      modifies this`pq, this`Repr, item`index
      ensures pq == old(pq) + [item] && item.index == old(|pq|) && Repr == old(Repr) + {item}
      ensures Expiries() == old(Expiries()) + [item.expiry]
      ensures old(Indexed()) && item !in old(pq) ==> Indexed()
      ensures old(Tracked()) ==> Tracked()
    {
      var n := |pq|;
      item.index := n;
      pq := pq + [item];
      Repr := Repr + {item};
    }

    /** Removes the last slot, marks its item with index -1 and returns it. */
    method Pop() returns (item: Item<V>)
      requires |pq| > 0
      modifies this`pq, {pq[|pq| - 1]}`index
      ensures item == old(pq[|pq| - 1]) && item.index == -1
      ensures pq == old(pq[..|pq| - 1])
      ensures Expiries() == old(Expiries()[..|pq| - 1])
      ensures old(Indexed()) ==> Indexed() && item !in pq
      ensures old(Tracked()) ==> Tracked()
    {
      var n := |pq|;
      item := pq[n - 1];
      item.index := -1;
      pq := pq[0..n - 1];
    }

    // ---------------------------------------------------------------------------------
    // container/heap, written out

    /** Sifts slot `j0` up towards the root (container/heap's `up`). */
    method Up(j0: int)
      requires Tracked() && Indexed() && 0 <= j0 < |pq|
      requires OrderedExceptInto(Expiries(), |pq|, j0) && ParentBoundsChildren(Expiries(), |pq|, j0)
      modifies this`pq, Repr`index
      ensures Tracked() && Indexed() && Ordered(Expiries(), |pq|)
      ensures |pq| == old(|pq|) && multiset(pq) == old(multiset(pq))
    {
      var j := j0;
      while true
        invariant 0 <= j < |pq| == old(|pq|)
        invariant Tracked() && Indexed() && multiset(pq) == old(multiset(pq))
        invariant OrderedExceptInto(Expiries(), |pq|, j) && ParentBoundsChildren(Expiries(), |pq|, j)
        decreases j
      {
        // Go's (j - 1) / 2 truncates towards zero, so the root is its own parent
        var i := if j == 0 then 0 else Parent(j);
        if i == j || !Less(j, i) {
          break;
        }
        UpStep(Expiries(), j);
        Swap(i, j);
        j := i;
      }
    }

    /** Sifts slot `i0` down within the first `n` slots (container/heap's `down`) and
        reports whether the item moved. */
    method Down(i0: int, n: int) returns (moved: bool)
      requires Tracked() && Indexed() && 0 <= i0 < |pq| && i0 <= n <= |pq|
      requires SiftingDown(Expiries(), n, i0, i0)
      modifies this`pq, Repr`index
      ensures Tracked() && Indexed() && |pq| == old(|pq|) && multiset(pq) == old(multiset(pq))
      ensures pq[n..] == old(pq[n..])
      ensures moved ==> Ordered(Expiries(), n)
      ensures !moved ==> pq == old(pq) && OrderedExceptInto(Expiries(), n, i0)
    {
      var i := i0;
      while true
        invariant i0 <= i <= n && i < |pq| == old(|pq|)
        invariant Tracked() && Indexed() && multiset(pq) == old(multiset(pq))
        invariant pq[n..] == old(pq[n..])
        invariant i == i0 ==> pq == old(pq)
        invariant SiftingDown(Expiries(), n, i0, i)
        decreases n - i
      {
        var j := DownOnce(i0, n, i);
        if j == i {
          break;
        }
        i := j;
      }
      moved := i > i0;
    }

    /** One iteration of `down` at slot `i`: exchanges `i` with its earlier child when
        that child expires strictly first and returns the child, or returns `i` itself
        when there is no such child, which ends the sift. */
    method DownOnce(i0: int, n: int, i: int) returns (j: int)
      requires Tracked() && Indexed() && 0 <= i0 <= i <= n <= |pq| && i < |pq|
      requires SiftingDown(Expiries(), n, i0, i)
      modifies this`pq, Repr`index
      ensures Tracked() && Indexed() && |pq| == old(|pq|) && multiset(pq) == old(multiset(pq))
      ensures pq[n..] == old(pq[n..])
      ensures j == i ==> pq == old(pq) && (i0 < i ==> Ordered(Expiries(), n)) && OrderedExceptInto(Expiries(), n, i0)
      ensures j != i ==> i < j <= n && j < |pq| && SiftingDown(Expiries(), n, i0, j)
    {
      ghost var e := Expiries();
      var j1 := 2 * i + 1;
      if j1 >= n {
        DownDone(e, n, i0, i);
        return i;
      }
      j := j1;
      var j2 := j1 + 1;
      if j2 < n && Less(j2, j1) {
        j := j2;
      }
      assert j2 < n ==> e[j] <= e[j2];
      if !Less(j, i) {
        DownDone(e, n, i0, i);
        return i;
      }
      DownStep(e, n, i0, i, j);
      SwapKeepsSuffix(pq, i, j, n);
      Swap(i, j);
    }

    /** heap.Push: append, then sift up. */
    method HeapPush(item: Item<V>)
      requires Tracked() && Indexed() && Ordered(Expiries(), |pq|) && item !in pq
      modifies this`pq, this`Repr, Repr`index, item`index
      ensures Tracked() && Indexed() && Ordered(Expiries(), |pq|) && Repr == old(Repr) + {item}
      ensures |pq| == old(|pq|) + 1 && multiset(pq) == old(multiset(pq)) + multiset{item}
    {
      AppendSiftsUp(Expiries(), item.expiry);
      Push(item);
      Up(|pq| - 1);
    }

    /** heap.Pop: moves the root to the last slot, sifts down over the others, then removes
        and returns the last slot. */
    method HeapPop() returns (item: Item<V>)
      requires Tracked() && Indexed() && Ordered(Expiries(), |pq|) && |pq| > 0
      modifies this`pq, Repr`index
      ensures item == old(pq[0]) && item.index == -1 && item !in pq
      ensures Tracked() && Indexed() && Ordered(Expiries(), |pq|)
      ensures |pq| == old(|pq|) - 1 && multiset(pq) == old(multiset(pq)) - multiset{item}
    {
      var n := |pq| - 1;
      RootToEnd(n);
      ghost var e := Expiries();
      OrderedPrefix(e, n);
      LastSplitsElements(pq);
      item := Pop();
      assert Expiries() == e[..n];
    }

    /** The first two steps of heap.Pop: exchanges the root with the last slot `n` and
        sifts the new root down over the first `n` slots. */
    method RootToEnd(n: int)
      requires Tracked() && Indexed() && Ordered(Expiries(), |pq|) && n == |pq| - 1 >= 0
      modifies this`pq, Repr`index
      ensures Tracked() && Indexed() && Ordered(Expiries(), n)
      ensures |pq| == old(|pq|) && multiset(pq) == old(multiset(pq)) && pq[n] == old(pq[0])
    {
      PopSwapSiftsFromRoot(Expiries());
      Swap(0, n);
      var _ := Down(0, n);
    }

    /** heap.Fix: re-establishes heap order after slot `i`'s expiry was overwritten, sifting
        down and, when the item did not move, up. */
    method HeapFix(i: int)
      requires Tracked() && Indexed() && 0 <= i < |pq| && SiftingDown(Expiries(), |pq|, i, i)
      modifies this`pq, Repr`index
      ensures Tracked() && Indexed() && Ordered(Expiries(), |pq|)
      ensures |pq| == old(|pq|) && multiset(pq) == old(multiset(pq))
    {
      var moved := Down(i, |pq|);
      if !moved {
        Up(i);
      }
    }

    /** PriorityQueue.update: re-fixes the item's slot. Like the source, it ignores `key`
        and `expiry`; the caller has already written them into the item. */
    method Update(item: Item<V>, key: string, expiry: int)
      requires Tracked() && Indexed() && 0 <= item.index < |pq| && pq[item.index] == item
      requires SiftingDown(Expiries(), |pq|, item.index, item.index)
      modifies this`pq, Repr`index
      ensures Tracked() && Indexed() && Ordered(Expiries(), |pq|)
      ensures |pq| == old(|pq|) && multiset(pq) == old(multiset(pq))
    {
      HeapFix(item.index);
    }

    // ---------------------------------------------------------------------------------
    // heapq

    /** Overwrites the item of a present key in place and re-fixes its slot, or pushes and
        registers a new item for an absent key. */
    method Upsert(key: string, value: V, expiry: int)
      requires Valid()
      modifies this, Repr
      ensures Valid()
      ensures contents == old(contents)[key := Entry(value, expiry)]
      ensures key in byKey
      ensures key in old(byKey) ==> byKey[key] == old(byKey[key]) && |pq| == old(|pq|)
      ensures key !in old(byKey) ==> fresh(byKey[key]) && |pq| == old(|pq|) + 1
      ensures fresh(Repr - old(Repr))
    {
      if key in byKey {
        Overwrite(key, value, expiry);
        return;
      }
      Insert(key, value, expiry);
    }

    /** The update branch of `upsert`: the existing item takes the new value and expiry in
        place and its slot is re-fixed; the map and the set of items stay as they were. */
    method Overwrite(key: string, value: V, expiry: int)
      requires Valid() && key in byKey
      modifies this`pq, this`contents, Repr`value, Repr`expiry, Repr`index
      ensures Valid() && byKey == old(byKey) && Repr == old(Repr) && |pq| == old(|pq|)
      ensures contents == old(contents)[key := Entry(value, expiry)]
    {
      var item := byKey[key];
      // the source also stores `key` into the item, which already carries it
      assert item.key == key;
      Store(item, value, expiry);
      Update(item, key, expiry);
      ValidAfterReorder(old(pq));
    }

    /** The in-place writes of `upsert`'s update branch: the item registered under its key
        takes the new value and expiry, which leaves heap order to repair at its slot only. */
    method Store(item: Item<V>, value: V, expiry: int)
      requires Valid() && item.key in byKey && byKey[item.key] == item
      modifies item`value, item`expiry, this`contents
      ensures Tracked() && Indexed() && Linked(pq, byKey) && byKey.Keys == contents.Keys
      ensures forall k :: k in byKey ==> contents[k] == Entry(byKey[k].value, byKey[k].expiry)
      ensures 0 <= item.index < |pq| && pq[item.index] == item
      ensures SiftingDown(Expiries(), |pq|, item.index, item.index)
      ensures contents == old(contents)[item.key := Entry(value, expiry)]
    {
      var key := item.key;
      SlotOf(key);
      ghost var e := Expiries();
      contents := contents[key := Entry(value, expiry)];
      item.value := value;
      item.expiry := expiry;
      assert Expiries() == e[item.index := expiry];
      OverwriteSiftsFrom(e, item.index, expiry);
      forall k | k in byKey
        ensures contents[k] == Entry(byKey[k].value, byKey[k].expiry)
      {
        if k != key {
          assert byKey[k] != item;
        }
      }
    }

    /** The insert branch of `upsert`: a fresh item is pushed onto the heap and registered
        under its key. */
    method Insert(key: string, value: V, expiry: int)
      requires Valid() && key !in byKey
      modifies this`pq, this`byKey, this`contents, this`Repr, Repr`index
      ensures Valid() && key in byKey && fresh(byKey[key]) && |pq| == old(|pq|) + 1
      ensures Repr == old(Repr) + {byKey[key]}
      ensures contents == old(contents)[key := Entry(value, expiry)]
    {
      ghost var pq0, byKey0 := pq, byKey;
      var item := new Item(value, key, expiry);
      HeapPush(item);
      byKey := byKey[key := item];
      contents := contents[key := Entry(value, expiry)];
      forall k | k in byKey
        ensures contents[k] == Entry(byKey[k].value, byKey[k].expiry)
      {
        if k != key {
          assert k in byKey0;
        }
      }
      ValidAfterPush(pq0, byKey0, item);
    }

    /** The value of a key that is present and not expired at `now`; None (Go's nil, false)
        otherwise. Changes nothing. */
    method Get(key: string, now: int) returns (r: Option<V>)
      requires Valid()
      ensures r == Lookup(contents, key, now)
    {
      if key !in byKey || byKey[key].expiry < now {
        return None;
      }
      return Some(byKey[key].value);
    }

    /** One step of the sweep: drops the root's key from `byKey` and pops the root. */
    method DropRoot()
      requires Valid() && |pq| > 0
      modifies this`pq, this`byKey, this`contents, Repr`index
      ensures Valid() && Repr == old(Repr) && |pq| == old(|pq|) - 1
      ensures contents == old(contents) - {old(pq[0].key)}
    {
      ghost var pq0, byKey0 := pq, byKey;
      byKey := byKey - {pq[0].key};
      contents := contents - {pq[0].key};
      var item := HeapPop();
      ValidAfterPop(pq0, byKey0, item);
    }

    /** Pops from the root, dropping the key from `byKey` too, while the root has expired
        strictly before `now`. */
    method CleanPastTTL(now: int)
      requires Valid()
      modifies this`pq, this`byKey, this`contents, Repr`index
      ensures Valid() && Repr == old(Repr)
      ensures contents == Sweep(old(contents), now)
      ensures |pq| == 0 || pq[0].expiry >= now
    {
      while |pq| > 0 && pq[0].expiry < now
        invariant Valid() && Repr == old(Repr)
        invariant Sweep(contents, now) == Sweep(old(contents), now)
        decreases |pq|
      {
        ghost var entries0 := contents;
        ghost var root := pq[0].key;
        assert pq[0] in pq;
        assert root in entries0 && entries0[root].expiry < now;
        DropRoot();
        SweepDropsExpired(entries0, root, now);
      }
      forall k | k in byKey
        ensures byKey[k].expiry >= now
      {
        SlotOf(k);
        RootIsEarliest(Expiries(), byKey[k].index);
      }
      SweepKeepsLive(contents, now);
    }

    // ---------------------------------------------------------------------------------
    // Properties of the invariant, and proof steps

    /** Every key's item sits at the slot its `index` names. */
    lemma SlotOf(k: string)
      requires Valid() && k in byKey
      ensures 0 <= byKey[k].index < |pq| && pq[byKey[k].index] == byKey[k]
    {
      var p :| 0 <= p < |pq| && pq[p] == byKey[k];
    }

    /** At most one item per key: distinct slots carry distinct keys. */
    lemma KeysUnique(i: int, j: int)
      requires Valid() && 0 <= i < j < |pq|
      ensures pq[i].key != pq[j].key
    {
      assert pq[i] in pq && pq[j] in pq;
    }

    /** The invariant after the heap's items were reordered, the map kept and the entries
        kept in step with the items. */
    lemma ValidAfterReorder(pq0: seq<Item<V>>)
      requires Tracked() && Indexed() && Ordered(Expiries(), |pq|)
      requires Linked(pq0, byKey) && multiset(pq) == multiset(pq0)
      requires byKey.Keys == contents.Keys
      requires forall k :: k in byKey ==> contents[k] == Entry(byKey[k].value, byKey[k].expiry)
      ensures Valid()
    {
      LinkedAfterReorder(pq0, pq, byKey);
    }

    /** The invariant after `item` was pushed and registered under its key. */
    lemma ValidAfterPush(pq0: seq<Item<V>>, byKey0: map<string, Item<V>>, item: Item<V>)
      requires Tracked() && Indexed() && Ordered(Expiries(), |pq|)
      requires Linked(pq0, byKey0) && item.key !in byKey0
      requires multiset(pq) == multiset(pq0) + multiset{item} && byKey == byKey0[item.key := item]
      requires byKey.Keys == contents.Keys
      requires forall k :: k in byKey ==> contents[k] == Entry(byKey[k].value, byKey[k].expiry)
      ensures Valid()
    {
      LinkedAfterPush(pq0, byKey0, pq, item);
    }

    /** The invariant after `item` was popped and its key dropped. */
    lemma ValidAfterPop(pq0: seq<Item<V>>, byKey0: map<string, Item<V>>, item: Item<V>)
      requires Tracked() && Indexed() && Ordered(Expiries(), |pq|)
      requires Linked(pq0, byKey0) && item in pq0 && item !in pq
      requires multiset(pq) == multiset(pq0) - multiset{item} && byKey == byKey0 - {item.key}
      requires byKey.Keys == contents.Keys
      requires forall k :: k in byKey ==> contents[k] == Entry(byKey[k].value, byKey[k].expiry)
      ensures Valid()
    {
      LinkedAfterPop(pq0, byKey0, pq, item);
    }

    /** `byKey` holds exactly as many keys as the heap holds items. */
    lemma SizeAgrees()
      requires Valid()
      ensures |byKey| == |pq|
    {
      var ks := seq(|pq|, i requires 0 <= i < |pq| reads this, pq => pq[i].key);
      forall i, j | 0 <= i < j < |pq|
        ensures ks[i] != ks[j]
      {
        KeysUnique(i, j);
      }
      DistinctCardinality(ks);
      assert byKey.Keys == set x | x in ks by {
        forall k | k in byKey
          ensures k in ks
        {
          SlotOf(k);
          assert ks[byKey[k].index] == k;
        }
        forall x | x in ks
          ensures x in byKey
        {
          var i :| 0 <= i < |ks| && ks[i] == x;
          assert pq[i] in pq;
        }
      }
    }

  }
}
