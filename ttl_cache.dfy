/**
  The cache façade (type `Cache` in cache-ttl/cache.go) in its sequential part: `Set` arms a
  key with a deadline `now + ttl`, `Get` answers from the expiry index, and one tick of the
  background sweeper is one call to `CleanupTick`. The read/write lock and the ticker
  goroutine are not modelled; the clock is the parameter `now`.
*/
module TtlCache {
  import opened ExpiryIndex

  /** The deadline of an entry stored at time `now` for `ttl` (Go's `time.Now().Add(ttl)`). */
  function Deadline(now: int, ttl: int): int
  {
    now + ttl
  }

  class Cache<V> {
    /** The expiry index; the source never replaces the pointer. */
    const heapq: Heapq<V>

    ghost predicate Valid()
      reads heapq, heapq.pq
    {
      heapq.Valid()
    }

    /** What the cache holds: each key with its value and deadline. */
    ghost function Entries(): map<string, Entry<V>>
      reads heapq
    {
      heapq.contents
    }

    /** A new, empty cache (NewCacheInterface without the sweeper goroutine). */
    constructor ()
      ensures Valid() && Entries() == map[] && fresh(heapq) && heapq.Repr == {}
    {
      heapq := new Heapq();
    }

    /** Arms `key` with `value` until `now + ttl`, replacing whatever it held. */
    method Set(key: string, value: V, ttl: int, now: int)
      requires Valid()
      modifies heapq, heapq.Repr
      ensures Valid() && fresh(heapq.Repr - old(heapq.Repr))
      ensures Entries() == old(Entries())[key := Entry(value, Deadline(now, ttl))]
    {
      var newExpiry := Deadline(now, ttl);
      heapq.Upsert(key, value, newExpiry);
    }

    /** The value of `key` when it is present and its deadline is not strictly before `now`. */
    method Get(key: string, now: int) returns (r: Option<V>)
      requires Valid()
      ensures r == Lookup(Entries(), key, now)
    {
      r := heapq.Get(key, now);
    }

    /** One tick of the sweeper: removes every entry whose deadline is strictly before `now`. */
    method CleanupTick(now: int)
      requires Valid()
      modifies heapq, heapq.Repr
      ensures Valid() && heapq.Repr == old(heapq.Repr)
      ensures Entries() == Sweep(old(Entries()), now)
    {
      heapq.CleanPastTTL(now);
    }
  }

  // -----------------------------------------------------------------------------------
  // What callers can rely on, stated on the contents the methods above promise

  /** After `Set(key, value, ttl)` at time `t`, `Get(key)` answers `value` exactly up to and
      including the deadline `t + ttl`, and nothing after it. */
  lemma {:induction false} SetThenGet<V>(m: map<string, Entry<V>>, key: string, value: V, t: int, ttl: int, now: int)
    ensures Lookup(m[key := Entry(value, Deadline(t, ttl))], key, now) == Some(value) <==> now <= Deadline(t, ttl)
    ensures now > Deadline(t, ttl) ==> Lookup(m[key := Entry(value, Deadline(t, ttl))], key, now) == None
  {
  }

  /** A later `Set` of the same key supersedes both the value and the deadline of the first. */
  lemma {:induction false} SetSupersedes<V>(m: map<string, Entry<V>>, key: string, v1: V, e1: int, v2: V, e2: int)
    ensures m[key := Entry(v1, e1)][key := Entry(v2, e2)] == m[key := Entry(v2, e2)]
  {
  }

  /** Setting one key changes no other key's answer. */
  lemma {:induction false} SetLeavesOthers<V>(m: map<string, Entry<V>>, key: string, e: Entry<V>, other: string, now: int)
    requires other != key
    ensures Lookup(m[key := e], other, now) == Lookup(m, other, now)
  {
  }

  /** A sweep at `now` is invisible to every `Get` at `now` or later: it removes only entries
      that those lookups already treat as absent. */
  lemma {:induction false} SweepInvisible<V>(m: map<string, Entry<V>>, now: int, later: int, key: string)
    requires now <= later
    ensures Lookup(Sweep(m, now), key, later) == Lookup(m, key, later)
  {
  }

  /** A sweep keeps exactly the entries that have not expired, unchanged. */
  lemma {:induction false} SweepKeepsExactlyLive<V>(m: map<string, Entry<V>>, now: int, key: string)
    ensures key in Sweep(m, now) <==> key in m && m[key].expiry >= now
    ensures key in Sweep(m, now) ==> Sweep(m, now)[key] == m[key]
  {
  }
}
