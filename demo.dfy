/**
  The walk-through in cmd/cache-ttl/main.go, with the clock made explicit in milliseconds.
  The cache is created at time 0, "key" is set to "val" for 5000 ms and read. Then, fifteen
  times, the program sleeps 1000 ms, on the fourth round sets "key" to "val2" for 5000 ms,
  and reads "key" again.

  The clock is one timing the program allows: every sleep lasts exactly 1000 ms and every
  `Set` or `Get` takes 1 ms, so a later statement always reads a later time. The read numbered
  `t` (0 to 15) happens at `ReadTime(t)`, and the round that ends with it wakes at
  `ReadTime(t) - 1`, where the round's `Set` runs. The sweeper ticks every 3000 ms from
  creation; its tick at `1000 * t` for `t` a multiple of 3 falls in the sleep before read `t`.
*/
module CacheDemo {
  import opened ExpiryIndex
  import opened TtlCache

  /** The time of read `t`: the first read 1 ms after the first `Set`, and each later one
      1001 ms after the previous one (a 1000 ms sleep, then a 1 ms step). */
  function ReadTime(t: int): int
  {
    1001 * t + 1
  }

  /** What read `t` answers. "val" lives until 5000 and the last read before the second
      `Set` is at 3004. "val2" is set at 4004 and lives until 9004, which lies between read 8
      (at 8009) and read 9 (at 9010). */
  function Expected(t: int): Option<string>
  {
    if t <= 3 then Some("val") else if t <= 8 then Some("val2") else None
  }

  /** The entry "key" holds after read `t`, unless a sweep has removed it. */
  function Armed(t: int): Entry<string>
  {
    if t <= 3 then Entry("val", Deadline(0, 5000)) else Entry("val2", Deadline(ReadTime(4) - 1, 5000))
  }

  /** What the cache holds after read `t`: at most "key", armed as `Armed(t)` unless a
      sweep has removed it after its deadline. */
  ghost predicate Holds(m: map<string, Entry<string>>, t: int)
  {
    && m.Keys <= {"key"}
    && ("key" in m ==> m["key"] == Armed(t))
    && ("key" !in m ==> Armed(t).expiry < ReadTime(t))
  }

  /** Runs the walk-through and returns the sixteen answers for "key", in order. */
  method DemoScenario() returns (observed: seq<Option<string>>)
    ensures |observed| == 16
    ensures forall t :: 0 <= t < 16 ==> observed[t] == Expected(t)
  {
    var c, r := Start();
    observed := [r];
    var i := 0;
    while i < 15
      invariant 0 <= i <= 15 && |observed| == i + 1
      invariant forall t :: 0 <= t <= i ==> observed[t] == Expected(t)
      invariant c.Valid() && fresh(c.heapq) && fresh(c.heapq.Repr)
      invariant Holds(c.Entries(), i)
    {
      r := OneSecond(c, i);
      observed := observed + [r];
      i := i + 1;
    }
  }

  /** The start of the walk-through: a new cache, "key" set to "val" for 5000 ms at time 0,
      and the first read 1 ms later. */
  method Start() returns (c: Cache<string>, r: Option<string>)
    ensures c.Valid() && fresh(c.heapq) && fresh(c.heapq.Repr)
    ensures Holds(c.Entries(), 0) && r == Expected(0)
  {
    c := new Cache<string>();
    c.Set("key", "val", 5000, 0);
    r := c.Get("key", ReadTime(0));
  }

  /** Round `i` of the loop, which ends with read `i + 1`. The sweeper's tick at
      `1000 * (i + 1)` falls in the sleep when it is due. On round 3 the second `Set` runs on
      waking. Then comes the read. */
  method OneSecond(c: Cache<string>, i: int) returns (r: Option<string>)
    requires 0 <= i < 15 && c.Valid() && Holds(c.Entries(), i)
    modifies c.heapq, c.heapq.Repr
    ensures c.Valid() && fresh(c.heapq.Repr - old(c.heapq.Repr))
    ensures Holds(c.Entries(), i + 1) && r == Expected(i + 1)
  {
    var t := i + 1;
    if t % 3 == 0 {
      c.CleanupTick(1000 * t);
    }
    if i == 3 {
      c.Set("key", "val2", 5000, ReadTime(t) - 1);
    }
    r := c.Get("key", ReadTime(t));
  }
}
