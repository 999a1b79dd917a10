# TTL cache: a verified model of the expiry index and the cache façade

This project models the in-memory core of the Go TTL cache in `cache-ttl/cache.go`. It does
so in Dafny and proves properties of the model.

The cache stores each key together with a value and a deadline. Behind it sits an
*expiry index* (type `heapq`). The index has two parts:

- a binary min-heap of `*Item` ordered by expiry: the slice `PriorityQueue`, which
  implements Go's `heap.Interface`;
- a map `byKey` from each key to the very same item object.

Every item records its own slot in `index`, and `Swap`, `Push` and `Pop` keep it up to date.
That is what lets `upsert` overwrite an item in place and re-fix only its slot.

On top of the index, the façade offers three operations:

- `Set` arms a key until `now + ttl`.
- `Get` answers only for keys whose deadline is not strictly before `now`.
- A background ticker periodically calls `cleanPastTTL`, which pops expired items from the
  root of the heap.

The project has four modules:

- `HeapOrder` (`heap_order.dfy`) holds the order facts for the implicit binary tree over
  expiry times. A slot `k > 0` has parent `(k - 1) / 2`. The module covers heap order, the
  "disorder" states that `up` and `down` pass through, and one lemma per sift step.
- `ExpiryIndex` (`expiry_index.dfy`) contains the following:
  - the class `Item`;
  - the class `Heapq`, which holds the priority queue's `Len`, `Less`, `Swap`, `Push`, `Pop`
    and `update`;
  - the container/heap algorithms `up`, `down`, `Push`, `Pop` and `Fix`, written out as
    methods with loop invariants;
  - `upsert`, `Get` and `cleanPastTTL`.

  The invariant `Valid()` says five things:
  - every item in the heap belongs to the index's footprint `Repr`;
  - the heap is in heap order on expiry;
  - every item's `index` is its slot;
  - `byKey` maps exactly the keys of the heap's items, each to the item carrying that key;
  - the ghost map `contents`, which is what callers can observe, holds each key's value
    and expiry.
- `TtlCache` (`ttl_cache.dfy`) contains the class `Cache`, with `Set`, `Get` and one sweeper
  tick. It also holds the caller-level laws, stated on the map of entries.
- `CacheDemo` (`demo.dfy`) is the walk-through of `cmd/cache-ttl/main.go` as a verified
  client. The clock runs in milliseconds: every sleep lasts exactly 1000 ms and every `Set`
  or `Get` takes 1 ms, so a later statement reads a later time. Under that timing the model
  proves the program's sixteen answers.

Time is an integer: the source's `time.Now()` becomes a parameter `now`. `Before` is
strict `<`, so an entry whose deadline equals `now` is still live and is not swept. Go's
`(j - 1) / 2` truncates towards zero, so in `up` the root counts as its own parent. The model
writes this out.

## Model

| member | source | states |
|---|---|---|
| ExpiryIndex.Item.constructor | cache-ttl/cache.go:84 | A new item carries the given value, key and expiry. Its `index` keeps Go's zero value until `Push` sets it. |
| ExpiryIndex.Heapq.constructor | cache-ttl/cache.go:23-26 | The empty index (empty slice, empty map) satisfies the invariant and holds no entries. |
| ExpiryIndex.Heapq.Len | cache-ttl/cache.go:110 | The number of slots of the heap. |
| ExpiryIndex.Heapq.Less | cache-ttl/cache.go:112-115 | Slot `i` sorts first exactly when its expiry is strictly before slot `j`'s. |
| ExpiryIndex.Heapq.Swap | cache-ttl/cache.go:117-121 | The two slots are exchanged and every other slot is unchanged. Both moved items record their new slots. The expiries are permuted the same way, the multiset of items is kept, and index consistency is preserved. |
| ExpiryIndex.Heapq.Push | cache-ttl/cache.go:123-128 | The item is appended at slot n and its `index` becomes n. The old slots are untouched and the length grows by one. Index consistency is kept when the item was not already in the heap. |
| ExpiryIndex.Heapq.Pop | cache-ttl/cache.go:130-138 | Removes and returns the last slot's item and sets its `index` to -1. The other slots are untouched and the length shrinks by one. When the indices were consistent beforehand, the returned item is no longer in the heap. |
| ExpiryIndex.Heapq.Up | cache-ttl/cache.go:142 | container/heap's `up`: from a heap that is disordered only on the edge into slot `j0`, sifting up restores heap order. The items are permuted, not changed. |
| ExpiryIndex.Heapq.Down | cache-ttl/cache.go:142 | container/heap's `down` over the first `n` slots. If the item moved, the first `n` slots are in heap order. If it did not move, nothing changed and only the edge into `i0` can be out of order. Slots from `n` on are untouched and the items are permuted. |
| ExpiryIndex.Heapq.DownOnce | cache-ttl/cache.go:142 | One iteration of `down`. It either stops at slot `i`, with the ordering facts above, or exchanges `i` with its earlier child and moves the disorder to that child. |
| ExpiryIndex.Heapq.HeapFix | cache-ttl/cache.go:142 | heap.Fix: sift down, and if nothing moved, sift up. Starting from a heap whose slot `i` had its expiry overwritten, it restores heap order and permutes the items. |
| ExpiryIndex.Heapq.Update | cache-ttl/cache.go:141-143 | PriorityQueue.update re-fixes the item's slot and ignores its `key` and `expiry` arguments. Afterwards the heap is in order with the same items. |
| ExpiryIndex.Heapq.HeapPush | cache-ttl/cache.go:85 | heap.Push: the heap gains exactly the new item, stays in heap order and keeps every `index` equal to its slot. |
| ExpiryIndex.Heapq.HeapPop | cache-ttl/cache.go:67 | heap.Pop returns the old root and sets its `index` to -1. The heap loses exactly that item and stays in heap order with consistent indices. |
| ExpiryIndex.Heapq.RootToEnd | cache-ttl/cache.go:67 | The first steps of heap.Pop. The root is exchanged with the last slot and sifted down. The first n slots are then in heap order and the old root sits in the last slot. |
| ExpiryIndex.Heapq.Upsert | cache-ttl/cache.go:73-87 | The entry for `key` becomes (value, expiry) and every other key keeps its entry. The invariant holds afterwards. For a present key, the same item stays registered and the size is unchanged. For an absent key, a fresh item is registered and the heap grows by one. |
| ExpiryIndex.Heapq.Overwrite | cache-ttl/cache.go:75-81 | The update branch of `upsert`. The same map and the same items remain, and the size is unchanged. Only `key`'s entry changes. The invariant is restored by re-fixing the slot. |
| ExpiryIndex.Heapq.Store | cache-ttl/cache.go:76-78 | The in-place writes of the update branch. The item registered under the key takes the new value and expiry, and the entries follow. Heap order is broken at most around that item's slot, which is the state heap.Fix repairs. |
| ExpiryIndex.Heapq.Insert | cache-ttl/cache.go:83-86 | The insert branch of `upsert`. The heap grows by one and `key` maps to the fresh item. Only `key`'s entry changes, and the invariant holds. |
| ExpiryIndex.Heapq.Get | cache-ttl/cache.go:89-96 | The answer is the key's value when the key is present and its expiry is not strictly before `now`, and None otherwise. Nothing is modified. |
| ExpiryIndex.Heapq.DropRoot | cache-ttl/cache.go:66-67 | One round of the sweep loop. The root's key is deleted from `byKey` and the root is popped. The entries lose exactly the root's key, the heap shrinks by one, and the invariant holds. |
| ExpiryIndex.Heapq.CleanPastTTL | cache-ttl/cache.go:63-71 | The entries afterwards are exactly the old entries whose expiry is not strictly before `now`, with their values and expiries unchanged. The heap is then empty or its root is live, and the invariant holds. The loop ends because the heap shrinks in every round. |
| ExpiryIndex.Heapq.SlotOf | cache-ttl/cache.go:103-104 | Every registered key's item sits in the heap at the slot its `index` names. |
| ExpiryIndex.Heapq.KeysUnique | cache-ttl/cache.go:58-61 | Distinct slots of the heap carry distinct keys, so there is at most one item per key. |
| ExpiryIndex.Heapq.SizeAgrees | cache-ttl/cache.go:58-61 | `byKey` holds exactly as many keys as the heap holds items. |
| ExpiryIndex.Heapq.ValidAfterReorder | cache-ttl/cache.go:79 | After the heap's items are permuted, with the map and entries kept, the invariant holds again. |
| ExpiryIndex.Heapq.ValidAfterPush | cache-ttl/cache.go:85-86 | After pushing a fresh item and registering it under its new key, the invariant holds again. |
| ExpiryIndex.Heapq.ValidAfterPop | cache-ttl/cache.go:66-67 | After popping an item and deleting its key, the invariant holds again. |
| ExpiryIndex.LinkedAfterReorder | cache-ttl/cache.go:79 | Permuting the heap's items keeps the key map linked to exactly those items. |
| ExpiryIndex.LinkedAfterPush | cache-ttl/cache.go:85-86 | Adding an item and mapping its fresh key to it keeps the map linked to exactly the heap's items. |
| ExpiryIndex.LinkedAfterPop | cache-ttl/cache.go:66-67 | Removing an item and deleting its key keeps the map linked to exactly the heap's items. |
| ExpiryIndex.SweepDropsExpired | cache-ttl/cache.go:65-66 | Deleting an already-expired key does not change what a sweep keeps. |
| ExpiryIndex.SweepKeepsLive | cache-ttl/cache.go:65 | A sweep leaves unchanged a map none of whose entries is expired. |
| ExpiryIndex.DistinctCardinality | cache-ttl/cache.go:58-61 | A sequence without repetitions has as many distinct elements as slots. This is used to count the keys. |
| ExpiryIndex.Heapq.Expiries | cache-ttl/cache.go:102 | The sequence of the heap's expiries: as long as the heap, with each slot's item's expiry at that slot. |
| ExpiryIndex.Lookup | cache-ttl/cache.go:89-96 | The answer for a key at time `now`: its value when it is present and its expiry is not strictly before `now`, and None otherwise. |
| ExpiryIndex.Sweep | cache-ttl/cache.go:65-67 | The entries a sweep at `now` keeps: exactly those whose expiry is not strictly before `now`, unchanged (see `TtlCache.SweepKeepsExactlyLive`). |
| HeapOrder.Parent | cache-ttl/cache.go:142 | The parent slot `(k - 1) / 2` of slot `k > 0` in container/heap's implicit tree. |
| HeapOrder.Swapped | cache-ttl/cache.go:118 | A sequence with two slots exchanged. `Swap` and the sift lemmas are stated through it. |
| HeapOrder.RootIsEarliest | cache-ttl/cache.go:112-115 | In heap order, the root's expiry is no later than any slot's. |
| HeapOrder.UpStep | cache-ttl/cache.go:85 | One step of `up`. When slot `j` expires before its parent, exchanging them moves the only disorder to the edge into the parent. |
| HeapOrder.DownStep | cache-ttl/cache.go:67 | One step of `down`. Exchanging a slot with its earlier, strictly earlier-expiring child moves the disorder to that child's edges. |
| HeapOrder.DownStepEdge | cache-ttl/cache.go:67 | Part of `DownStep`: after the exchange, the edge into every slot that is not a child of `j` is in order. |
| HeapOrder.DownDone | cache-ttl/cache.go:67 | When `down` stops because no child expires strictly first, the first n slots are ordered if anything moved. Otherwise they are ordered except on the edge into the start slot. |
| HeapOrder.PopSwapSiftsFromRoot | cache-ttl/cache.go:67 | Moving the last slot of a heap to the root leaves the first n-1 slots in the state `down` repairs from the root. |
| HeapOrder.OverwriteSiftsFrom | cache-ttl/cache.go:77-79 | Overwriting one slot's expiry in a heap leaves the state heap.Fix repairs at that slot. |
| HeapOrder.AppendSiftsUp | cache-ttl/cache.go:85 | Appending to a heap leaves only the edge into the new slot to repair, which is `up`'s precondition. |
| HeapOrder.OrderedPrefix | cache-ttl/cache.go:136 | Heap order on the first n slots is heap order of the slice truncated to n. |
| HeapOrder.LastSplitsElements | cache-ttl/cache.go:133-136 | A non-empty slice holds exactly its prefix's elements plus its last element. |
| HeapOrder.SwapKeepsElements | cache-ttl/cache.go:118 | Exchanging two slots keeps the multiset of items. |
| HeapOrder.SwapKeepsSuffix | cache-ttl/cache.go:118 | Exchanging two slots before `n` leaves every slot from `n` on unchanged, so `down` over the first `n` slots never touches the rest. |
| TtlCache.Deadline | cache-ttl/cache.go:48 | The deadline `now + ttl` of an entry stored at `now` for `ttl`. |
| TtlCache.Cache.constructor | cache-ttl/cache.go:20-30 | A new cache satisfies the invariant and holds no entries. |
| TtlCache.Cache.Set | cache-ttl/cache.go:45-50 | The key's entry becomes (value, now + ttl), every other entry is kept, and the invariant holds. |
| TtlCache.Cache.Get | cache-ttl/cache.go:52-56 | The answer is the key's value when the key is present with a deadline not strictly before `now`, and None otherwise. Nothing is modified. |
| TtlCache.Cache.CleanupTick | cache-ttl/cache.go:38-41 | One sweeper tick: the entries become exactly the live ones, and the invariant holds. |
| TtlCache.SetThenGet | cache-ttl/cache.go:45-50 | After `Set(k, v, ttl)` at time t, `Get(k)` answers v exactly when `now <= t + ttl`, and None after that deadline. |
| TtlCache.SetSupersedes | cache-ttl/cache.go:75-78 | A later `Set` of the same key replaces both the value and the deadline of the earlier one. |
| TtlCache.SetLeavesOthers | cache-ttl/cache.go:73-87 | Setting one key never changes the answer for another key. |
| TtlCache.SweepInvisible | cache-ttl/cache.go:63-71 | A sweep at `now` changes no answer of a `Get` at `now` or later. |
| TtlCache.SweepKeepsExactlyLive | cache-ttl/cache.go:65-67 | A key survives a sweep if and only if it was present and not expired, and a survivor keeps its entry. |
| CacheDemo.Start | cmd/cache-ttl/main.go:11-14 | The cache is created and "key" is set to "val" for 5000 ms at time 0. The read 1 ms later answers "val". |
| CacheDemo.OneSecond | cmd/cache-ttl/main.go:15-23 | One round of the loop: a 1000 ms sleep, with the sweeper's tick inside it every third round, then the second `Set` on round 3, then the read. The read answers the expected value, and the state is what that read number promises. |
| CacheDemo.DemoScenario | cmd/cache-ttl/main.go:10-24 | The program's sixteen reads answer "val" for reads 0-3, "val2" for reads 4-8 and nothing for reads 9-15. "val2" is set at 4004 ms with deadline 9004 ms, so read 9, at 9010 ms, is strictly past it. |

## Left out

- The `sync.RWMutex` and the cleanup goroutine (cache-ttl/cache.go:11, 22, 28, 34-43) are left out because they are concurrency. One tick of the ticker is one call to `Cache.CleanupTick`, and each `Set`/`Get` runs as if it held the lock. `CacheDemo` fixes one interleaving: the ticks run at 3000, 6000, 9000, 12000 and 15000 ms, each during the sleep before reads 3, 6, 9, 12 and 15.
- `time.Now()`, `time.Time` and `time.Duration` are integers, and the clock is the parameter `now`. There is no overflow or monotonic-clock behaviour.
- ExpiryIndex.Heapq.CleanPastTTL: the source reads `time.Now()` afresh in every loop test (cache-ttl/cache.go:65). The model uses one instant `now` for the whole sweep.
- The `fmt.Println` logging in `cleanPastTTL` (cache-ttl/cache.go:64, 69) is I/O with no effect on the state.
- The `old[n-1] = nil` write in `Pop` (cache-ttl/cache.go:134) is a garbage-collection hint. The model only shrinks the slice.
- Go's `int` is modelled as unbounded. So `down`'s overflow guard `j1 < 0` can never fire and is not modelled, and slot arithmetic cannot wrap.
- The item's key is a constant field. The one write to it in the source (cache-ttl/cache.go:78) stores the key the item already carries, and `ExpiryIndex.Heapq.Overwrite` asserts exactly that about the item it finds under `key`.
- The `any` payload is a type parameter `V`. The interface `CacheInterface` (cache-ttl/cache.go:15-18) is represented by the class `Cache` itself.
- The ghost field `contents` of `Heapq` is a map of what callers can observe. It has no counterpart in the source, and the invariant ties it to `byKey` and the items.
- go-conc/scatter_gather.go is not part of this model; it is network and concurrency code that is unrelated to the cache.
- main/cache_main.go is not part of this model; it duplicates the walk-through of `cmd/cache-ttl/main.go`, with the two results of `Get` bound to swapped names.
- The printing in `cmd/cache-ttl/main.go` is not modelled. `CacheDemo.DemoScenario` returns the values that would be printed.
- CacheDemo.DemoScenario: it proves the answers for one timing, with sleeps of exactly 1000 ms and 1 ms per `Set` or `Get`. A machine that is slow enough (for example, a second or more between two statements) can produce other answers, and the model does not cover such timings.
