# Burn-on-read secret store, modelled in Dafny

This project models `MemoryStore`, the in-memory store at the heart of a
one-time secret exchange service (internal/store/memory.go). A client saves
opaque, already-encrypted bytes under an id. A second client reads them
exactly once: the read removes the entry and leaves a *burned* tombstone.
Memory use is bounded. When a new payload does not fit, the oldest entries
are evicted first (FIFO) and leave *recycled* tombstones. A periodic sweep
(`prune`) does two things. It expires entries older than 15 minutes, which
also become recycled. It then forgets tombstones older than 15 minutes.

Layout:

- `item_seq.dfy` (module `ItemSeq`): the entry (`item`) and the
  insertion-ordered list (Go's `container/list`) as a `seq<Item>`. It
  defines removal of an entry (`Without`), sizes, uniqueness and ordering,
  with their lemmas.
- `store_spec.dfy` (module `StoreSpec`): the store as a value (`Store`,
  one field per field of `MemoryStore`) and its invariant `Inv`. Each
  operation is a function from the old state to the new one (`Save`, `Get`,
  `RemoveElement`, `Evict`, `ExpireFront`, `Prune`), and lemmas state what
  each one guarantees.
- `memory_store.dfy` (module `MemoryStoreImpl`): class `MemoryStore` with
  the Go fields, updated in place by `Save`, `Get`, `RemoveElement` and
  `Prune`. These have the Go code's loops: eviction (`MakeRoom`), the front
  scan of `prune` (`ExpireOldest`), and the tombstone purge
  (`PurgeExpired`). Each loop and each final step of an operation is its
  own method, so every proof stays small. Each method of the class is
  proved to keep `Valid()`. Each one that changes state is also proved to
  leave the fields as the matching `StoreSpec` function of the old fields
  gives them, or, for `Burn` and `PurgeTombstoneMaps`, as an explicit update
  of the old fields says. `Stats` changes nothing.
- `store_properties.dfy` (module `StoreProperties`): properties over runs
  of calls. The invariant holds after any run. A read succeeds at most once:
  within TTL of the read every later `Get` reports `Burned`, and at any
  time, as long as the id is not saved again, no later `Get` succeeds. An
  entry evicted or expired is likewise never served while its recycled
  tombstone is younger than TTL. It
  also has the scenarios of the store's tests, and two lemmas showing where
  the code departs from what a caller might expect.

Time is an explicit `now: int` in nanoseconds, the unit of Go's
`time.Duration`. The TTL is 15 minutes (`15 * 60 * 1_000_000_000`). The
class keeps a ghost `clock` and requires that `now` never goes back. This is
what keeps the list sorted by creation time, and so makes the early exit of
`prune` sound.

Two behaviours of the code a caller might not expect, which the model
follows:

- One might expect no id to be live and tombstoned at once. But `Save`
  (internal/store/memory.go:52-93) never reads or clears tombstones, so a
  burned or recycled id can be saved again. It is then live and tombstoned,
  and `Get` reports the tombstone (`ResavedIdStaysBurned`). `Inv` therefore
  does not claim that live and tombstoned ids are disjoint.
- One might expect a rejected collision to change nothing. But the check
  at internal/store/memory.go:83-85 runs after the eviction loop at 62-73,
  so a failing `Save` may already have evicted and recycled entries
  (`CollisionAfterEviction`). The code also returns a generic
  `errors.New("id collision")`, not a sentinel. The model names it
  `Collision`.

`NewMemoryStore` accepts any limit, including a negative one. With a
negative limit every `Save` is `TooLarge`. So the invariant reads "memory in
use is within the limit, or the store is empty".

## Model

| member | source | states |
|---|---|---|
| ItemSeq.Without | internal/store/memory.go:130 | removing the element holding an id keeps exactly the entries with other ids, and shortens the list when such an element was present |
| ItemSeq.WithoutConcat | internal/store/memory.go:130 | removing an id from two lists joined is removing it from each and joining the results |
| ItemSeq.WithoutKeepsOrder | internal/store/memory.go:130 | with unique ids, removing the id of the i-th entry leaves the entries before it followed by the entries after it, in their order |
| ItemSeq.WithoutOne | internal/store/memory.go:130 | removing a present entry takes out that one entry and nothing else (multiset difference) |
| ItemSeq.WithoutFront | internal/store/memory.go:64-72 | with unique ids, removing the front element's id pops exactly the front of the list |
| ItemSeq.WithoutUnique | internal/store/memory.go:130 | removal keeps ids unique |
| ItemSeq.WithoutSorted | internal/store/memory.go:130 | removal keeps the list sorted by creation time |
| ItemSeq.WithoutAbsent | internal/store/memory.go:130 | removing an id no entry carries changes nothing |
| ItemSeq.SumSizesWithout | internal/store/memory.go:130-132 | removing one entry lowers the total size by exactly its size |
| ItemSeq.SumSizesAppend | internal/store/memory.go:87-89 | appending an entry at the back adds exactly its size |
| ItemSeq.UniqueSnoc | internal/store/memory.go:83-87 | appending an entry whose id no entry carries keeps ids unique |
| ItemSeq.SortedSnoc | internal/store/memory.go:79-87 | appending an entry created no earlier than every entry keeps the list sorted by creation time |
| StoreSpec.NewStore | internal/store/memory.go:40-49 | a new store is empty, has no tombstones, uses no memory, has both counters at zero, carries the given limit and satisfies the invariant |
| StoreSpec.RemoveElement | internal/store/memory.go:128-137 | removeElement touches neither burned tombstones, limit nor either counter |
| StoreSpec.Append | internal/store/memory.go:87-90 | the list is one longer with the new entry last, the index maps its id to it, and the creation counter is one higher |
| StoreSpec.AppendKeepsOthers | internal/store/memory.go:87-88 | appending keeps every old entry in its place, indexes exactly one more id and keeps the other ids' entries |
| StoreSpec.Save | internal/store/memory.go:52-93 | the outcome is success, TooLarge or the collision error; burned tombstones, limit and retrieved counter are untouched; on success the id is indexed with the given bytes |
| StoreSpec.Get | internal/store/memory.go:96-123 | an error changes nothing; success returns the bytes indexed under the id and burns the id at now; recycled tombstones and the limit are untouched |
| StoreSpec.PurgeTombstones | internal/store/memory.go:177-193 | the Range/Delete purge keeps a subset of the tombstones, with their times, containing exactly those at most TTL old |
| StoreSpec.Prune | internal/store/memory.go:155-194 | prune keeps only old entries, leaves the oldest at most TTL old, keeps only old burned tombstones at most TTL old, leaves every recycled tombstone at most TTL old, and keeps limit and creation counter |
| StoreSpec.Evict | internal/store/memory.go:62-73 | the eviction loop ends with the payload fitting or the list empty; it only removes entries and touches neither burned tombstones, limit nor counters |
| StoreSpec.ExpireFront | internal/store/memory.go:161-175 | the front scan ends with the list empty or its oldest entry at most TTL old; it only removes entries |
| StoreSpec.RemoveElementPreservesInv | internal/store/memory.go:128-137 | removing a live entry keeps the invariant (index and list agree, ids unique, list sorted, memory use is the sum of live sizes and within the limit) |
| StoreSpec.RemoveElementRemovesOne | internal/store/memory.go:128-137 | removeElement takes exactly that one entry out of list and index, lowers memory use by its size, adds a recycled tombstone at now only when isRecycled and leaves burned tombstones alone |
| StoreSpec.RemoveElementKeepsOrder | internal/store/memory.go:128-137 | removing the i-th entry leaves the entries before it followed by those after it, in their order |
| StoreSpec.RemoveFront | internal/store/memory.go:64-72 | removing the oldest entry pops the front of the list |
| StoreSpec.RemoveFrontInv | internal/store/memory.go:72 | recycling the oldest entry keeps the invariant |
| StoreSpec.RecycleFrontStep | internal/store/memory.go:62-73 | recycling the front entry and then a prefix of the rest recycles the longer prefix |
| StoreSpec.EvictPreservesInv | internal/store/memory.go:62-73 | eviction keeps the invariant |
| StoreSpec.EvictShrinksIndex | internal/store/memory.go:62-73 | eviction indexes no id that was not indexed before |
| StoreSpec.EvictIsFifo | internal/store/memory.go:62-73 | eviction removes and recycles (at now) exactly a prefix of the list, the oldest entries, and each removal was needed to make room |
| StoreSpec.ExpireFrontPreservesInv | internal/store/memory.go:161-175 | expiry keeps the invariant |
| StoreSpec.ExpireFrontShrinksIndex | internal/store/memory.go:161-175 | expiry indexes no id that was not indexed before |
| StoreSpec.ExpireFrontIsFifo | internal/store/memory.go:161-175 | expiry removes and recycles exactly a prefix of the list, every entry of which is more than TTL old |
| StoreSpec.AllExpiredStep | internal/store/memory.go:161-175 | an expired oldest entry followed by an expired prefix of the rest is an expired prefix one longer |
| StoreSpec.EvictKeepsRecycled | internal/store/memory.go:62-73 | eviction keeps every recycled tombstone and adds or re-dates only ones at now (through the removeElement at 134-136) |
| StoreSpec.ExpireFrontKeepsRecycled | internal/store/memory.go:170 | expiry keeps every recycled tombstone and adds only ones dated now |
| StoreSpec.AppendPreservesInv | internal/store/memory.go:87-90 | appending a fresh entry that fits, created no earlier than the live ones, keeps the invariant |
| StoreSpec.SavePreservesInv | internal/store/memory.go:52-93 | Save keeps the invariant (index and list agree, list sorted, memory use is the sum of live sizes and within the limit) |
| StoreSpec.SaveFailures | internal/store/memory.go:52-85 | the only errors are TooLarge and the collision; TooLarge exactly when the payload exceeds the limit, and then nothing changes; Collision exactly when the id is still live after eviction, and then only the eviction happened |
| StoreSpec.SaveSucceeds | internal/store/memory.go:76-92 | on success the new entry is appended at the back and indexed, memory use grows by its size and is within the limit, the creation counter is one higher, burned tombstones and the retrieved counter unchanged |
| StoreSpec.SaveIsFifo | internal/store/memory.go:62-92 | a successful Save leaves a suffix of the old list plus the new entry; the dropped prefix is recycled at now and each drop was needed |
| StoreSpec.GetChecksTombstonesFirst | internal/store/memory.go:96-111 | Burned iff burned tombstone; else Recycled iff recycled tombstone; else NotFound iff not live; success otherwise; errors change nothing |
| StoreSpec.GetBurnsEntry | internal/store/memory.go:108-122 | success returns the stored bytes, removes the entry from index and list keeping the others in their order, lowers memory use by its size, bumps the retrieved counter and burns the id at now |
| StoreSpec.GetPreservesInv | internal/store/memory.go:96-123 | Get keeps the invariant and brings in no newer entry |
| StoreSpec.PrunePreservesInv | internal/store/memory.go:155-194 | prune keeps the invariant and brings in no newer entry |
| StoreSpec.PruneLeavesNoExpired | internal/store/memory.go:161-175 | after prune no live entry is more than TTL old, the early exit being sound because the list is sorted |
| StoreSpec.PruneExpiresPrefix | internal/store/memory.go:161-175 | prune removes a prefix of the list, all expired, each left with a recycled tombstone dated now |
| StoreSpec.PrunePurgesTombstones | internal/store/memory.go:177-193 | prune keeps exactly the burned tombstones at most TTL old, unchanged, keeps every recycled tombstone at most TTL old, and leaves none older |
| MemoryStoreImpl.PurgeExpired | internal/store/memory.go:177-193 | the Range/Delete loop keeps exactly the tombstones at most TTL old, with their times |
| MemoryStoreImpl.MemoryStore.constructor | internal/store/memory.go:40-49 | a new store is valid and equals the empty store with the given limit |
| MemoryStoreImpl.MemoryStore.RemoveElement | internal/store/memory.go:128-137 | the fields afterwards are those of StoreSpec.RemoveElement; the list is one shorter, memory use lower by the entry's size, the invariant kept |
| MemoryStoreImpl.MemoryStore.MakeRoom | internal/store/memory.go:62-73 | the eviction loop leaves the fields equal to StoreSpec.Evict of the old ones, the invariant kept, and the payload fitting or the list empty |
| MemoryStoreImpl.MemoryStore.PushBack | internal/store/memory.go:87-90 | pushing a fresh entry that fits leaves the fields equal to StoreSpec.Append of the old ones and keeps the invariant |
| MemoryStoreImpl.MemoryStore.Save | internal/store/memory.go:52-93 | the fields and the error afterwards are those of StoreSpec.Save; on success memory use is within the limit and the creation counter one higher |
| MemoryStoreImpl.MemoryStore.Get | internal/store/memory.go:96-123 | the fields and the result afterwards are those of StoreSpec.Get; on success the id is burned and no longer indexed |
| MemoryStoreImpl.MemoryStore.Retrieve | internal/store/memory.go:108-122 | the success path of Get: the fields and the bytes afterwards are those of StoreSpec.Get; the id is burned and no longer indexed |
| MemoryStoreImpl.MemoryStore.Burn | internal/store/memory.go:117-120 | counts one more retrieval and adds a burned tombstone at now, nothing else changes, the invariant kept |
| MemoryStoreImpl.MemoryStore.Stats | internal/store/memory.go:140-144 | returns memory use, limit and both counters without change; memory use is the sum of live sizes and within the limit |
| MemoryStoreImpl.MemoryStore.ExpireOldest | internal/store/memory.go:161-175 | the front scan leaves the fields equal to StoreSpec.ExpireFront of the old ones, the invariant kept, and the oldest remaining entry at most TTL old |
| MemoryStoreImpl.MemoryStore.PurgeTombstoneMaps | internal/store/memory.go:177-193 | only the two tombstone maps change, each to its tombstones at most TTL old; the invariant kept |
| MemoryStoreImpl.MemoryStore.Prune | internal/store/memory.go:155-194 | the fields afterwards are those of StoreSpec.Prune; no live entry is more than TTL old |
| StoreProperties.ApplyPreservesInv | internal/store/memory.go:52-194 | any one call made no earlier than the live entries keeps the invariant |
| StoreProperties.RunPreservesInv | internal/store/memory.go:52-194 | after any run of calls in time order the invariant holds: ids unique, list sorted, index and list agree, memory use the sum of live sizes and within the limit |
| StoreProperties.BurnedSurvivesCall | internal/store/memory.go:98-100 | a burned tombstone survives any one call made within TTL of its date, unchanged |
| StoreProperties.BurnedPersists | internal/store/memory.go:178-184 | a burned tombstone survives every run of calls made within TTL of its date, unchanged |
| StoreProperties.RecycledSurvivesCall | internal/store/memory.go:52-194 | a recycled tombstone survives any one call made no earlier than its date and within TTL of it, at most re-dated to the call's time |
| StoreProperties.RecycledPersists | internal/store/memory.go:187-193 | a recycled tombstone survives every time-ordered run of calls made within TTL of its date, never dated earlier |
| StoreProperties.RecycledNeverServed | internal/store/memory.go:96-103 | while its recycled tombstone is younger than TTL, every Get of an evicted or expired id reports Burned or Recycled, never NotFound and never the bytes |
| StoreProperties.AtMostOneSuccessfulGet | internal/store/memory.go:96-123 | after a successful Get, every Get of that id within TTL reports Burned, whatever calls come in between |
| StoreProperties.ApplyKeepsAbsent | internal/store/memory.go:52-194 | a call that is not a Save of an id leaves that id unindexed if it was |
| StoreProperties.RunKeepsAbsent | internal/store/memory.go:52-194 | a run of calls with no Save of an id leaves that id unindexed if it was |
| StoreProperties.NoSecondSuccessfulGet | internal/store/memory.go:96-123 | after a successful Get, no later Get of that id succeeds, at any time, unless a call in between saves that id again |
| StoreProperties.SaveFreshIdNoTombstone | internal/store/memory.go:62-92 | saving a fresh id leaves no tombstone for it |
| StoreProperties.BurnedGets | internal/store/memory.go:98-100 | in a run of nothing but Gets, every Get of a burned id reports Burned, at any time |
| StoreProperties.ExactlyOnce | internal/store/memory_test.go:34-60 | after saving a fresh id, a run of Gets of it, at any times, returns the saved bytes on the first call and Burned on every other |
| StoreProperties.RecycleScenario | internal/store/recycle_test.go:7-49 | limit 20, two 13-byte saves: the first is Recycled, the second read once with its bytes, then Burned |
| StoreProperties.BurnScenario | internal/store/burn_test.go:7-37 | save, read returns the bytes, read again is Burned, an unknown id is NotFound |
| StoreProperties.TooLargeScenario | internal/store/memory.go:53-56 | an oversized payload is refused with TooLarge, nothing is stored, and Get reports NotFound |
| StoreProperties.ExpiryScenario | internal/store/memory.go:155-193 | an entry unread past TTL is expired and reported Recycled; once the tombstone is past TTL it is forgotten and Get reports NotFound |
| StoreProperties.CollisionAfterEviction | internal/store/memory.go:62-85 | a Save of a live id can evict and recycle older entries before failing with the collision error |
| StoreProperties.ResavedIdStaysBurned | internal/store/memory.go:52-103 | a read id can be saved again, is then live and burned at once, and Get reports Burned without change |

## Left out

- Concurrency: the mutex, the two `sync.Map`s and their independent
  locking, and the cleanup goroutine with its one-minute ticker. The model
  is sequential. The 50-goroutine test becomes the sequential
  `ExactlyOnce`.
- `StoreProperties.ExactlyOnce`: "`Burned` on every other read" holds only
  for sequential calls. `Get` checks the tombstones before taking the lock
  (internal/store/memory.go:98-105), so a concurrent `Get` that checked
  before the winner's `burned.Store` (line 120) gets `ErrNotFound`, not
  `ErrBurned`. internal/store/memory_test.go:34-60 asserts only the number
  of successes, which the sequential model does cover.
- Wall-clock time: `time.Now()` is an explicit `now` argument. One `now`
  serves a whole call, while Go reads the clock again for each eviction and
  for the new entry's creation time. Those readings are monotone and within
  one call, so the model collapses them.
- `time.Duration` saturation and int64 wrap-around of `curMemory`, the
  sums in the eviction test, and the counters: integers are unbounded here.
- `MemoryStoreImpl.MemoryStore.RemoveElement`: takes the removed entry's
  value rather than a list element. Go's O(1) `list.Remove` of a doubly
  linked node is modelled as removing the entry with that id from a
  sequence (`Without`). Ids are unique, so this is the same element. Node
  identity and aliasing are not modelled.
- The HTTP handlers, request parsing, id and key generation, the AES-GCM
  wrapper, server wiring and the stats endpoint's percentage: they sit
  outside the store. internal/store/interface.go holds only signatures.
