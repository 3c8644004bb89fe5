/**
 * `MemoryStore` (internal/store/memory.go) as a class whose methods update
 * its fields in place. Each method is proved to move the store exactly as
 * the matching function of StoreSpec does, and to keep the invariant.
 */
module MemoryStoreImpl {
  import opened ItemSeq
  import opened StoreSpec

  /**
   * The Range-and-Delete loop of `prune` over one tombstone map: delete every
   * tombstone recorded more than TTL before `now`, keep the others as they are.
   */
  method PurgeExpired(m: map<string, int>, now: int) returns (kept: map<string, int>)
    ensures forall k :: k in kept <==> k in m && now - m[k] <= TTL
    ensures forall k :: k in kept ==> kept[k] == m[k]
    ensures kept == PurgeTombstones(m, now)
  {
    kept := m;
    var keys := m.Keys;
    while keys != {}
      invariant keys <= m.Keys
      invariant forall k :: k in kept <==> k in m && (k in keys || now - m[k] <= TTL)
      invariant forall k :: k in kept ==> kept[k] == m[k]
      decreases keys
    {
      var key :| key in keys;
      if now - m[key] > TTL {
        kept := kept - {key};
      }
      keys := keys - {key};
    }
  }

  class MemoryStore {
    /** Index from id to its entry (Go: map from id to the list element). */
    var data: map<string, Item>
    /** Live entries in insertion order; front is oldest, back is newest. */
    var order: seq<Item>
    /** Tombstones of ids that were read, with the time they were burned. */
    var burned: map<string, int>
    /** Tombstones of ids that were evicted or expired, with the time. */
    var recycled: map<string, int>
    const maxMemory: int
    var curMemory: int
    var createdCount: nat
    var retrievedCount: nat
    /** The latest time the store was called with; time never goes back. */
    ghost var clock: int

    /** The fields as a StoreSpec value. */
    ghost function State(): Store
      reads this
    {
      Store(data, order, burned, recycled, maxMemory, curMemory, createdCount, retrievedCount)
    }

    ghost predicate Valid()
      reads this
    {
      Inv(State()) && CreatedBy(State(), clock)
    }

    /**
     * `NewMemoryStore`, without starting the cleanup goroutine; `now` only
     * starts the ghost clock.
     */
    constructor (maxMemory: int, ghost now: int)
      ensures Valid() && clock == now
      ensures State() == NewStore(maxMemory)
    {
      data := map[];
      order := [];
      burned := map[];
      recycled := map[];
      this.maxMemory := maxMemory;
      curMemory := 0;
      createdCount := 0;
      retrievedCount := 0;
      clock := now;
    }

    /**
     * `removeElement`: take `it` out of the list and the index, release its
     * size, and record a recycled tombstone at `now` when `isRecycled`.
     */
    method RemoveElement(it: Item, isRecycled: bool, now: int)
      requires Valid() && it in order
      modifies this
      ensures Valid() && clock == old(clock)
      ensures State() == StoreSpec.RemoveElement(old(State()), it, isRecycled, now)
      ensures |order| == |old(order)| - 1 && curMemory == old(curMemory) - it.size
    {
      ghost var before := State();
      ghost var after := StoreSpec.RemoveElement(before, it, isRecycled, now);
      RemoveElementPreservesInv(before, it, isRecycled, now);
      RemoveElementRemovesOne(before, it, isRecycled, now);
      CreatedBySubset(before, after, clock);
      order := Without(order, it.id);
      data := data - {it.id};
      curMemory := curMemory - it.size;
      recycled := if isRecycled then recycled[it.id := now] else recycled;
      assert State() == after;
    }

    /**
     * The eviction loop of `Save`: recycle the oldest entry until `size`
     * more bytes fit or the list is empty.
     */
    method MakeRoom(size: nat, now: int)
      requires Valid() && clock == now
      modifies this
      ensures Valid() && clock == now
      ensures State() == Evict(old(State()), size, now)
      ensures curMemory + size <= maxMemory || order == []
    {
      ghost var before := State();
      while curMemory + size > maxMemory
        invariant Valid() && clock == now
        invariant Evict(State(), size, now) == Evict(before, size, now)
        decreases |order|
      {
        if order == [] {
          break;
        }
        var elem := order[0];
        RemoveElement(elem, true, now);
      }
    }

    /** The last step of `Save`: push `it` at the back of the list, index and count it. */
    method PushBack(it: Item)
      requires Valid() && clock == it.createdAt && it.size == |it.data|
      requires it.id !in data && curMemory + it.size <= maxMemory
      modifies this
      ensures Valid() && clock == old(clock)
      ensures State() == Append(old(State()), it)
    {
      ghost var before := State();
      ghost var after := Append(before, it);
      AppendPreservesInv(before, it);
      CreatedByAppend(before, it, clock);
      assert after == before.(order := before.order + [it], data := before.data[it.id := it],
        curMemory := before.curMemory + it.size, createdCount := before.createdCount + 1);
      order := order + [it];
      data := data[it.id := it];
      curMemory := curMemory + it.size;
      createdCount := createdCount + 1;
      assert State() == after;
    }

    /**
     * `Save`: reject a payload larger than the limit, evict the oldest
     * entries until the payload fits, reject a still-live id, then append.
     */
    method Save(id: string, data: seq<Byte>, now: int) returns (err: Outcome)
      requires Valid() && clock <= now
      modifies this
      ensures Valid() && clock == now
      ensures (State(), err) == StoreSpec.Save(old(State()), id, data, now)
      ensures err == Pass ==> curMemory <= maxMemory && createdCount == old(createdCount) + 1
    {
      ghost var before := State();
      CreatedByLater(before, clock, now);
      clock := now;
      var size := |data|;
      if size > maxMemory {
        return Fail(TooLarge);
      }

      MakeRoom(size, now);

      var it := Item(id, data, now, size);
      if id in this.data {
        return Fail(Collision);
      }

      PushBack(it);
      SaveAppends(before, id, data, now);
      return Pass;
    }

    /**
     * `Get`: report a burned, then a recycled tombstone, then an unknown id;
     * otherwise remove the entry, count it and burn the id.
     */
    method Get(id: string, now: int) returns (res: Result<seq<Byte>>)
      requires Valid() && clock <= now
      modifies this
      ensures Valid() && clock == now
      ensures (State(), res) == StoreSpec.Get(old(State()), id, now)
      ensures res.Ok? ==> id in burned && id !in data
    {
      ghost var before := State();
      CreatedByLater(before, clock, now);
      clock := now;
      if id in burned {
        return Err(Burned);
      }
      if id in recycled {
        return Err(Recycled);
      }

      if id !in data {
        return Err(NotFound);
      }
      var payload := Retrieve(id, now);
      return Ok(payload);
    }

    /**
     * The locked part of a successful `Get`: remove the live entry, count it,
     * burn its id and hand back its payload.
     */
    method Retrieve(id: string, now: int) returns (payload: seq<Byte>)
      requires Valid() && clock == now
      requires id in data && id !in burned && id !in recycled
      modifies this
      ensures Valid() && clock == now
      ensures (State(), Ok(payload)) == StoreSpec.Get(old(State()), id, now)
      ensures id in burned && id !in data
    {
      ghost var before := State();
      var it := data[id];
      assert it in order && it.id == id;
      RemoveElement(it, false, now);
      Burn(id, now);
      assert State() == StoreSpec.Get(before, id, now).0;
      return it.data;
    }

    /** The last step of a successful `Get`: count the retrieval and burn `id` at `now`. */
    method Burn(id: string, now: int)
      requires Valid()
      modifies this
      ensures Valid() && clock == old(clock)
      ensures State() == old(State()).(retrievedCount := old(retrievedCount) + 1,
                                       burned := old(burned)[id := now])
    {
      retrievedCount := retrievedCount + 1;
      burned := burned[id := now];
    }

    /** `Stats`: memory in use, the limit, and the two counters. */
    method Stats() returns (used: int, limit: int, created: nat, retrieved: nat)
      requires Valid()
      ensures used == curMemory && limit == maxMemory
      ensures created == createdCount && retrieved == retrievedCount
      ensures used == SumSizes(order) && (used <= limit || order == [])
    {
      return curMemory, maxMemory, createdCount, retrievedCount;
    }

    /**
     * The front scan of `prune`: recycle entries from the front while they
     * are more than TTL old, stopping at the first that is not.
     */
    method ExpireOldest(now: int)
      requires Valid() && clock == now
      modifies this
      ensures Valid() && clock == now
      ensures State() == ExpireFront(old(State()), now)
      ensures order == [] || now - order[0].createdAt <= TTL
    {
      ghost var before := State();
      while order != []
        invariant Valid() && clock == now
        invariant ExpireFront(State(), now) == ExpireFront(before, now)
        decreases |order|
      {
        var it := order[0];
        if now - it.createdAt > TTL {
          RemoveElement(it, true, now);
        } else {
          break;
        }
      }
    }

    /** The second half of `prune`: forget burned and recycled tombstones older than TTL. */
    method PurgeTombstoneMaps(now: int)
      requires Valid()
      modifies this
      ensures Valid() && clock == old(clock)
      ensures State() == old(State()).(burned := PurgeTombstones(old(burned), now),
                                       recycled := PurgeTombstones(old(recycled), now))
    {
      ghost var before := State();
      burned := PurgeExpired(burned, now);
      recycled := PurgeExpired(recycled, now);
      assert State() == before.(burned := burned, recycled := recycled);
    }

    /**
     * `prune`: remove expired entries from the front, stopping at the first
     * that is not expired, then purge old burned and recycled tombstones.
     */
    method Prune(now: int)
      requires Valid() && clock <= now
      modifies this
      ensures Valid() && clock == now
      ensures State() == StoreSpec.Prune(old(State()), now)
      ensures forall x :: x in order ==> now - x.createdAt <= TTL
    {
      ghost var before := State();
      CreatedByLater(before, clock, now);
      clock := now;
      ExpireOldest(now);
      PurgeTombstoneMaps(now);
      PruneLeavesNoExpired(before, now);
    }
  }
}
