/**
 * Properties of the store over several calls: the invariant holds after any
 * run of calls, a read is destructive and succeeds at most once per burned
 * tombstone, and the scenarios of internal/store's tests.
 */
module StoreProperties {
  import opened ItemSeq
  import opened StoreSpec

  /** One call on the store, with the time it is made at. */
  datatype Call =
    | SaveCall(id: string, data: seq<Byte>, at: int)
    | GetCall(id: string, at: int)
    | PruneCall(at: int)

  /** The store after one call. */
  function Apply(st: Store, c: Call): Store
  {
    match c
    case SaveCall(id, data, at) => Save(st, id, data, at).0
    case GetCall(id, at) => Get(st, id, at).0
    case PruneCall(at) => Prune(st, at)
  }

  /** The store after a sequence of calls, made one after another. */
  function Run(st: Store, calls: seq<Call>): Store
    decreases |calls|
  {
    if calls == [] then st else Run(Apply(st, calls[0]), calls[1..])
  }

  /** The results of successive `Get`s of `id` at the given times. */
  function GetResults(st: Store, id: string, times: seq<int>): (rs: seq<Result<seq<Byte>>>)
    ensures |rs| == |times|
    decreases |times|
  {
    if times == [] then []
    else
      var (st1, res) := Get(st, id, times[0]);
      [res] + GetResults(st1, id, times[1..])
  }

  /** The calls are made no earlier than `t` and in order of time. */
  ghost predicate InTimeOrder(t: int, calls: seq<Call>)
  {
    && (forall i :: 0 <= i < |calls| ==> t <= calls[i].at)
    && (forall i, j :: 0 <= i < j < |calls| ==> calls[i].at <= calls[j].at)
  }

  /** One call, made no earlier than any live entry, keeps the invariant. */
  lemma ApplyPreservesInv(st: Store, c: Call)
    requires Inv(st) && CreatedBy(st, c.at)
    ensures Inv(Apply(st, c)) && CreatedBy(Apply(st, c), c.at)
  {
    match c
    case SaveCall(id, data, at) => SavePreservesInv(st, id, data, at);
    case GetCall(id, at) => GetPreservesInv(st, id, at, at);
    case PruneCall(at) => PrunePreservesInv(st, at, at);
  }

  /**
   * Capacity and consistency at all times: after any run of calls made in
   * time order, index and list agree, the list is sorted by creation time,
   * and the memory in use is the sum of the live sizes, within the limit.
   */
  lemma {:induction false} RunPreservesInv(st: Store, t: int, calls: seq<Call>)
    requires Inv(st) && CreatedBy(st, t) && InTimeOrder(t, calls)
    ensures Inv(Run(st, calls))
    decreases |calls|
  {
    if calls != [] {
      var c := calls[0];
      ApplyPreservesInv(st, c);
      RunPreservesInv(Apply(st, c), c.at, calls[1..]);
    }
  }

  /** A burned tombstone survives any one call made within TTL of its date. */
  lemma BurnedSurvivesCall(st: Store, c: Call, id: string)
    requires id in st.burned && c.at - st.burned[id] <= TTL
    ensures id in Apply(st, c).burned && Apply(st, c).burned[id] == st.burned[id]
  {
    match c
    case SaveCall(_, data, at) =>
    case GetCall(_, at) =>
    case PruneCall(at) =>
  }

  /** A burned tombstone survives every run of calls made within TTL of its date. */
  lemma {:induction false} BurnedPersists(st: Store, calls: seq<Call>, id: string)
    requires id in st.burned
    requires forall i :: 0 <= i < |calls| ==> calls[i].at - st.burned[id] <= TTL
    ensures id in Run(st, calls).burned && Run(st, calls).burned[id] == st.burned[id]
    decreases |calls|
  {
    if calls != [] {
      BurnedSurvivesCall(st, calls[0], id);
      BurnedPersists(Apply(st, calls[0]), calls[1..], id);
    }
  }

  /**
   * A recycled tombstone survives any one call made no earlier than its date
   * and within TTL of it; an eviction or expiry may only re-date it to the
   * call's time.
   */
  lemma RecycledSurvivesCall(st: Store, c: Call, id: string)
    requires id in st.recycled && st.recycled[id] <= c.at && c.at - st.recycled[id] <= TTL
    ensures id in Apply(st, c).recycled
    ensures st.recycled[id] <= Apply(st, c).recycled[id] <= c.at
  {
    match c
    case SaveCall(id2, data, at) =>
      if |data| <= st.maxMemory {
        EvictKeepsRecycled(st, |data|, at);
      }
    case GetCall(_, at) =>
    case PruneCall(at) =>
      ExpireFrontKeepsRecycled(st, at);
  }

  /**
   * A recycled tombstone survives every run of calls made in time order, no
   * earlier than its date and within TTL of it.
   */
  lemma {:induction false} RecycledPersists(st: Store, calls: seq<Call>, id: string)
    requires id in st.recycled && InTimeOrder(st.recycled[id], calls)
    requires forall i :: 0 <= i < |calls| ==> calls[i].at - st.recycled[id] <= TTL
    ensures id in Run(st, calls).recycled && st.recycled[id] <= Run(st, calls).recycled[id]
    decreases |calls|
  {
    if calls != [] {
      var c := calls[0];
      RecycledSurvivesCall(st, c, id);
      var s1 := Apply(st, c);
      assert forall i :: 0 <= i < |calls[1..]| ==> calls[1..][i] == calls[i + 1];
      RecycledPersists(s1, calls[1..], id);
    }
  }

  /**
   * An entry removed by eviction or expiry is never served again while its
   * tombstone is younger than TTL: every `Get` of it reports `Burned` or
   * `Recycled`, never `NotFound` and never the bytes.
   */
  lemma RecycledNeverServed(st: Store, calls: seq<Call>, id: string, t2: int)
    requires id in st.recycled && InTimeOrder(st.recycled[id], calls)
    requires forall i :: 0 <= i < |calls| ==> calls[i].at - st.recycled[id] <= TTL
    ensures var res := Get(Run(st, calls), id, t2).1;
      res == Err(Burned) || res == Err(Recycled)
  {
    RecycledPersists(st, calls, id);
  }

  /**
   * A read is destructive: once `Get` of `id` succeeds at `t`, every later
   * `Get` of `id` within TTL of `t` reports `Burned`, whatever calls (even
   * a new `Save` of the same id) come in between.
   */
  lemma AtMostOneSuccessfulGet(st: Store, id: string, t: int, calls: seq<Call>, t2: int)
    requires Get(st, id, t).1.Ok?
    requires forall i :: 0 <= i < |calls| ==> calls[i].at - t <= TTL
    requires t2 - t <= TTL
    ensures Get(Run(Get(st, id, t).0, calls), id, t2).1 == Err(Burned)
  {
    var s1 := Get(st, id, t).0;
    assert id in s1.burned && s1.burned[id] == t;
    BurnedPersists(s1, calls, id);
  }

  /** A call that is not a `Save` of `id` never makes `id` live. */
  lemma ApplyKeepsAbsent(st: Store, c: Call, id: string)
    requires id !in st.data && !(c.SaveCall? && c.id == id)
    ensures id !in Apply(st, c).data
  {
    match c
    case SaveCall(id2, data, at) => EvictShrinksIndex(st, |data|, at);
    case GetCall(id2, at) =>
    case PruneCall(at) => ExpireFrontShrinksIndex(st, at);
  }

  /** A run with no `Save` of `id` never makes `id` live. */
  lemma {:induction false} RunKeepsAbsent(st: Store, calls: seq<Call>, id: string)
    requires id !in st.data
    requires forall i :: 0 <= i < |calls| ==> !(calls[i].SaveCall? && calls[i].id == id)
    ensures id !in Run(st, calls).data
    decreases |calls|
  {
    if calls != [] {
      ApplyKeepsAbsent(st, calls[0], id);
      RunKeepsAbsent(Apply(st, calls[0]), calls[1..], id);
    }
  }

  /**
   * A read succeeds at most once at any time: once `Get` of `id` succeeds,
   * no later `Get` of `id`, however late and after whatever calls, succeeds
   * again unless `id` is saved anew in between.
   */
  lemma NoSecondSuccessfulGet(st: Store, id: string, t: int, calls: seq<Call>, t2: int)
    requires Inv(st) && Get(st, id, t).1.Ok?
    requires forall i :: 0 <= i < |calls| ==> !(calls[i].SaveCall? && calls[i].id == id)
    ensures !Get(Run(Get(st, id, t).0, calls), id, t2).1.Ok?
  {
    var s1 := Get(st, id, t).0;
    assert id !in s1.data;
    RunKeepsAbsent(s1, calls, id);
  }

  /** Saving a fresh id records no tombstone for it. */
  lemma SaveFreshIdNoTombstone(st: Store, id: string, data: seq<Byte>, now: int)
    requires Inv(st) && id !in st.data && id !in st.burned && id !in st.recycled
    ensures id !in Save(st, id, data, now).0.burned && id !in Save(st, id, data, now).0.recycled
  {
    if |data| <= st.maxMemory {
      EvictIsFifo(st, |data|, now);
      var k: nat :| RecycledPrefix(st, Evict(st, |data|, now), k, now) && EachEvictionNeeded(st, k, |data|);
    }
  }

  /**
   * Exactly once: after a successful `Save` of a fresh id, a run of `Get`s of
   * it, with no other call in between, returns the saved bytes once, on the
   * first call, and `Burned` on every other.
   */
  lemma ExactlyOnce(st: Store, id: string, data: seq<Byte>, t0: int, times: seq<int>)
    requires Inv(st) && id !in st.data && id !in st.burned && id !in st.recycled
    requires Save(st, id, data, t0).1 == Pass
    requires |times| > 0
    ensures var rs := GetResults(Save(st, id, data, t0).0, id, times);
      && rs[0] == Ok(data)
      && forall i :: 1 <= i < |rs| ==> rs[i] == Err(Burned)
  {
    var s1 := Save(st, id, data, t0).0;
    SaveFreshIdNoTombstone(st, id, data, t0);
    SaveSucceeds(st, id, data, t0);
    assert s1.data[id] == Item(id, data, t0, |data|);
    var s2 := Get(s1, id, times[0]).0;
    assert id in s2.burned && s2.burned[id] == times[0];
    BurnedGets(s2, id, times[1..]);
  }

  /**
   * In a run of nothing but `Get`s, which never remove a tombstone, every
   * `Get` of a burned id reports `Burned`.
   */
  lemma {:induction false} BurnedGets(st: Store, id: string, times: seq<int>)
    requires id in st.burned
    ensures forall i :: 0 <= i < |times| ==> GetResults(st, id, times)[i] == Err(Burned)
    decreases |times|
  {
    if times != [] {
      BurnedGets(st, id, times[1..]);
    }
  }

  // ---------------------------------------------------------------------
  // Scenarios of the store's tests

  /**
   * Limit 20 bytes, two 13-byte saves: the second evicts the first, whose
   * `Get` then reports `Recycled`; the second is read once, then `Burned`.
   */
  lemma RecycleScenario(id1: string, id2: string, d1: seq<Byte>, d2: seq<Byte>,
                        t1: int, t2: int, t3: int, t4: int, t5: int)
    requires id1 != id2 && |d1| == 13 && |d2| == 13
    ensures var (s1, o1) := Save(NewStore(20), id1, d1, t1);
      var (s2, o2) := Save(s1, id2, d2, t2);
      var (s3, g1) := Get(s2, id1, t3);
      var (s4, g2) := Get(s3, id2, t4);
      var (s5, g3) := Get(s4, id2, t5);
      && o1 == Pass && o2 == Pass
      && g1 == Err(Recycled) && g2 == Ok(d2) && g3 == Err(Burned)
  {
    var s0 := NewStore(20);
    var it1 := Item(id1, d1, t1, 13);
    var s1 := Save(s0, id1, d1, t1).0;
    assert s1.order == [it1] && s1.curMemory == 13;
    assert Without([it1], id1) == [];
    var e1 := RemoveElement(s1, it1, true, t2);
    assert e1.order == [] && Evict(e1, 13, t2) == e1;
    var ev := Evict(s1, 13, t2);
    assert ev == Evict(e1, 13, t2);
    assert ev.order == [] && id1 in ev.recycled && id2 !in ev.data;
  }

  /**
   * Save, read once with the saved bytes, read again: `Burned`; an id
   * never saved: `NotFound`.
   */
  lemma BurnScenario(id: string, other: string, d: seq<Byte>, t1: int, t2: int, t3: int, t4: int)
    requires id != other && |d| <= 1024 * 1024
    ensures var (s1, o1) := Save(NewStore(1024 * 1024), id, d, t1);
      var (s2, g1) := Get(s1, id, t2);
      var (s3, g2) := Get(s2, id, t3);
      var (s4, g3) := Get(s3, other, t4);
      && o1 == Pass && g1 == Ok(d) && g2 == Err(Burned) && g3 == Err(NotFound)
  {
    var s0 := NewStore(1024 * 1024);
    assert Evict(s0, |d|, t1) == s0;
  }

  /** A payload over the limit is refused with `TooLarge` and nothing is stored. */
  lemma TooLargeScenario(maxMemory: int, id: string, d: seq<Byte>, t1: int, t2: int)
    requires |d| > maxMemory
    ensures var (s1, o1) := Save(NewStore(maxMemory), id, d, t1);
      && o1 == Fail(TooLarge) && s1 == NewStore(maxMemory)
      && Get(s1, id, t2).1 == Err(NotFound)
  {
  }

  /**
   * An entry left unread for more than TTL is expired by `prune` and then
   * reported `Recycled`; once its tombstone is more than TTL old, a later
   * `prune` forgets it and `Get` reports `NotFound`.
   */
  lemma ExpiryScenario(maxMemory: int, id: string, d: seq<Byte>,
                       t0: int, t1: int, t2: int, t3: int, t4: int)
    requires |d| <= maxMemory
    requires t1 - t0 > TTL && t3 - t1 > TTL
    ensures var s1 := Save(NewStore(maxMemory), id, d, t0).0;
      var s2 := Prune(s1, t1);
      var (s3, g1) := Get(s2, id, t2);
      var s4 := Prune(s3, t3);
      && g1 == Err(Recycled)
      && Get(s4, id, t4).1 == Err(NotFound)
  {
    var s0 := NewStore(maxMemory);
    var it := Item(id, d, t0, |d|);
    assert Evict(s0, |d|, t0) == s0;
    var s1 := Save(s0, id, d, t0).0;
    assert s1.order == [it];
    assert Without([it], id) == [];
    var e1 := RemoveElement(s1, it, true, t1);
    assert e1.order == [] && ExpireFront(e1, t1) == e1;
    var ex := ExpireFront(s1, t1);
    assert ex == ExpireFront(e1, t1);
    assert ex.recycled == map[id := t1] && ex.data == map[];
    var s2 := Prune(s1, t1);
    assert s2.order == [] && s2.data == map[] && s2.burned == map[];
    assert s2.recycled == map[id := t1];
    var s4 := Prune(s2, t3);
    assert s4.recycled == map[] && s4.burned == map[];
  }

  // ---------------------------------------------------------------------
  // Where the code differs from the obvious contract

  /**
   * The collision check runs after eviction: a `Save` of an id that is still
   * live can evict, and recycle, older entries before it fails.
   */
  lemma CollisionAfterEviction(id1: string, id2: string, d1: seq<Byte>, d2: seq<Byte>, d3: seq<Byte>,
                               t1: int, t2: int, t3: int, t4: int)
    requires id1 != id2 && |d1| == 13 && |d2| == 7 && |d3| == 5
    ensures var s1 := Save(NewStore(20), id1, d1, t1).0;
      var s2 := Save(s1, id2, d2, t2).0;
      var (s3, o3) := Save(s2, id2, d3, t3);
      && o3 == Fail(Collision)
      && Get(s3, id1, t4).1 == Err(Recycled)
  {
    var s0 := NewStore(20);
    var it1 := Item(id1, d1, t1, 13);
    var it2 := Item(id2, d2, t2, 7);
    assert Evict(s0, 13, t1) == s0;
    var s1 := Save(s0, id1, d1, t1).0;
    assert s1.order == [it1] && s1.curMemory == 13;
    assert Evict(s1, 7, t2) == s1;
    var s2 := Save(s1, id2, d2, t2).0;
    assert s2.order == [it1, it2] && s2.curMemory == 20 && id2 in s2.data;
    assert Without([it1, it2], id1) == [it2] by {
      assert [it1, it2][1..] == [it2];
      assert Without([it2], id1) == [it2];
    }
    var e1 := RemoveElement(s2, it1, true, t3);
    assert e1.curMemory == 7 && Evict(e1, 5, t3) == e1;
    assert Evict(s2, 5, t3) == e1;
  }

  /**
   * `Save` neither consults nor clears tombstones: an id that was read can
   * be saved again and is then live and burned at once; `Get` reports
   * `Burned` and the new entry stays in memory until it expires.
   */
  lemma ResavedIdStaysBurned(maxMemory: int, id: string, d1: seq<Byte>, d2: seq<Byte>,
                             t1: int, t2: int, t3: int, t4: int)
    requires |d1| <= maxMemory && |d2| <= maxMemory
    ensures var s1 := Save(NewStore(maxMemory), id, d1, t1).0;
      var s2 := Get(s1, id, t2).0;
      var (s3, o3) := Save(s2, id, d2, t3);
      var (s4, g) := Get(s3, id, t4);
      && o3 == Pass
      && id in s3.data && id in s3.burned
      && g == Err(Burned) && s4 == s3
  {
    var s0 := NewStore(maxMemory);
    var it1 := Item(id, d1, t1, |d1|);
    assert Evict(s0, |d1|, t1) == s0;
    var s1 := Save(s0, id, d1, t1).0;
    assert s1.order == [it1];
    assert Without([it1], id) == [];
    var s2 := Get(s1, id, t2).0;
    assert s2.order == [] && s2.curMemory == 0 && s2.data == map[];
    assert Evict(s2, |d2|, t3) == s2;
  }
}
