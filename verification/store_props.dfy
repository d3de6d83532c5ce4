/** Properties of the store that relate several operations: the capacity
    bound over any run of operations, the attribution of removals to the
    eviction and TTL counters, expiry as seen through `get`, the sweep and
    `ttl_remaining`, and the relative order `delete` keeps. */
module StoreProps {
  import opened Wrappers
  import opened Seqs
  import opened LruStore

  /** One mutating call on the store, as made by a caller or by the cleanup thread. */
  datatype Op =
    | SetOp(key: Key, value: Value, ttl: Option<int>)
    | GetOp(key: Key)
    | DeleteOp(key: Key)
    | SweepOp

  /** An operation together with the time at which it runs. */
  datatype Event = Event(op: Op, now: int)

  function Step(s: Store, op: Op, now: int): (r: Store)
    requires Valid(s)
    ensures Valid(r) && r.capacity == s.capacity
  {
    match op
    case SetOp(k, v, ttl) => Set(s, k, v, ttl, now)
    case GetOp(k) => Get(s, k, now).store
    case DeleteOp(k) => Delete(s, k).store
    case SweepOp => Sweep(s, now)
  }

  /** The store after a sequence of events, applied in order. */
  function Run(s: Store, evs: seq<Event>): (r: Store)
    requires Valid(s)
    ensures Valid(r) && r.capacity == s.capacity
    decreases |evs|
  {
    if |evs| == 0 then s else Run(Step(s, evs[0].op, evs[0].now), evs[1..])
  }

  function Max(a: int, b: int): int {
    if a < b then b else a
  }

  // ------------------------------------------------------------------
  // Capacity

  /** One step never takes the store above the larger of its capacity and
      one; with capacity at least one this is the capacity bound itself. */
  lemma StepBound(s: Store, op: Op, now: int)
    requires Valid(s) && |s.entries| <= Max(s.capacity, 1)
    ensures |Step(s, op, now).entries| <= Max(s.capacity, 1)
  {
    ValidSizes(s);
    match op
    case SetOp(k, v, ttl) => SetBound(s, k, v, ttl, now);
    case GetOp(k) =>
      assert Get(s, k, now).store.entries.Keys <= s.entries.Keys;
      SubsetCard(Get(s, k, now).store.entries.Keys, s.entries.Keys);
    case DeleteOp(k) =>
      assert Delete(s, k).store.entries.Keys <= s.entries.Keys;
      SubsetCard(Delete(s, k).store.entries.Keys, s.entries.Keys);
    case SweepOp =>
      assert Sweep(s, now).entries.Keys <= s.entries.Keys;
      SubsetCard(Sweep(s, now).entries.Keys, s.entries.Keys);
  }

  lemma SetBound(s: Store, k: Key, v: Value, ttl: Option<int>, now: int)
    requires Valid(s) && |s.entries| <= Max(s.capacity, 1)
    ensures |Set(s, k, v, ttl, now).entries| <= Max(s.capacity, 1)
  {
    ValidSizes(s);
    if k !in s.entries && |s.entries| >= s.capacity && |s.entries| > 0 {
      assert Last(s.recency) in s.entries;
      assert |s.entries - {Last(s.recency)}| == |s.entries| - 1;
    }
  }

  lemma SubsetCard(a: set<Key>, b: set<Key>)
    requires a <= b
    ensures |a| <= |b|
  {
    assert b == a + (b - a);
  }

  /** After any run of `set`, `get`, `delete` and sweeps from a store within
      the bound, the store is still within it: with capacity at least one
      the number of keys never exceeds the capacity. */
  lemma {:induction false} RunBound(s: Store, evs: seq<Event>)
    requires Valid(s) && |s.entries| <= Max(s.capacity, 1)
    ensures |Run(s, evs).entries| <= Max(s.capacity, 1)
    ensures s.capacity >= 1 ==> WithinCapacity(Run(s, evs))
    decreases |evs|
  {
    if |evs| > 0 {
      StepBound(s, evs[0].op, evs[0].now);
      RunBound(Step(s, evs[0].op, evs[0].now), evs[1..]);
    }
  }

  /** Every store reached from a freshly constructed one with capacity at
      least one respects the capacity. */
  lemma RunFromEmptyWithinCapacity(capacity: int, start: int, evs: seq<Event>)
    requires capacity >= 1
    ensures WithinCapacity(Run(Empty(capacity, start), evs))
  {
    RunBound(Empty(capacity, start), evs);
  }

  /** With capacity zero the bound fails at the first insertion: eviction on
      an empty list does nothing and the new key is inserted anyway. */
  lemma ZeroCapacityOverflows(key: Key, value: Value, ttl: Option<int>, now: int)
    ensures var r := Set(Empty(0, now), key, value, ttl, now);
      |r.entries| == 1 && !WithinCapacity(r) && r.evictions == 0
  {
    var r := Set(Empty(0, now), key, value, ttl, now);
    assert r.entries == map[key := Entry(value, ExpiryFor(ttl, now))];
  }

  // ------------------------------------------------------------------
  // Attribution of removals to counters

  /** The keys a step removed from the map. */
  function Removed(s: Store, r: Store): set<Key> {
    s.entries.Keys - r.entries.Keys
  }

  /** `set` removes only by eviction, at most one key, and counts it under
      `evictions`; the TTL counter is untouched. */
  lemma SetAttribution(s: Store, k: Key, v: Value, ttl: Option<int>, now: int)
    requires Valid(s)
    ensures var r := Set(s, k, v, ttl, now);
      |Removed(s, r)| == r.evictions - s.evictions <= 1 && r.ttlExpirations == s.ttlExpirations
  {
    if k !in s.entries && |s.entries| >= s.capacity && |s.entries| > 0 {
      SetEvictsOne(s, k, v, ttl, now);
    } else {
      SetEvictsNone(s, k, v, ttl, now);
    }
  }

  lemma SetEvictsOne(s: Store, k: Key, v: Value, ttl: Option<int>, now: int)
    requires Valid(s) && k !in s.entries && |s.entries| >= s.capacity && |s.entries| > 0
    ensures var r := Set(s, k, v, ttl, now);
      Removed(s, r) == {Last(s.recency)} && r.evictions == s.evictions + 1
  {
    var r := Set(s, k, v, ttl, now);
    assert r.entries.Keys == (s.entries.Keys - {Last(s.recency)}) + {k};
  }

  lemma SetEvictsNone(s: Store, k: Key, v: Value, ttl: Option<int>, now: int)
    requires Valid(s) && !(k !in s.entries && |s.entries| >= s.capacity && |s.entries| > 0)
    ensures var r := Set(s, k, v, ttl, now);
      Removed(s, r) == {} && r.evictions == s.evictions
  {
    var r := Set(s, k, v, ttl, now);
    assert s.entries.Keys <= r.entries.Keys;
  }

  /** `get` removes at most its own key, only when expired, and counts it
      under `ttl_expirations`; evictions are untouched. */
  lemma GetAttribution(s: Store, k: Key, now: int)
    requires Valid(s)
    ensures var r := Get(s, k, now).store;
      && |Removed(s, r)| == r.ttlExpirations - s.ttlExpirations <= 1
      && r.evictions == s.evictions
      && forall x :: x in Removed(s, r) ==> x == k && IsExpired(s.entries[x], now)
  {
    var r := Get(s, k, now).store;
    if k in s.entries && IsExpired(s.entries[k], now) {
      RemovedKey(s.entries, r.entries, k);
    } else {
      assert Removed(s, r) == {};
    }
  }

  lemma RemovedKey(before: map<Key, Entry>, after: map<Key, Entry>, k: Key)
    requires k in before && after == before - {k}
    ensures before.Keys - after.Keys == {k}
  {
  }

  /** The sweep removes only expired keys and counts each one under
      `ttl_expirations`; evictions are untouched. */
  lemma SweepAttribution(s: Store, now: int)
    requires Valid(s)
    ensures var r := Sweep(s, now);
      && |Removed(s, r)| == r.ttlExpirations - s.ttlExpirations
      && r.evictions == s.evictions
      && forall x :: x in Removed(s, r) ==> IsExpired(s.entries[x], now)
  {
    RemovedExpired(s, Sweep(s, now), now);
  }

  lemma RemovedExpired(s: Store, r: Store, now: int)
    requires forall k :: k in r.entries <==> k in s.entries && !IsExpired(s.entries[k], now)
    ensures Removed(s, r) == ExpiredKeys(s, now)
  {
    forall x ensures x in Removed(s, r) <==> x in ExpiredKeys(s, now) {
      if x in s.entries && IsExpired(s.entries[x], now) {
        assert x !in r.entries;
      }
    }
  }

  /** Each removal is counted under exactly one cause: `set` removes only by
      eviction, `get` and the sweep only by expiry, and `delete` removes at
      most its key and touches neither counter. */
  lemma StepAttribution(s: Store, op: Op, now: int)
    requires Valid(s)
    ensures var r := Step(s, op, now);
      && (op.SetOp? ==>
            |Removed(s, r)| == r.evictions - s.evictions && r.ttlExpirations == s.ttlExpirations)
      && (op.GetOp? || op.SweepOp? ==>
            |Removed(s, r)| == r.ttlExpirations - s.ttlExpirations && r.evictions == s.evictions)
      && (op.DeleteOp? ==>
            Removed(s, r) == s.entries.Keys * {op.key}
            && r.evictions == s.evictions && r.ttlExpirations == s.ttlExpirations)
  {
    match op
    case SetOp(k, v, ttl) => SetAttribution(s, k, v, ttl, now);
    case GetOp(k) => GetAttribution(s, k, now);
    case DeleteOp(k) => DeleteAttribution(s, k);
    case SweepOp => SweepAttribution(s, now);
  }

  /** `delete` removes at most its own key and counts nothing. */
  lemma DeleteAttribution(s: Store, k: Key)
    requires Valid(s)
    ensures var r := Delete(s, k).store;
      && Removed(s, r) == s.entries.Keys * {k}
      && r.evictions == s.evictions && r.ttlExpirations == s.ttlExpirations
  {
    var r := Delete(s, k).store;
    assert r.entries == s.entries - {k};
  }

  // ------------------------------------------------------------------
  // Hits and misses

  /** The number of `get` calls among the events. */
  function Lookups(evs: seq<Event>): nat {
    if |evs| == 0 then 0 else (if evs[0].op.GetOp? then 1 else 0) + Lookups(evs[1..])
  }

  /** One step adds one to hits plus misses exactly when it is a `get`. */
  lemma StepLookups(s: Store, op: Op, now: int)
    requires Valid(s)
    ensures var r := Step(s, op, now);
      r.cacheHits + r.cacheMisses == s.cacheHits + s.cacheMisses + (if op.GetOp? then 1 else 0)
  {
  }

  /** Over any run, every `get` is counted as exactly one hit or one miss and
      no other operation touches either counter, so the two counters of
      `stats` add up to the number of lookups. */
  lemma {:induction false} LookupsCounted(s: Store, evs: seq<Event>)
    requires Valid(s)
    ensures var r := Run(s, evs);
      r.cacheHits + r.cacheMisses == s.cacheHits + s.cacheMisses + Lookups(evs)
    decreases |evs|
  {
    if |evs| > 0 {
      StepLookups(s, evs[0].op, evs[0].now);
      LookupsCounted(Step(s, evs[0].op, evs[0].now), evs[1..]);
    }
  }

  // ------------------------------------------------------------------
  // Expiry

  /** A key `set` with a TTL at time `t0` and read back at `t1` is returned
      while `t1 < t0 + ttl` and is reported absent (and counted as one TTL
      expiration and one miss) from then on; without a TTL it never expires. */
  lemma GetAfterSet(s: Store, k: Key, v: Value, ttl: Option<int>, t0: int, t1: int)
    requires Valid(s)
    ensures var s1 := Set(s, k, v, ttl, t0);
      var g := Get(s1, k, t1);
      && (ttl.None? || t1 < t0 + ttl.value ==> g.value == Some(v) && g.store.entries == s1.entries)
      && (ttl.Some? && t1 >= t0 + ttl.value ==>
            && g.value.None? && k !in g.store.entries
            && g.store.ttlExpirations == s1.ttlExpirations + 1
            && g.store.cacheMisses == s1.cacheMisses + 1
            && g.store.evictions == s1.evictions)
  {
    var s1 := Set(s, k, v, ttl, t0);
    assert k in s1.entries && s1.entries[k] == Entry(v, ExpiryFor(ttl, t0));
  }

  /** The sweep at `t1` removes a key `set` with a TTL at `t0` exactly when
      `t1 >= t0 + ttl`; a key set without TTL survives every sweep. */
  lemma SweepAfterSet(s: Store, k: Key, v: Value, ttl: Option<int>, t0: int, t1: int)
    requires Valid(s)
    ensures var s1 := Set(s, k, v, ttl, t0);
      k !in Sweep(s1, t1).entries <==> ttl.Some? && t1 >= t0 + ttl.value
  {
    var s1 := Set(s, k, v, ttl, t0);
    assert k in s1.entries && s1.entries[k].expiry == ExpiryFor(ttl, t0);
  }

  /** `ttl_remaining` after `set`: None without a TTL, otherwise the time
      left until `t0 + ttl`, never negative. */
  lemma TtlAfterSet(s: Store, k: Key, v: Value, ttl: Option<int>, t0: int, t1: int)
    requires Valid(s)
    ensures TtlRemaining(Set(s, k, v, ttl, t0), k, t1) ==
      (if ttl.None? then None else Some(Max(0, t0 + ttl.value - t1)))
  {
    var s1 := Set(s, k, v, ttl, t0);
    assert k in s1.entries && s1.entries[k].expiry == ExpiryFor(ttl, t0);
  }

  // ------------------------------------------------------------------
  // Order kept by delete

  /** `delete` of a present key takes it out of both the recency list and the
      dict order at its one position; all other keys keep their relative order. */
  lemma DeleteKeepsOrder(s: Store, key: Key)
    requires Valid(s) && key in s.entries
    ensures var r := Delete(s, key).store;
      && (forall i :: 0 <= i < |s.recency| && s.recency[i] == key ==>
            r.recency == s.recency[..i] + s.recency[i + 1..])
      && (forall i :: 0 <= i < |s.order| && s.order[i] == key ==>
            r.order == s.order[..i] + s.order[i + 1..])
  {
    forall i | 0 <= i < |s.recency| && s.recency[i] == key
      ensures Delete(s, key).store.recency == s.recency[..i] + s.recency[i + 1..]
    {
      WithoutAt(s.recency, i);
    }
    forall i | 0 <= i < |s.order| && s.order[i] == key
      ensures Delete(s, key).store.order == s.order[..i] + s.order[i + 1..]
    {
      WithoutAt(s.order, i);
    }
  }

  // ------------------------------------------------------------------
  // A concrete run

  /** Capacity two; set a, b, c: a is evicted, get(a) misses, and keys()
      lists b then c. */
  lemma EvictionScenario(t: int)
    ensures var s := Run(Empty(2, t), [Event(SetOp("a", "1", None), t),
                                       Event(SetOp("b", "2", None), t),
                                       Event(SetOp("c", "3", None), t)]);
      && Get(s, "a", t).value.None?
      && Keys(s) == ["b", "c"]
      && s.evictions == 1
  {
    var s2 := Set(Set(Empty(2, t), "a", "1", None, t), "b", "2", None, t);
    ScenarioFirstTwo(t);
    var s3 := Set(s2, "c", "3", None, t);
    ScenarioThird(s2, t);
    RunThree(Empty(2, t), Event(SetOp("a", "1", None), t), Event(SetOp("b", "2", None), t),
             Event(SetOp("c", "3", None), t));
  }

  /** Three events run one after another. */
  lemma RunThree(s: Store, e0: Event, e1: Event, e2: Event)
    requires Valid(s)
    ensures Run(s, [e0, e1, e2])
            == Step(Step(Step(s, e0.op, e0.now), e1.op, e1.now), e2.op, e2.now)
  {
    var s1 := Step(s, e0.op, e0.now);
    var s2 := Step(s1, e1.op, e1.now);
    RunFirst(s, e0, [e1, e2]);
    RunFirst(s1, e1, [e2]);
    RunFirst(s2, e2, []);
  }

  /** A run applies its first event, then runs the rest. */
  lemma RunFirst(s: Store, e: Event, rest: seq<Event>)
    requires Valid(s)
    ensures Run(s, [e] + rest) == Run(Step(s, e.op, e.now), rest)
  {
    assert ([e] + rest)[1..] == rest;
  }

  /** After set(a, 1) and set(b, 2) with capacity two, b is the most recent. */
  lemma ScenarioFirstTwo(t: int)
    ensures var s2 := Set(Set(Empty(2, t), "a", "1", None, t), "b", "2", None, t);
      && s2.capacity == 2 && s2.evictions == 0
      && s2.recency == ["b", "a"] && s2.order == ["a", "b"]
  {
    ScenarioFirst(t);
    ScenarioSecond(Set(Empty(2, t), "a", "1", None, t), t);
  }

  lemma ScenarioSecond(s1: Store, t: int)
    requires Valid(s1) && s1.capacity == 2 && s1.evictions == 0
    requires s1.entries.Keys == {"a"} && s1.recency == ["a"] && s1.order == ["a"]
    ensures var s2 := Set(s1, "b", "2", None, t);
      && s2.capacity == 2 && s2.evictions == 0
      && s2.recency == ["b", "a"] && s2.order == ["a", "b"]
  {
    assert "b" !in s1.entries && |s1.entries| == 1;
  }

  lemma ScenarioFirst(t: int)
    ensures var s1 := Set(Empty(2, t), "a", "1", None, t);
      s1.entries.Keys == {"a"} && s1.recency == ["a"] && s1.order == ["a"] && s1.evictions == 0
  {
  }

  /** set(c, 3) on that store evicts a, the least recently used key. */
  lemma ScenarioThird(s2: Store, t: int)
    requires Valid(s2) && s2.capacity == 2 && s2.evictions == 0
    requires s2.recency == ["b", "a"] && s2.order == ["a", "b"]
    ensures var s3 := Set(s2, "c", "3", None, t);
      s3.order == ["b", "c"] && s3.evictions == 1 && "a" !in s3.entries
  {
    FullPair(s2);
    DropFirst();
  }

  lemma FullPair(s2: Store)
    requires Valid(s2) && s2.recency == ["b", "a"]
    ensures "c" !in s2.entries && |s2.entries| == 2 && Last(s2.recency) == "a"
  {
    ValidSizes(s2);
  }

  lemma DropFirst()
    ensures Without(["a", "b"], "a") == ["b"]
  {
    assert Without(["b"], "a") == ["b"] + Without([], "a");
  }
}
