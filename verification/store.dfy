/** The in-memory key-value store of pykv/store.py (`PyKVStore`): a hash map
    from key to entry, a recency list with the most recently used key at the
    head and the least recently used at the tail, LRU eviction when full,
    per-key expiry checked lazily by `get` and eagerly by a sweep, and the
    operation counters reported by `stats`.

    The store is an immutable value; every operation returns the new store.
    Time is the explicit integer `now` instead of the wall clock. */
module LruStore {
  import opened Wrappers
  import opened Seqs

  type Key = string
  type Value = string

  /** One node of the store: its value and its absolute expiry time, if any. */
  datatype Entry = Entry(value: Value, expiry: Option<int>)

  /** The whole store.
      `order` is the insertion order of the Python dict (what `keys()` lists);
      `recency` is the linked list from head (most recent) to tail (LRU). */
  datatype Store = Store(
    capacity: int,
    entries: map<Key, Entry>,
    order: seq<Key>,
    recency: seq<Key>,
    totalOps: nat,
    cacheHits: nat,
    cacheMisses: nat,
    evictions: nat,
    ttlExpirations: nat,
    startTime: int)

  /** Result of `get`: the value returned (None for a miss) and the new store. */
  datatype Lookup = Lookup(value: Option<Value>, store: Store)

  /** Result of `delete`: whether a key was removed, and the new store. */
  datatype Removal = Removal(removed: bool, store: Store)

  /** The dictionary `stats` returns. */
  datatype Stats = Stats(
    totalKeys: nat,
    totalOps: nat,
    cacheHits: nat,
    cacheMisses: nat,
    evictions: nat,
    ttlExpirations: nat,
    uptimeSeconds: int,
    walFileSize: int)

  /** The representation invariant: the map, the dict order and the recency
      list hold the same keys, and each list holds every key exactly once. */
  ghost predicate Valid(s: Store) {
    && Distinct(s.order)
    && Distinct(s.recency)
    && (forall k :: k in s.entries <==> k in s.order)
    && (forall k :: k in s.entries <==> k in s.recency)
  }

  /** The capacity bound the store is meant to keep. */
  ghost predicate WithinCapacity(s: Store) {
    |s.entries| <= s.capacity
  }

  /** In a valid store the map and the recency list have the same size. */
  lemma ValidSizes(s: Store)
    requires Valid(s)
    ensures |s.entries| == |s.recency| == |s.order|
  {
    DistinctCard(s.recency);
    DistinctCard(s.order);
    assert s.entries.Keys == Elems(s.recency);
    assert s.entries.Keys == Elems(s.order);
  }

  /** A freshly constructed store (`__init__`), started at time `now`. */
  function Empty(capacity: int, now: int): (s: Store)
    ensures Valid(s) && |s.entries| == 0 && s.capacity == capacity
    ensures s.totalOps == 0 && s.cacheHits == 0 && s.cacheMisses == 0
    ensures s.evictions == 0 && s.ttlExpirations == 0
  {
    Store(capacity, map[], [], [], 0, 0, 0, 0, 0, now)
  }

  // ------------------------------------------------------------------
  // TTL

  /** `_is_expired`: the entry has an expiry and `now` has reached it. */
  predicate IsExpired(e: Entry, now: int) {
    e.expiry.Some? && now >= e.expiry.value
  }

  /** A key written by `set` at `t` with a TTL of `d` seconds is expired at
      `now` exactly when `d` seconds have passed; written without a TTL it
      never expires. So once expired, it stays expired. */
  lemma ExpiresAfterTtl(v: Value, ttl: Option<int>, t: int, now: int, later: int)
    requires now <= later
    ensures IsExpired(Entry(v, ExpiryFor(ttl, t)), now) <==> ttl.Some? && now - t >= ttl.value
    ensures IsExpired(Entry(v, ExpiryFor(ttl, t)), now) ==> IsExpired(Entry(v, ExpiryFor(ttl, t)), later)
  {
  }

  /** The keys expired at `now` are still expired later. */
  lemma ExpiredKeysGrow(s: Store, now: int, later: int)
    requires now <= later
    ensures ExpiredKeys(s, now) <= ExpiredKeys(s, later)
  {
  }

  /** The absolute expiry `set` stores for a relative TTL given at `now`. */
  function ExpiryFor(ttl: Option<int>, now: int): Option<int> {
    match ttl
    case None => None
    case Some(t) => Some(now + t)
  }

  // ------------------------------------------------------------------
  // Recency-list primitives (`_add_to_front`, `_remove_node`, `_move_to_front`)

  /** `_add_to_front`: link the node in right after the head sentinel. */
  function AddToFront(recency: seq<Key>, k: Key): seq<Key> {
    [k] + recency
  }

  /** `_remove_node`: unlink the node and join its neighbours. */
  function RemoveNode(recency: seq<Key>, k: Key): seq<Key> {
    Without(recency, k)
  }

  /** A node linked in at the front becomes the most recently used, every
      other node moves one place back, and the list stays free of
      duplicates when the node was not in it. */
  lemma AddToFrontLinks(recency: seq<Key>, k: Key)
    ensures var r := AddToFront(recency, k);
      && |r| == |recency| + 1 && r[0] == k
      && (forall i :: 0 <= i < |recency| ==> r[i + 1] == recency[i])
      && (Distinct(recency) && k !in recency ==> Distinct(r))
  {
    if Distinct(recency) && k !in recency {
      DistinctCons(k, recency);
    }
  }

  /** Unlinking a node removes exactly that node, from wherever it stands;
      the other nodes keep their order and the list stays free of duplicates. */
  lemma RemoveNodeUnlinks(recency: seq<Key>, k: Key)
    ensures forall y :: y in RemoveNode(recency, k) <==> y in recency && y != k
    ensures Distinct(recency) ==> Distinct(RemoveNode(recency, k))
    ensures Distinct(recency) ==>
      forall i :: 0 <= i < |recency| && recency[i] == k ==> RemoveNode(recency, k) == recency[..i] + recency[i + 1..]
  {
    if Distinct(recency) {
      forall i | 0 <= i < |recency| && recency[i] == k
        ensures Without(recency, k) == recency[..i] + recency[i + 1..]
      {
        WithoutAt(recency, i);
      }
    }
  }

  /** Unlinking a node just linked in at the front gives the list back. */
  lemma RemoveAfterAdd(recency: seq<Key>, k: Key)
    requires k !in recency
    ensures RemoveNode(AddToFront(recency, k), k) == recency
  {
    assert AddToFront(recency, k)[1..] == recency;
    WithoutAbsent(recency, k);
  }

  /** Moving the most recently used node to the front changes nothing. */
  lemma MoveFrontmost(recency: seq<Key>)
    requires Distinct(recency) && |recency| > 0
    ensures MoveToFront(recency, recency[0]) == recency
  {
    WithoutAt(recency, 0);
    assert [recency[0]] + recency[1..] == recency;
  }

  function MoveToFront(recency: seq<Key>, k: Key): (r: seq<Key>)
    ensures |r| > 0 && r[0] == k
    ensures forall y :: y in r <==> y in recency || y == k
    ensures Distinct(recency) ==> Distinct(r)
    ensures k !in recency ==> r == [k] + recency
    ensures Distinct(recency) ==>
      forall i :: 0 <= i < |recency| && recency[i] == k ==> r == [k] + recency[..i] + recency[i + 1..]
  {
    FrontWithoutDistinct(k, recency);
    MoveKeepsOrder(recency, k);
    AddToFront(RemoveNode(recency, k), k)
  }

  /** Only the moved key changes place: the others keep their order. */
  lemma MoveKeepsOrder(recency: seq<Key>, k: Key)
    ensures k !in recency ==> RemoveNode(recency, k) == recency
    ensures Distinct(recency) ==>
      forall i :: 0 <= i < |recency| && recency[i] == k ==> RemoveNode(recency, k) == recency[..i] + recency[i + 1..]
  {
    if k !in recency {
      WithoutAbsent(recency, k);
    }
    if Distinct(recency) {
      forall i | 0 <= i < |recency| && recency[i] == k
        ensures RemoveNode(recency, k) == recency[..i] + recency[i + 1..]
      {
        WithoutAt(recency, i);
      }
    }
  }

  /** `_evict_lru`: drop the tail key of the recency list from the list and the
      map and count one eviction; an empty list leaves the store unchanged. */
  function EvictLru(s: Store): (r: Store)
    requires Valid(s)
    ensures Valid(r)
    ensures |s.recency| == 0 ==> r == s
    ensures |s.recency| > 0 ==>
      && Last(s.recency) in s.entries
      && r.entries == s.entries - {Last(s.recency)}
      && r.recency == s.recency[..|s.recency| - 1]
      && r.order == Without(s.order, Last(s.recency))
      && r.evictions == s.evictions + 1
    ensures r.capacity == s.capacity && r.startTime == s.startTime && r.totalOps == s.totalOps
    ensures r.cacheHits == s.cacheHits && r.cacheMisses == s.cacheMisses
    ensures r.ttlExpirations == s.ttlExpirations
  {
    if |s.recency| == 0 then s
    else
      var lru := Last(s.recency);
      WithoutLast(s.recency);
      s.(entries := s.entries - {lru},
         order := Without(s.order, lru),
         recency := RemoveNode(s.recency, lru),
         evictions := s.evictions + 1)
  }

  // ------------------------------------------------------------------
  // Public operations

  /** `set(key, value, ttl)`: overwrite an existing key in place and move it
      to the front; otherwise evict the LRU key if the map has reached the
      capacity, then insert the new key at the front of the list and at the
      end of the dict order. */
  function Set(s: Store, key: Key, value: Value, ttl: Option<int>, now: int): (r: Store)
    requires Valid(s)
    ensures Valid(r)
    ensures key in r.entries && r.entries[key] == Entry(value, ExpiryFor(ttl, now))
    ensures r.recency[0] == key
    ensures r.totalOps == s.totalOps + 1
    ensures r.cacheHits == s.cacheHits && r.cacheMisses == s.cacheMisses
    ensures r.ttlExpirations == s.ttlExpirations
    ensures r.capacity == s.capacity && r.startTime == s.startTime
    // update of an existing key: nothing else changes, nothing is evicted
    ensures key in s.entries ==>
      && r.entries == s.entries[key := Entry(value, ExpiryFor(ttl, now))]
      && |r.entries| == |s.entries|
      && r.order == s.order
      && r.recency == [key] + Without(s.recency, key)
      && r.evictions == s.evictions
    // insertion into a full, non-empty store: exactly the tail is evicted
    ensures key !in s.entries && |s.entries| >= s.capacity && |s.entries| > 0 ==>
      && r.entries == (s.entries - {Last(s.recency)})[key := Entry(value, ExpiryFor(ttl, now))]
      && r.recency == [key] + s.recency[..|s.recency| - 1]
      && r.order == Without(s.order, Last(s.recency)) + [key]
      && r.evictions == s.evictions + 1
    // insertion with room (or into an empty store): nothing is evicted
    ensures key !in s.entries && (|s.entries| < s.capacity || |s.entries| == 0) ==>
      && r.entries == s.entries[key := Entry(value, ExpiryFor(ttl, now))]
      && r.recency == [key] + s.recency
      && r.order == s.order + [key]
      && r.evictions == s.evictions
  {
    var s1 := s.(totalOps := s.totalOps + 1);
    var e := Entry(value, ExpiryFor(ttl, now));
    if key in s1.entries then Overwrite(s1, key, e)
    else
      ValidSizes(s1);
      Insert(if |s1.entries| >= s1.capacity then EvictLru(s1) else s1, key, e)
  }

  /** The update branch of `set`: new entry in place, key moved to the front. */
  function Overwrite(s: Store, key: Key, e: Entry): (r: Store)
    requires Valid(s) && key in s.entries
    ensures Valid(r)
    ensures r == s.(entries := s.entries[key := e], recency := [key] + Without(s.recency, key))
  {
    s.(entries := s.entries[key := e], recency := MoveToFront(s.recency, key))
  }

  /** The insertion branch of `set` after any eviction: the new key goes to
      the front of the list and to the end of the dict order. */
  function Insert(s: Store, key: Key, e: Entry): (r: Store)
    requires Valid(s) && key !in s.entries
    ensures Valid(r)
    ensures r == s.(entries := s.entries[key := e], order := s.order + [key], recency := [key] + s.recency)
  {
    DistinctCons(key, s.recency);
    DistinctSnoc(s.order, key);
    s.(entries := s.entries[key := e], order := s.order + [key], recency := AddToFront(s.recency, key))
  }

  /** `delete(key)`: unlink the key from the list and the map if present and
      report whether it was. The `reason` argument of the source is never read. */
  function Delete(s: Store, key: Key): (r: Removal)
    requires Valid(s)
    ensures Valid(r.store)
    ensures r.removed <==> key in s.entries
    ensures r.store.entries == s.entries - {key}
    ensures r.store.recency == Without(s.recency, key)
    ensures r.store.order == Without(s.order, key)
    ensures r.store.totalOps == s.totalOps + 1
    ensures r.store.cacheHits == s.cacheHits && r.store.cacheMisses == s.cacheMisses
    ensures r.store.evictions == s.evictions && r.store.ttlExpirations == s.ttlExpirations
    ensures r.store.capacity == s.capacity && r.store.startTime == s.startTime
  {
    if key !in s.entries then
      WithoutAbsent(s.recency, key);
      WithoutAbsent(s.order, key);
      var t := s.(totalOps := s.totalOps + 1);
      ValidIgnoresCounters(s, t);
      Removal(false, t)
    else
      var d := DropKey(s, key);
      var t := d.(totalOps := d.totalOps + 1);
      ValidIgnoresCounters(d, t);
      Removal(true, t)
  }

  /** Validity speaks only of the map and the two lists, not of the counters. */
  lemma ValidIgnoresCounters(s: Store, t: Store)
    requires Valid(s)
    requires t.entries == s.entries && t.order == s.order && t.recency == s.recency
    ensures Valid(t)
  {
  }

  /** The store without `key`: out of the map, the insertion order and the
      recency list, everything else as it was. */
  function DropKey(s: Store, key: Key): (r: Store)
    requires Valid(s)
    ensures Valid(r)
    ensures r.entries == s.entries - {key}
    ensures r.order == Without(s.order, key) && r.recency == Without(s.recency, key)
    ensures r.totalOps == s.totalOps && r.cacheHits == s.cacheHits
    ensures r.cacheMisses == s.cacheMisses && r.evictions == s.evictions
    ensures r.ttlExpirations == s.ttlExpirations
    ensures r.capacity == s.capacity && r.startTime == s.startTime
  {
    s.(entries := s.entries - {key},
       order := Without(s.order, key),
       recency := RemoveNode(s.recency, key))
  }

  /** `get(key)`: a miss for an absent key; an expired key is deleted and
      counted as both a TTL expiration and a miss (and, through `delete`, as a
      second operation); a live key is moved to the front and counted as a hit. */
  function Get(s: Store, key: Key, now: int): (r: Lookup)
    requires Valid(s)
    ensures Valid(r.store)
    ensures r.store.capacity == s.capacity && r.store.startTime == s.startTime
    ensures r.store.evictions == s.evictions
    ensures r.store.order == (if r.store.entries == s.entries then s.order else Without(s.order, key))
    // absent key: a miss, map and order untouched
    ensures key !in s.entries ==>
      && r.value.None?
      && r.store.entries == s.entries && r.store.recency == s.recency
      && r.store.cacheMisses == s.cacheMisses + 1 && r.store.cacheHits == s.cacheHits
      && r.store.ttlExpirations == s.ttlExpirations
      && r.store.totalOps == s.totalOps + 1
    // expired key: removed, one TTL expiration and one miss, two operations
    ensures key in s.entries && IsExpired(s.entries[key], now) ==>
      && r.value.None?
      && r.store.entries == s.entries - {key}
      && r.store.recency == Without(s.recency, key)
      && r.store.ttlExpirations == s.ttlExpirations + 1
      && r.store.cacheMisses == s.cacheMisses + 1 && r.store.cacheHits == s.cacheHits
      && r.store.totalOps == s.totalOps + 2
    // live key: its value, moved to the front, one hit
    ensures key in s.entries && !IsExpired(s.entries[key], now) ==>
      && r.value == Some(s.entries[key].value)
      && r.store.entries == s.entries
      && r.store.recency == [key] + Without(s.recency, key)
      && r.store.cacheHits == s.cacheHits + 1 && r.store.cacheMisses == s.cacheMisses
      && r.store.ttlExpirations == s.ttlExpirations
      && r.store.totalOps == s.totalOps + 1
  {
    var s1 := s.(totalOps := s.totalOps + 1);
    if key !in s1.entries then
      Lookup(None, s1.(cacheMisses := s1.cacheMisses + 1))
    else if IsExpired(s1.entries[key], now) then
      var s2 := s1.(ttlExpirations := s1.ttlExpirations + 1);
      var s3 := Delete(s2, key).store;
      Lookup(None, s3.(cacheMisses := s3.cacheMisses + 1))
    else
      Lookup(Some(s1.entries[key].value),
             s1.(recency := MoveToFront(s1.recency, key), cacheHits := s1.cacheHits + 1))
  }

  /** `ttl_remaining(key)`: None for an absent key or a key without expiry,
      otherwise the time left, clamped at zero. */
  function TtlRemaining(s: Store, key: Key, now: int): (r: Option<int>)
    ensures r.None? <==> key !in s.entries || s.entries[key].expiry.None?
    ensures r.Some? ==> r.value >= 0
    ensures r.Some? ==> (r.value == 0 <==> IsExpired(s.entries[key], now))
    ensures r.Some? && r.value > 0 ==> s.entries[key].expiry.value == now + r.value
  {
    if key !in s.entries || s.entries[key].expiry.None? then None
    else
      var remaining := s.entries[key].expiry.value - now;
      Some(if remaining < 0 then 0 else remaining)
  }

  /** `keys()`: the keys in dict insertion order (not recency order). */
  function Keys(s: Store): (ks: seq<Key>)
    requires Valid(s)
    ensures Distinct(ks) && |ks| == |s.entries|
    ensures forall k :: k in ks <==> k in s.entries
  {
    ValidSizes(s);
    s.order
  }

  /** `stats(wal_size)`: the counters, the number of keys and the uptime. */
  function GetStats(s: Store, now: int, walSize: int): (r: Stats)
    requires Valid(s)
    ensures r.totalKeys == |Keys(s)|
    ensures r.uptimeSeconds == now - s.startTime
    ensures r.totalOps == s.totalOps && r.cacheHits == s.cacheHits && r.cacheMisses == s.cacheMisses
    ensures r.evictions == s.evictions && r.ttlExpirations == s.ttlExpirations
    ensures r.walFileSize == walSize
  {
    Stats(|s.entries|, s.totalOps, s.cacheHits, s.cacheMisses, s.evictions,
          s.ttlExpirations, now - s.startTime, walSize)
  }

  // ------------------------------------------------------------------
  // The sweep body of `_ttl_cleanup_loop`

  /** The keys with an expired entry, in the order of `ks`. */
  function ExpiredIn(ks: seq<Key>, entries: map<Key, Entry>, now: int): (r: seq<Key>)
    ensures forall k :: k in r <==> k in ks && k in entries && IsExpired(entries[k], now)
    ensures Distinct(ks) ==> Distinct(r)
  {
    if |ks| == 0 then []
    else
      DistinctTail(ks);
      var rest := ExpiredIn(ks[1..], entries, now);
      if ks[0] in entries && IsExpired(entries[ks[0]], now) then [ks[0]] + rest else rest
  }

  /** The set of keys whose entry has expired at `now`. */
  function ExpiredKeys(s: Store, now: int): set<Key> {
    set k | k in s.entries && IsExpired(s.entries[k], now)
  }

  /** The second loop of the sweep: for each collected key, count one TTL
      expiration and delete it. */
  function DeleteAll(s: Store, ks: seq<Key>): (r: Store)
    requires Valid(s)
    requires Distinct(ks) && forall k :: k in ks ==> k in s.entries
    ensures Valid(r)
    ensures r.entries == s.entries - Elems(ks)
    ensures r.recency == KeepOnly(s.recency, r.entries.Keys)
    ensures r.order == KeepOnly(s.order, r.entries.Keys)
    ensures r.ttlExpirations == s.ttlExpirations + |ks|
    ensures r.totalOps == s.totalOps + |ks|
    ensures r.evictions == s.evictions
    ensures r.cacheHits == s.cacheHits && r.cacheMisses == s.cacheMisses
    ensures r.capacity == s.capacity && r.startTime == s.startTime
    decreases |ks|
  {
    if |ks| == 0 then
      KeepOnlyAll(s.recency, s.entries.Keys);
      KeepOnlyAll(s.order, s.entries.Keys);
      s
    else
      DistinctTail(ks);
      var s1 := Delete(s.(ttlExpirations := s.ttlExpirations + 1), ks[0]).store;
      var r := DeleteAll(s1, ks[1..]);
      DeleteAllStep(s, ks, s1, r);
      r
  }

  /** The inductive step of `DeleteAll`: deleting the first key, then the rest. */
  lemma DeleteAllStep(s: Store, ks: seq<Key>, s1: Store, r: Store)
    requires |ks| > 0 && ks[0] !in ks[1..]
    requires s1.entries == s.entries - {ks[0]}
    requires s1.recency == Without(s.recency, ks[0]) && s1.order == Without(s.order, ks[0])
    requires r.entries == s1.entries - Elems(ks[1..])
    requires r.recency == KeepOnly(s1.recency, r.entries.Keys)
    requires r.order == KeepOnly(s1.order, r.entries.Keys)
    ensures r.entries == s.entries - Elems(ks)
    ensures r.recency == KeepOnly(s.recency, r.entries.Keys)
    ensures r.order == KeepOnly(s.order, r.entries.Keys)
  {
    assert r.entries == s.entries - Elems(ks) by {
      assert Elems(ks) == {ks[0]} + Elems(ks[1..]);
    }
    KeepOnlyWithout(s.recency, ks[0], r.entries.Keys);
    KeepOnlyWithout(s.order, ks[0], r.entries.Keys);
  }

  /** One cycle of the background cleanup: collect the expired keys in dict
      order, then delete each, counting one TTL expiration per key. */
  function Sweep(s: Store, now: int): (r: Store)
    requires Valid(s)
    ensures Valid(r)
    ensures forall k :: k in r.entries <==> k in s.entries && !IsExpired(s.entries[k], now)
    ensures forall k :: k in r.entries ==> r.entries[k] == s.entries[k]
    ensures r.ttlExpirations == s.ttlExpirations + |ExpiredKeys(s, now)|
    ensures r.totalOps == s.totalOps + |ExpiredKeys(s, now)|
    ensures r.evictions == s.evictions
    ensures r.cacheHits == s.cacheHits && r.cacheMisses == s.cacheMisses
    ensures r.recency == KeepOnly(s.recency, r.entries.Keys)
    ensures r.order == KeepOnly(s.order, r.entries.Keys)
    ensures r.capacity == s.capacity && r.startTime == s.startTime
  {
    var expired := ExpiredIn(s.order, s.entries, now);
    assert Elems(expired) == ExpiredKeys(s, now);
    DistinctCard(expired);
    DeleteAll(s, expired)
  }
}
