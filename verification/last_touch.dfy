/** An independent description of "least recently used": give every key the
    logical time of its last touch (a `set`, or a `get` that hits), and call
    LRU the present key with the oldest touch. The lemmas show that the
    recency list of the store is always the present keys sorted from newest
    to oldest touch, so the tail the store evicts is exactly the LRU key. */
module LastTouch {
  import opened Wrappers
  import opened Seqs
  import opened LruStore
  import opened StoreProps

  /** `rec` lists keys from newest to oldest touch according to `stamp`. */
  ghost predicate OrderedByTouch(rec: seq<Key>, stamp: map<Key, nat>) {
    && (forall i :: 0 <= i < |rec| ==> rec[i] in stamp)
    && (forall i, j :: 0 <= i < j < |rec| ==> stamp[rec[i]] > stamp[rec[j]])
  }

  /** Every recorded touch happened before logical time `clock`. */
  ghost predicate TouchedBefore(stamp: map<Key, nat>, clock: nat) {
    forall k :: k in stamp ==> stamp[k] < clock
  }

  /** The key an operation touches, if any: `set` always touches its key,
      `get` only when it returns a value; `delete` and the sweep touch none. */
  function Touched(s: Store, op: Op, now: int): Option<Key> {
    match op
    case SetOp(k, _, _) => Some(k)
    case GetOp(k) => if k in s.entries && !IsExpired(s.entries[k], now) then Some(k) else None
    case DeleteOp(_) => None
    case SweepOp => None
  }

  function Retouch(stamp: map<Key, nat>, t: Option<Key>, clock: nat): map<Key, nat> {
    match t
    case Some(k) => stamp[k := clock]
    case None => stamp
  }

  /** The touch stamps after a run, the i-th event happening at logical time `clock + i`. */
  function StampsAfter(s: Store, evs: seq<Event>, stamp: map<Key, nat>, clock: nat): map<Key, nat>
    requires Valid(s)
    decreases |evs|
  {
    if |evs| == 0 then stamp
    else
      StampsAfter(Step(s, evs[0].op, evs[0].now), evs[1..],
                  Retouch(stamp, Touched(s, evs[0].op, evs[0].now), clock), clock + 1)
  }

  // ------------------------------------------------------------------
  // How the list primitives act on touch order

  lemma {:induction false} KeepOnlyOrdered(rec: seq<Key>, keep: set<Key>, stamp: map<Key, nat>)
    requires OrderedByTouch(rec, stamp)
    ensures OrderedByTouch(KeepOnly(rec, keep), stamp)
  {
    if |rec| > 0 {
      var t := rec[1..];
      assert OrderedByTouch(t, stamp) by {
        forall i, j | 0 <= i < j < |t| ensures stamp[t[i]] > stamp[t[j]] {
          assert t[i] == rec[i + 1] && t[j] == rec[j + 1];
        }
      }
      KeepOnlyOrdered(t, keep, stamp);
      if rec[0] in keep {
        var r := KeepOnly(t, keep);
        forall y | y in r ensures stamp[rec[0]] > stamp[y] {
          var j :| 0 <= j < |t| && t[j] == y;
          assert rec[j + 1] == y;
        }
        FrontOrdered(rec[0], r, stamp);
      }
    }
  }

  /** A key newer than every key of an ordered list can be put in front of it. */
  lemma FrontOrdered(x: Key, rec: seq<Key>, stamp: map<Key, nat>)
    requires OrderedByTouch(rec, stamp) && x in stamp
    requires forall y :: y in rec ==> stamp[x] > stamp[y]
    ensures OrderedByTouch([x] + rec, stamp)
  {
    var r := [x] + rec;
    forall i, j | 0 <= i < j < |r| ensures stamp[r[i]] > stamp[r[j]] {
      assert r[j] == rec[j - 1];
      if i > 0 {
        assert r[i] == rec[i - 1];
      } else {
        assert rec[j - 1] in rec;
      }
    }
  }

  lemma {:induction false} WithoutOrdered(rec: seq<Key>, x: Key, stamp: map<Key, nat>)
    requires OrderedByTouch(rec, stamp)
    ensures OrderedByTouch(Without(rec, x), stamp)
  {
    if |rec| > 0 {
      var t := rec[1..];
      assert OrderedByTouch(t, stamp) by {
        forall i, j | 0 <= i < j < |t| ensures stamp[t[i]] > stamp[t[j]] {
          assert t[i] == rec[i + 1] && t[j] == rec[j + 1];
        }
      }
      WithoutOrdered(t, x, stamp);
      if rec[0] != x {
        var r := Without(t, x);
        forall y | y in r ensures stamp[rec[0]] > stamp[y] {
          var j :| 0 <= j < |t| && t[j] == y;
          assert rec[j + 1] == y;
        }
        FrontOrdered(rec[0], r, stamp);
      }
    }
  }

  /** Re-stamping a key that is not listed does not disturb the order. */
  lemma RestampAbsent(rec: seq<Key>, x: Key, c: nat, stamp: map<Key, nat>)
    requires OrderedByTouch(rec, stamp) && x !in rec
    ensures OrderedByTouch(rec, stamp[x := c])
  {
    forall i | 0 <= i < |rec| ensures rec[i] != x {
      assert rec[i] in rec;
    }
  }

  /** Touching `x` now (at `clock`) and putting it in front of a list it is not in. */
  lemma TouchFront(x: Key, rec: seq<Key>, stamp: map<Key, nat>, clock: nat)
    requires OrderedByTouch(rec, stamp) && TouchedBefore(stamp, clock) && x !in rec
    ensures OrderedByTouch([x] + rec, stamp[x := clock])
  {
    RestampAbsent(rec, x, clock, stamp);
    forall y | y in rec ensures stamp[x := clock][x] > stamp[x := clock][y] {
      var j :| 0 <= j < |rec| && rec[j] == y;
    }
    FrontOrdered(x, rec, stamp[x := clock]);
  }

  lemma PrefixOrdered(rec: seq<Key>, n: nat, stamp: map<Key, nat>)
    requires OrderedByTouch(rec, stamp) && n <= |rec|
    ensures OrderedByTouch(rec[..n], stamp)
  {
    var p := rec[..n];
    forall i, j | 0 <= i < j < |p| ensures stamp[p[i]] > stamp[p[j]] {
      assert p[i] == rec[i] && p[j] == rec[j];
    }
  }

  // ------------------------------------------------------------------
  // Each operation keeps the recency list ordered by last touch

  lemma SetOrdered(s: Store, k: Key, v: Value, ttl: Option<int>, now: int,
                   stamp: map<Key, nat>, clock: nat)
    requires Valid(s) && OrderedByTouch(s.recency, stamp) && TouchedBefore(stamp, clock)
    ensures OrderedByTouch(Set(s, k, v, ttl, now).recency, stamp[k := clock])
  {
    if k in s.entries {
      WithoutOrdered(s.recency, k, stamp);
      TouchFront(k, Without(s.recency, k), stamp, clock);
    } else if |s.entries| >= s.capacity && |s.entries| > 0 {
      PrefixOrdered(s.recency, |s.recency| - 1, stamp);
      assert k !in s.recency[..|s.recency| - 1] by {
        assert forall y :: y in s.recency[..|s.recency| - 1] ==> y in s.recency;
      }
      TouchFront(k, s.recency[..|s.recency| - 1], stamp, clock);
    } else {
      TouchFront(k, s.recency, stamp, clock);
    }
  }

  lemma GetOrdered(s: Store, k: Key, now: int, stamp: map<Key, nat>, clock: nat)
    requires Valid(s) && OrderedByTouch(s.recency, stamp) && TouchedBefore(stamp, clock)
    ensures OrderedByTouch(Get(s, k, now).store.recency,
                           Retouch(stamp, Touched(s, GetOp(k), now), clock))
  {
    if k in s.entries {
      WithoutOrdered(s.recency, k, stamp);
      if !IsExpired(s.entries[k], now) {
        TouchFront(k, Without(s.recency, k), stamp, clock);
      }
    }
  }

  /** One step keeps the list ordered by touch, with the touched key stamped now. */
  lemma StepOrdered(s: Store, op: Op, now: int, stamp: map<Key, nat>, clock: nat)
    requires Valid(s) && OrderedByTouch(s.recency, stamp) && TouchedBefore(stamp, clock)
    ensures OrderedByTouch(Step(s, op, now).recency, Retouch(stamp, Touched(s, op, now), clock))
    ensures TouchedBefore(Retouch(stamp, Touched(s, op, now), clock), clock + 1)
  {
    match op
    case SetOp(k, v, ttl) => SetOrdered(s, k, v, ttl, now, stamp, clock);
    case GetOp(k) => GetOrdered(s, k, now, stamp, clock);
    case DeleteOp(k) => WithoutOrdered(s.recency, k, stamp);
    case SweepOp => KeepOnlyOrdered(s.recency, Sweep(s, now).entries.Keys, stamp);
  }

  /** After any run, the recency list is ordered by last touch. */
  lemma {:induction false} RunOrdered(s: Store, evs: seq<Event>, stamp: map<Key, nat>, clock: nat)
    requires Valid(s) && OrderedByTouch(s.recency, stamp) && TouchedBefore(stamp, clock)
    ensures OrderedByTouch(Run(s, evs).recency, StampsAfter(s, evs, stamp, clock))
    decreases |evs|
  {
    if |evs| > 0 {
      StepOrdered(s, evs[0].op, evs[0].now, stamp, clock);
      RunOrdered(Step(s, evs[0].op, evs[0].now), evs[1..],
                 Retouch(stamp, Touched(s, evs[0].op, evs[0].now), clock), clock + 1);
    }
  }

  // ------------------------------------------------------------------
  // The eviction victim

  /** When `set` of a new key evicts, it removes exactly one key, and that
      key's last touch is older than that of every other present key. */
  lemma EvictsOldestTouch(s: Store, k: Key, v: Value, ttl: Option<int>, now: int,
                          stamp: map<Key, nat>)
    requires Valid(s) && OrderedByTouch(s.recency, stamp)
    requires k !in s.entries && |s.entries| >= s.capacity && |s.entries| > 0
    ensures var gone := Removed(s, Set(s, k, v, ttl, now));
      && |gone| == 1
      && forall lru, other :: lru in gone && other in s.entries && other != lru ==>
           stamp[lru] < stamp[other]
  {
    SetEvictsOne(s, k, v, ttl, now);
    LastIsOldest(s.recency, stamp);
  }

  /** The last key of a list ordered by touch has the oldest touch. */
  lemma LastIsOldest(rec: seq<Key>, stamp: map<Key, nat>)
    requires OrderedByTouch(rec, stamp) && |rec| > 0
    ensures forall other :: other in rec && other != Last(rec) ==> stamp[Last(rec)] < stamp[other]
  {
    forall other | other in rec && other != Last(rec) ensures stamp[Last(rec)] < stamp[other] {
      var i :| 0 <= i < |rec| && rec[i] == other;
      assert i < |rec| - 1;
    }
  }

  /** From a fresh store, after any run, the recency list is ordered by last
      touch, and a `set` that evicts removes the present key whose last `set`
      or successful `get` is the oldest. */
  lemma EvictsLeastRecentlyUsed(capacity: int, start: int, evs: seq<Event>,
                                k: Key, v: Value, ttl: Option<int>, now: int)
    ensures OrderedByTouch(Run(Empty(capacity, start), evs).recency,
                           StampsAfter(Empty(capacity, start), evs, map[], 0))
    ensures var s := Run(Empty(capacity, start), evs);
      var stamp := StampsAfter(Empty(capacity, start), evs, map[], 0);
      k !in s.entries && |s.entries| >= s.capacity && |s.entries| > 0 ==>
        var gone := Removed(s, Set(s, k, v, ttl, now));
        && |gone| == 1
        && forall lru, other :: lru in gone && other in s.entries && other != lru ==>
             stamp[lru] < stamp[other]
  {
    var s := Run(Empty(capacity, start), evs);
    var stamp := StampsAfter(Empty(capacity, start), evs, map[], 0);
    RunOrdered(Empty(capacity, start), evs, map[], 0);
    if k !in s.entries && |s.entries| >= s.capacity && |s.entries| > 0 {
      EvictsOldestTouch(s, k, v, ttl, now, stamp);
    }
  }
}
