/** What the cache's order and ages mean over whole runs: keys stand in the order of their latest
  use, and a read asks for a refresh by the age of the latest write. */
module CacheRecency {
  import opened Wrappers
  import opened CacheModel
  import opened CacheProofs
  import opened CacheInvariant
  import opened CacheRuns
  import opened Recency

  // ---------- least recently used ----------

  /** The key an event uses: a hit, a landed put or a landed refresh. */
  function Used(cfg: Config, c: Cache, e: Event): Option<Key> {
    match e
    case Look(k, now) => if Live(c, k, now) then Some(k) else None
    case LookSwr(k, _, now, _) => if Live(c, k, now) then Some(k) else None
    case Complete(k, _, _, _, _, _) => if Lands(cfg, c, e) then Some(k) else None
    case Store(k, _, size, ttl, _) => if ValidTtl(ttl) && !Oversized(cfg, size) then Some(k) else None
    case _ => None
  }

  /** The uses of a run, event by event. */
  function Uses(cfg: Config, es: seq<Event>): (used: seq<Option<Key>>)
    ensures |used| == |es|
  {
    if es == [] then []
    else Uses(cfg, es[..|es| - 1]) + [Used(cfg, Run(cfg, es[..|es| - 1]), es[|es| - 1])]
  }

  lemma {:induction false} WithoutIs(order: seq<Key>, k: Key) returns (i: nat)
    ensures i <= |order|
    ensures Without(order, k) == if i < |order| then order[..i] + order[i + 1..] else order
  {
    if order == [] || order[0] == k {
      i := 0;
    } else {
      var rest := order[1..];
      var j := WithoutIs(rest, k);
      i := j + 1;
      if j < |rest| {
        assert order[..i] == [order[0]] + rest[..j] && order[i + 1..] == rest[j + 1..];
      } else {
        assert [order[0]] + rest == order;
      }
    }
  }

  lemma WithoutByUse(order: seq<Key>, k: Key, used: seq<Option<Key>>)
    requires ByUse(order, used)
    ensures ByUse(Without(order, k), used)
  {
    hide ByUse, Without;
    var i := WithoutIs(order, k);
    if i < |order| { OneDropped(order, i, used); }
  }

  lemma WithoutSubset(order: seq<Key>, k: Key)
    ensures forall x :: x in Without(order, k) ==> x in order
  {
    hide Without;
    var i := WithoutIs(order, k);
  }

  /** Order `b` is `a` with keys taken out, as far as uses can tell. */
  ghost predicate Thinned(a: Cache, b: Cache, used: seq<Option<Key>>) {
    (ByUse(a.order, used) ==> ByUse(b.order, used)) && forall x :: x in b.order ==> x in a.order
  }

  lemma RemoveThins(c: Cache, k: Key, used: seq<Option<Key>>)
    ensures Thinned(c, Remove(c, k), used)
  {
    hide ByUse, Without;
    WithoutSubset(c.order, k);
    if ByUse(c.order, used) { WithoutByUse(c.order, k, used); }
  }

  lemma {:induction false} RemoveAllThins(c: Cache, ks: seq<Key>, used: seq<Option<Key>>)
    ensures Thinned(c, RemoveAll(c, ks), used)
    decreases |ks|
  {
    hide Remove, ByUse;
    if ks != [] {
      RemoveThins(c, ks[0], used);
      RemoveAllThins(Remove(c, ks[0]), ks[1..], used);
    }
  }

  lemma {:induction false} DropThins(cfg: Config, c: Cache, extra: nat, needSlot: bool, used: seq<Option<Key>>)
    ensures Thinned(c, DropOldest(cfg, c, extra, needSlot), used)
    decreases |c.order|
  {
    hide ByUse, Over, Without;
    if !(c.order == [] || !Over(cfg, c, extra, needSlot) || c.order[0] !in c.store) {
      RemoveThins(c, c.order[0], used);
      WithoutShorter(c.order, c.order[0]);
      DropThins(cfg, Remove(c, c.order[0]), extra, needSlot, used);
    }
  }

  lemma EvictThins(cfg: Config, c: Cache, extra: nat, needSlot: bool, now: real, used: seq<Option<Key>>)
    ensures Thinned(c, Evict(cfg, c, extra, needSlot, now), used)
  {
    hide ByUse, RemoveAll, DropOldest, Over;
    var keys := ExpiredKeys(c.order, c.store, now);
    RemoveAllThins(c, keys, used);
    DropThins(cfg, RemoveAll(c, keys), extra, needSlot, used);
  }

  lemma {:induction false} StepByUse(cfg: Config, c: Cache, e: Event, used: seq<Option<Key>>)
    requires ValidConfig(cfg) && Inv(cfg, c) && ByUse(c.order, used)
    ensures ByUse(Step(cfg, c, e).order, used + [Used(cfg, c, e)])
  {
    hide Inv, Remove, Evict, Without, ByUse, Lands;
    var now := used + [Used(cfg, c, e)];
    if Used(cfg, c, e).None? {
      NothingUsed(c.order, used);
      UnusedByUse(cfg, c, e, now);
    } else {
      var k := Used(cfg, c, e).value;
      TakenOut(cfg, c, k);
      WithoutByUse(c.order, k, used);
      UsedLast(Without(c.order, k), k, used);
      if e.Complete? {
        RefreshByUse(cfg, c, e, now);
      } else if e.Store? {
        StoreByUse(cfg, c, e, used);
      }
    }
  }

  lemma TakenOut(cfg: Config, c: Cache, k: Key)
    requires Inv(cfg, c)
    ensures k !in Without(c.order, k)
  {
    hide Without;
    WithoutMembers(c.order, k);
  }

  lemma UnusedByUse(cfg: Config, c: Cache, e: Event, used: seq<Option<Key>>)
    requires Used(cfg, c, e).None? && ByUse(c.order, used)
    ensures ByUse(Step(cfg, c, e).order, used)
  {
    hide Remove, Evict, Without, ByUse;
    NothingByUse(used);
    if !e.ClearAll? { RemoveThins(c, e.k, used); }
    if e.Complete? { RemoveThins(ClearMarker(c, e.k, e.version), e.k, used); }
  }

  lemma NothingByUse(used: seq<Option<Key>>)
    ensures ByUse([], used)
  {
  }

  lemma RefreshByUse(cfg: Config, c: Cache, e: Event, used: seq<Option<Key>>)
    requires e.Complete? && Lands(cfg, c, e) && ByUse(Without(c.order, e.k) + [e.k], used)
    ensures ByUse(Step(cfg, c, e).order, used)
  {
    hide ByUse, Evict, Without;
    var x := Entry(e.value, e.now + e.ttl.seconds, e.now, Tracked(cfg, e.size), e.version);
    EvictThins(cfg, Refreshed(ClearMarker(c, e.k, e.version), e.k, x), 0, false, e.now, used);
  }

  lemma StoreByUse(cfg: Config, c: Cache, e: Event, used: seq<Option<Key>>)
    requires Inv(cfg, c) && e.Store? && ValidTtl(e.ttl) && !Oversized(cfg, e.size) && ByUse(c.order, used)
    ensures ByUse(Step(cfg, c, e).order, used + [Some(e.k)])
  {
    hide ByUse, Evict, Without, Inv;
    var r := Remove(c, e.k);
    RemoveThins(c, e.k, used);
    RemovedKey(cfg, c, e.k);
    EvictThins(cfg, r, Tracked(cfg, e.size), true, e.now, used);
    UsedLast(Evict(cfg, r, Tracked(cfg, e.size), true, e.now).order, e.k, used);
  }

  lemma RemovedKey(cfg: Config, c: Cache, k: Key)
    requires Inv(cfg, c)
    ensures k !in Remove(c, k).order
  {
    hide Without;
    WithoutMembers(c.order, k);
    ConsistentOrder(cfg, c);
  }

  /** Over every run the order lists the keys by their latest use, oldest first: what eviction
    takes first is what was used least recently. */
  lemma {:induction false} OrderIsRecency(cfg: Config, es: seq<Event>)
    requires ValidConfig(cfg)
    ensures ByUse(Run(cfg, es).order, Uses(cfg, es))
  {
    hide Inv, Step, Used;
    if es != [] {
      var init := es[..|es| - 1];
      OrderIsRecency(cfg, init);
      RunKeeps(cfg, init);
      StepByUse(cfg, Run(cfg, init), es[|es| - 1], Uses(cfg, init));
    }
  }

  // ---------- what a hit returns ----------

  /** `e` is a put or a refresh of `k` that lands. */
  predicate LandsOn(cfg: Config, c: Cache, e: Event, k: Key) {
    (e.Store? || e.Complete?) && Used(cfg, c, e) == Some(k)
  }

  /** Event i landed on `k`, no later one did, and `k` stayed in the cache since. */
  ghost predicate LatestLanding(cfg: Config, es: seq<Event>, k: Key, i: nat) {
    && i < |es| && LandsOn(cfg, Run(cfg, es[..i]), es[i], k)
    && (forall j :: i < j < |es| ==> !LandsOn(cfg, Run(cfg, es[..j]), es[j], k))
    && (forall j :: i < j <= |es| ==> k in Run(cfg, es[..j]).store)
  }

  lemma {:induction false} StepWritten(cfg: Config, c: Cache, e: Event, k: Key)
    requires ValidConfig(cfg) && Inv(cfg, c) && k in Step(cfg, c, e).store
    ensures !LandsOn(cfg, c, e, k) ==> k in c.store && Step(cfg, c, e).store[k] == c.store[k]
    ensures LandsOn(cfg, c, e, k) ==> WrittenBy(Step(cfg, c, e).store[k], e)
  {
    hide Inv, Put, CompleteRefresh, Get, GetWithSwr;
    if e.Store? {
      StoreLands(cfg, c, e);
      PutKeeps(cfg, c, e.k, e.value, e.size, e.ttl, e.now);
      StoreOrigin(cfg, c, e, k);
    } else if e.Complete? {
      CompleteLands(cfg, c, e);
      CompleteRefreshKeeps(cfg, c, e.k, e.version, e.value, e.size, e.ttl, e.now);
      CompleteOrigin(cfg, c, e, k);
    } else {
      QuietOrigin(cfg, c, e, k);
    }
  }

  /** The entry holds the value, the age and the deadline that `e` gives it. */
  predicate WrittenBy(x: Entry, e: Event)
    requires e.Store? || e.Complete?
  {
    x.value == e.value && x.cachedAt == e.now && e.ttl.Finite? && x.expiresAt == e.now + e.ttl.seconds
  }

  /** Every cached entry is what the latest landed put or refresh of its key wrote. */
  lemma {:induction false} CachedWhenWritten(cfg: Config, es: seq<Event>, k: Key) returns (i: nat)
    requires ValidConfig(cfg) && k in Run(cfg, es).store
    ensures LatestLanding(cfg, es, k, i) && WrittenBy(Run(cfg, es).store[k], es[i])
  {
    hide Inv, Step, WrittenBy, LandsOn, LatestLanding;
    assert es != [];
    var init, e := es[..|es| - 1], es[|es| - 1];
    RunKeeps(cfg, init);
    StepWritten(cfg, Run(cfg, init), e, k);
    if LandsOn(cfg, Run(cfg, init), e, k) {
      i := |init|;
      LandsNow(cfg, es, k);
    } else {
      i := CachedWhenWritten(cfg, init, k);
      LandedBefore(cfg, es, k, i);
      LandingIsWrite(cfg, init, k, i);
      assert es[i] == init[i];
    }
  }

  lemma LandsNow(cfg: Config, es: seq<Event>, k: Key)
    requires es != [] && k in Run(cfg, es).store
    requires LandsOn(cfg, Run(cfg, es[..|es| - 1]), es[|es| - 1], k)
    ensures LatestLanding(cfg, es, k, |es| - 1)
  {
    hide Run, LandsOn;
    assert es[..|es|] == es;
  }

  lemma LandedBefore(cfg: Config, es: seq<Event>, k: Key, i: nat)
    requires es != [] && k in Run(cfg, es).store && LatestLanding(cfg, es[..|es| - 1], k, i)
    requires !LandsOn(cfg, Run(cfg, es[..|es| - 1]), es[|es| - 1], k)
    ensures LatestLanding(cfg, es, k, i)
  {
    hide Run, LandsOn;
    var init := es[..|es| - 1];
    assert es[..|es|] == es && init[..i] == es[..i];
    forall j | i < j < |es| ensures !LandsOn(cfg, Run(cfg, es[..j]), es[j], k) {
      if j < |init| { assert init[..j] == es[..j]; }
    }
    forall j | i < j <= |es| ensures k in Run(cfg, es[..j]).store {
      if j <= |init| { assert init[..j] == es[..j]; }
    }
  }

  /** A hit of either lookup returns the value of the latest put or refresh that landed in the
    cache, before that write's own deadline, and the key stayed in the cache since. */
  lemma HitIsLatestLanding(cfg: Config, es: seq<Event>, k: Key, ttl: real, now: real, jitter: real) returns (i: nat)
    requires ValidConfig(cfg) && Get(Run(cfg, es), k, now).value.Some?
    ensures LatestLanding(cfg, es, k, i)
    ensures Get(Run(cfg, es), k, now).value == Some(es[i].value)
    ensures GetWithSwr(cfg, Run(cfg, es), k, ttl, now, jitter).value == Some(es[i].value)
    ensures es[i].ttl.Finite? && now < es[i].now + es[i].ttl.seconds
  {
    hide Run, LatestLanding, LandsOn, Without;
    i := CachedWhenWritten(cfg, es, k);
    LandingIsWrite(cfg, es, k, i);
  }

  lemma LandingIsWrite(cfg: Config, es: seq<Event>, k: Key, i: nat)
    requires LatestLanding(cfg, es, k, i)
    ensures i < |es| && (es[i].Store? || es[i].Complete?)
  {
    hide Run, Used;
  }

  // ---------- when a refresh is asked for ----------

  lemma Between(x: real, lo: real, j: real, hi: real)
    requires x >= 0.0 && lo <= j <= hi
    ensures x * lo <= x * j <= x * hi
  {
    assert x * (j - lo) >= 0.0 && x * (hi - j) >= 0.0;
  }

  /** A hit asks for a refresh exactly when the latest write is older than the jittered threshold
    and none is in flight: never before the threshold less 10%, always past the threshold plus 10%.
    Its token is the generation of the entry it found. */
  lemma RefreshByAge(cfg: Config, es: seq<Event>, k: Key, ttl: real, now: real, jitter: real) returns (i: nat)
    requires ValidConfig(cfg) && ttl >= 0.0 && 0.9 <= jitter <= 1.1
    requires GetWithSwr(cfg, Run(cfg, es), k, ttl, now, jitter).value.Some?
    ensures LatestLanding(cfg, es, k, i) && (es[i].Store? || es[i].Complete?)
    ensures var r := GetWithSwr(cfg, Run(cfg, es), k, ttl, now, jitter);
            var age, threshold := now - es[i].now, ttl * cfg.ratio;
            && (r.needsRefresh <==> age > threshold * jitter && k !in Run(cfg, es).refreshing)
            && k in Run(cfg, es).store && r.version == Run(cfg, es).store[k].gen
            && (r.needsRefresh ==> age > threshold * 0.9 && k !in Run(cfg, es).refreshing)
            && (!r.needsRefresh && age > threshold * 1.1 ==> k in Run(cfg, es).refreshing)
  {
    hide Run, LatestLanding, LandsOn, Without;
    i := CachedWhenWritten(cfg, es, k);
    LandingIsWrite(cfg, es, k, i);
    assert ttl * cfg.ratio >= 0.0;
    Between(ttl * cfg.ratio, 0.9, jitter, 1.1);
  }

  // ---------- hits and misses counted ----------

  predicate IsLookup(e: Event) {
    e.Look? || e.LookSwr?
  }

  /** Lookups of a run that found an unexpired entry. */
  function HitsOf(cfg: Config, es: seq<Event>): nat {
    if es == [] then 0
    else
      var init, e := es[..|es| - 1], es[|es| - 1];
      HitsOf(cfg, init) + if IsLookup(e) && Live(Run(cfg, init), e.k, e.now) then 1 else 0
  }

  function LookupsOf(es: seq<Event>): nat {
    if es == [] then 0 else LookupsOf(es[..|es| - 1]) + if IsLookup(es[|es| - 1]) then 1 else 0
  }

  predicate SameCounts(c: Cache, d: Cache) {
    c.hits == d.hits && c.misses == d.misses
  }

  lemma {:induction false} RemoveAllCounts(c: Cache, ks: seq<Key>)
    ensures SameCounts(c, RemoveAll(c, ks))
    decreases |ks|
  {
    hide Without;
    if ks != [] { RemoveAllCounts(Remove(c, ks[0]), ks[1..]); }
  }

  lemma {:induction false} DropCounts(cfg: Config, c: Cache, extra: nat, needSlot: bool)
    ensures SameCounts(c, DropOldest(cfg, c, extra, needSlot))
    decreases |c.order|
  {
    hide Over, Without;
    if !(c.order == [] || !Over(cfg, c, extra, needSlot) || c.order[0] !in c.store) {
      WithoutShorter(c.order, c.order[0]);
      DropCounts(cfg, Remove(c, c.order[0]), extra, needSlot);
    }
  }

  lemma EvictCounts(cfg: Config, c: Cache, extra: nat, needSlot: bool, now: real)
    ensures SameCounts(c, Evict(cfg, c, extra, needSlot, now))
  {
    hide RemoveAll, DropOldest, Over;
    var keys := ExpiredKeys(c.order, c.store, now);
    RemoveAllCounts(c, keys);
    DropCounts(cfg, RemoveAll(c, keys), extra, needSlot);
  }

  lemma StepCounts(cfg: Config, c: Cache, e: Event)
    ensures var d := Step(cfg, c, e);
            && d.hits == c.hits + (if IsLookup(e) && Live(c, e.k, e.now) then 1 else 0)
            && d.misses == c.misses + if IsLookup(e) && !Live(c, e.k, e.now) then 1 else 0
  {
    hide Evict, Without;
    if e.Store? {
      EvictCounts(cfg, Remove(c, e.k), Tracked(cfg, e.size), true, e.now);
    } else if e.Complete? && Lands(cfg, c, e) {
      var x := Entry(e.value, e.now + e.ttl.seconds, e.now, Tracked(cfg, e.size), e.version);
      EvictCounts(cfg, Refreshed(ClearMarker(c, e.k, e.version), e.k, x), 0, false, e.now);
    }
  }

  /** Over every run `hits` counts the lookups of either kind that found an unexpired entry, and
    hits and misses together are the lookups. */
  lemma {:induction false} CountersExact(cfg: Config, es: seq<Event>)
    ensures Run(cfg, es).hits == HitsOf(cfg, es) && Run(cfg, es).hits + Run(cfg, es).misses == LookupsOf(es)
  {
    hide Step, Live;
    if es != [] {
      CountersExact(cfg, es[..|es| - 1]);
      StepCounts(cfg, Run(cfg, es[..|es| - 1]), es[|es| - 1]);
    }
  }
}
