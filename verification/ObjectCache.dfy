/** The object cache as its methods run: an ordered dict, the in-flight markers and counters,
  updated step by step.  Each method is proved against its operation in CacheModel. */
module ObjectCacheClass {
  import opened Wrappers
  import opened CacheModel
  import opened CacheProofs
  import opened CacheInvariant

  class ObjectCache {
    const cfg: Config
    const sizeOf: Obj -> nat
    var order: seq<Key>
    var store: map<Key, Entry>
    var currentSizeBytes: int
    var refreshing: map<Key, nat>
    var generation: nat
    var hits: nat
    var misses: nat

    function Model(): Cache
      reads this
    {
      Cache(order, store, currentSizeBytes, refreshing, generation, hits, misses)
    }

    ghost predicate Valid()
      reads this
    {
      ValidConfig(cfg) && Inv(cfg, Model())
    }

    constructor (cfg: Config, sizeOf: Obj -> nat)
      requires ValidConfig(cfg)
      ensures Valid() && this.cfg == cfg && this.sizeOf == sizeOf && Model() == EMPTY
    {
      this.cfg, this.sizeOf := cfg, sizeOf;
      order, store, currentSizeBytes, refreshing, generation := [], map[], 0, map[], 0;
      hits, misses := 0, 0;
    }

    /** `__init__`: invalid bounds or ratio raise ValueError; no ratio stands for NaN or an infinity. */
    static method New(maxEntries: Option<int>, maxBytes: Option<int>, ratio: Option<real>, sizeOf: Obj -> nat)
      returns (r: Option<ObjectCache>)
      ensures r.Some? <==>
              && (maxEntries.Some? || maxBytes.Some?)
              && (maxEntries.Some? ==> maxEntries.value >= 1) && (maxBytes.Some? ==> maxBytes.value >= 1)
              && ratio.Some? && 0.0 < ratio.value <= 1.0
      ensures r.Some? ==> fresh(r.value) && r.value.Valid() && r.value.Model() == EMPTY
      ensures r.Some? ==> r.value.cfg == Config(maxEntries, maxBytes, ratio.value)
    {
      if maxEntries.None? && maxBytes.None? { return None; }
      if maxEntries.Some? && maxEntries.value < 1 { return None; }
      if maxBytes.Some? && maxBytes.value < 1 { return None; }
      if ratio.None? || !(0.0 < ratio.value <= 1.0) { return None; }
      var c := new ObjectCache(Config(maxEntries, maxBytes, ratio.value), sizeOf);
      r := Some(c);
    }

    // ---------- private helpers ----------

    /** `move_to_end`. */
    method MoveToEnd(k: Key)
      modifies this`order
      ensures order == ToEnd(old(order), k)
    {
      order := Without(order, k) + [k];
    }

    method RemoveEntry(k: Key)
      modifies this
      ensures Model() == Remove(old(Model()), k)
    {
      if k !in store { return; }
      var entry := store[k];
      order, store := Without(order, k), store - {k};
      currentSizeBytes := currentSizeBytes - entry.size;
      refreshing := refreshing - {k};
    }

    predicate OverBounds(extra: nat, needSlot: bool)
      reads this
    {
      var overEntries := needSlot && cfg.maxEntries.Some? && |store| >= cfg.maxEntries.value;
      var overBytes := cfg.maxBytes.Some? && currentSizeBytes + extra > cfg.maxBytes.value;
      overEntries || overBytes
    }

    method ListExpired(now: real) returns (expired: seq<Key>)
      requires Consistent(cfg, Model())
      ensures expired == ExpiredKeys(order, store, now)
    {
      hide Consistent, Ordered, Distinct, ExpiredKeys;
      ConsistentOrder(cfg, Model());
      expired := [];
      assert order[0..] == order;
      for i := 0 to |order|
        invariant ExpiredKeys(order, store, now) == expired + ExpiredKeys(order[i..], store, now)
      {
        assert order[i] in order;
        ExpiredStep(order, store, now, i);
        if now >= store[order[i]].expiresAt {
          expired := expired + [order[i]];
        }
      }
      NoneExpired(order[|order|..], store, now);
    }

    lemma {:induction false} ExpiredStep(order: seq<Key>, store: map<Key, Entry>, now: real, i: nat)
      requires i < |order| && order[i] in store
      ensures ExpiredKeys(order[i..], store, now) ==
              (if now >= store[order[i]].expiresAt then [order[i]] else []) + ExpiredKeys(order[i + 1..], store, now)
    {
      assert order[i..][1..] == order[i + 1..];
    }

    lemma NoneExpired(order: seq<Key>, store: map<Key, Entry>, now: real)
      ensures order == [] ==> ExpiredKeys(order, store, now) == []
    {
    }

    method RemoveEach(keys: seq<Key>)
      modifies this
      ensures Model() == RemoveAll(old(Model()), keys)
    {
      hide Remove;
      for j := 0 to |keys|
        invariant RemoveAll(old(Model()), keys) == RemoveAll(Model(), keys[j..])
      {
        assert keys[j..][1..] == keys[j + 1..];
        RemoveEntry(keys[j]);
      }
    }

    method RemoveOldest(extra: nat, needSlot: bool)
      requires Consistent(cfg, Model())
      modifies this
      ensures Model() == DropOldest(cfg, old(Model()), extra, needSlot)
    {
      hide Consistent, Remove;
      while order != [] && OverBounds(extra, needSlot)
        invariant Consistent(cfg, Model())
        invariant DropOldest(cfg, old(Model()), extra, needSlot) == DropOldest(cfg, Model(), extra, needSlot)
        decreases |order|
      {
        ConsistentOrder(cfg, Model());
        RemoveKeeps(cfg, Model(), order[0]);
        RemoveShorter(Model(), order[0]);
        RemoveEntry(order[0]);
      }
    }

    method EvictFor(extra: nat, needSlot: bool, now: real)
      requires Consistent(cfg, Model())
      modifies this
      ensures Model() == Evict(cfg, old(Model()), extra, needSlot, now)
    {
      hide Consistent, DropOldest, RemoveAll, ExpiredKeys;
      if !OverBounds(extra, needSlot) { return; }
      SweepShape(cfg, Model(), now);
      var expired := ListExpired(now);
      RemoveEach(expired);
      RemoveOldest(extra, needSlot);
    }

    lemma RemoveShorter(c: Cache, k: Key)
      requires k in c.order && k in c.store
      ensures |Remove(c, k).order| == |c.order| - 1
    {
      WithoutShorter(c.order, k);
    }

    // ---------- public operations ----------

    method GetValue(k: Key, now: real) returns (value: Option<Obj>)
      requires Valid()
      modifies this
      ensures Valid()
      ensures Lookup(Model(), value) == Get(old(Model()), k, now)
    {
      hide Inv;
      GetKeeps(cfg, Model(), k, now);
      if k !in store {
        misses := misses + 1;
        return None;
      }
      var entry := store[k];
      if now >= entry.expiresAt {
        RemoveEntry(k);
        misses := misses + 1;
        return None;
      }
      MoveToEnd(k);
      hits := hits + 1;
      value := Some(entry.value);
    }

    method GetValueWithSwr(k: Key, ttl: real, now: real, jitter: real)
      returns (value: Option<Obj>, needsRefresh: bool, version: nat)
      requires Valid()
      modifies this
      ensures Valid()
      ensures SwrLookup(Model(), value, needsRefresh, version) == GetWithSwr(cfg, old(Model()), k, ttl, now, jitter)
    {
      hide Inv;
      GetWithSwrKeeps(cfg, Model(), k, ttl, now, jitter);
      if k !in store {
        misses := misses + 1;
        return None, false, 0;
      }
      var entry := store[k];
      if now >= entry.expiresAt {
        RemoveEntry(k);
        misses := misses + 1;
        return None, false, 0;
      }
      MoveToEnd(k);
      hits := hits + 1;
      version := entry.gen;
      needsRefresh := false;
      if now - entry.cachedAt > ttl * cfg.ratio * jitter && k !in refreshing {
        refreshing := refreshing[k := entry.gen];
        needsRefresh := true;
      }
      value := Some(entry.value);
    }

    method Complete(k: Key, version: nat, value: Obj, ttl: Ttl, now: real) returns (outcome: Outcome)
      requires Valid()
      modifies this
      ensures Valid()
      ensures Write(Model(), outcome) == CompleteRefresh(cfg, old(Model()), k, version, value, sizeOf(value), ttl, now)
    {
      hide Inv, Consistent, Evict, Refreshed, Remove;
      CompleteRefreshKeeps(cfg, Model(), k, version, value, sizeOf(value), ttl, now);
      if !ValidTtl(ttl) { return ValueError; }
      var size := if cfg.maxBytes.Some? then sizeOf(value) else 0;
      ClearMarkerKeeps(cfg, Model(), k, version);
      if k in refreshing && refreshing[k] == version {
        refreshing := refreshing - {k};
      }
      if k !in store { return Rejected; }
      var entry := store[k];
      if entry.gen != version { return Rejected; }
      if cfg.maxBytes.Some? && size > cfg.maxBytes.value {
        RemoveEntry(k);
        return Rejected;
      }
      ghost var e := Entry(value, now + ttl.seconds, now, size, version);
      assert Consistent(cfg, Model()) by { InvConsistent(cfg, Model()); }
      RefreshedKeeps(cfg, Model(), k, e);
      Refresh(k, value, now + ttl.seconds, size, now);
      EvictFor(0, false, now);
      outcome := Landed;
    }

    /** The entry is updated in place: its generation stays. */
    method Refresh(k: Key, value: Obj, expiresAt: real, size: nat, now: real)
      requires k in store
      modifies this`currentSizeBytes, this`store, this`order
      ensures Model() == Refreshed(old(Model()), k, Entry(value, expiresAt, now, size, old(store)[k].gen))
    {
      hide ToEnd;
      var entry := store[k];
      currentSizeBytes := currentSizeBytes + (size - entry.size);
      entry := entry.(value := value);
      entry := entry.(cachedAt := now);
      entry := entry.(expiresAt := expiresAt);
      entry := entry.(size := size);
      store := store[k := entry];
      MoveToEnd(k);
    }

    method Cancel(k: Key, version: nat)
      requires Valid()
      modifies this
      ensures Valid()
      ensures Model() == CancelRefresh(old(Model()), k, version)
    {
      hide Inv;
      ClearMarkerKeeps(cfg, Model(), k, version);
      if k in refreshing && refreshing[k] == version {
        refreshing := refreshing - {k};
      }
    }

    method PutValue(k: Key, value: Obj, ttl: Ttl, now: real) returns (outcome: Outcome)
      requires Valid()
      modifies this
      ensures Valid()
      ensures Write(Model(), outcome) == Put(cfg, old(Model()), k, value, sizeOf(value), ttl, now)
    {
      hide Inv, Consistent, Evict, Stored, Remove;
      RemoveAbsent(Model(), k);
      PutKeeps(cfg, Model(), k, value, sizeOf(value), ttl, now);
      if !ValidTtl(ttl) { return ValueError; }
      var size := if cfg.maxBytes.Some? then sizeOf(value) else 0;
      if cfg.maxBytes.Some? && size > cfg.maxBytes.value {
        if k in store { RemoveEntry(k); }
        return Rejected;
      }
      assert Consistent(cfg, Model()) by { InvConsistent(cfg, Model()); }
      Insert(k, value, now + ttl.seconds, size, now);
      outcome := Landed;
    }

    /** The end of `put`: replace, make room, store under a new generation. */
    method Insert(k: Key, value: Obj, expiresAt: real, size: nat, now: real)
      requires Consistent(cfg, Model())
      modifies this
      ensures var d := Evict(cfg, Remove(old(Model()), k), size, true, now);
              Model() == Stored(d, k, Entry(value, expiresAt, now, size, d.gen + 1))
    {
      hide Consistent, Evict, Remove;
      RemoveKeeps(cfg, Model(), k);
      RemoveAbsent(Model(), k);
      if k in store { RemoveEntry(k); }
      EvictFor(size, true, now);
      generation := generation + 1;
      order, store := order + [k], store[k := Entry(value, expiresAt, now, size, generation)];
      currentSizeBytes := currentSizeBytes + size;
    }

    lemma RemoveAbsent(c: Cache, k: Key)
      ensures k !in c.store ==> Remove(c, k) == c
    {
    }

    method Delete(k: Key) returns (removed: bool)
      requires Valid()
      modifies this
      ensures Valid()
      ensures Model() == Remove(old(Model()), k) && removed == (k in old(store))
    {
      hide Consistent;
      RemoveKeeps(cfg, Model(), k);
      if k in store {
        RemoveEntry(k);
        return true;
      }
      removed := false;
    }

    method ClearAll()
      requires Valid()
      modifies this
      ensures Valid()
      ensures Model() == Clear(old(Model()))
    {
      ClearKeeps(cfg, Model());
      order, store, currentSizeBytes, refreshing := [], map[], 0, map[];
    }
  }
}
