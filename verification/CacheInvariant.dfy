/** The invariant of the object cache over its public operations. */
module CacheInvariant {
  import opened CacheModel
  import opened CacheProofs

  lemma {:induction false} ToEndKeeps(order: seq<Key>, store: map<Key, Entry>, k: Key)
    requires Ordered(order, store) && k in store
    ensures Ordered(ToEnd(order, k), store) && Total(ToEnd(order, k), store) == Total(order, store)
  {
    WithoutMembers(order, k);
    TotalWithout(order, store, k);
    TotalAppend(Without(order, k), k, store);
    var r := ToEnd(order, k);
    var w := Without(order, k);
    assert forall i :: 0 <= i < |w| ==> w[i] in w && r[i] == w[i];
  }

  lemma {:induction false} TouchedKeeps(cfg: Config, c: Cache, k: Key)
    requires Inv(cfg, c) && k in c.store
    ensures Inv(cfg, Touched(c, k))
  {
    hide Ordered, ToEnd, Total;
    ToEndKeeps(c.order, c.store, k);
  }

  lemma {:induction false} MissedKeeps(cfg: Config, c: Cache)
    requires Inv(cfg, c)
    ensures Inv(cfg, Missed(c))
  {
    hide Ordered;
  }

  lemma {:induction false} GetKeeps(cfg: Config, c: Cache, k: Key, now: real)
    requires Inv(cfg, c)
    ensures Inv(cfg, Get(c, k, now).c)
  {
    hide Consistent, Within, Touched, Missed;
    RemoveKeeps(cfg, c, k);
    MissedKeeps(cfg, c);
    MissedKeeps(cfg, Remove(c, k));
    if k in c.store { TouchedKeeps(cfg, c, k); }
  }

  lemma {:induction false} GetWithSwrKeeps(cfg: Config, c: Cache, k: Key, ttl: real, now: real, jitter: real)
    requires Inv(cfg, c)
    ensures Inv(cfg, GetWithSwr(cfg, c, k, ttl, now, jitter).c)
  {
    hide Ordered, Counted, Numbered;
    GetKeeps(cfg, c, k, now);
  }

  lemma {:induction false} ClearMarkerKeeps(cfg: Config, c: Cache, k: Key, version: nat)
    requires Inv(cfg, c)
    ensures Inv(cfg, ClearMarker(c, k, version))
  {
    hide Ordered, Total, Numbered;
  }

  lemma {:induction false} ClearKeeps(cfg: Config, c: Cache)
    requires Inv(cfg, c)
    ensures Inv(cfg, Clear(c))
  {
  }

  // ---------- eviction within an operation ----------

  lemma {:induction false} SubsetSmaller(a: map<Key, Entry>, b: map<Key, Entry>)
    requires a.Keys <= b.Keys
    ensures |a| <= |b|
  {
    assert b.Keys == a.Keys + (b.Keys - a.Keys);
    assert |a.Keys| <= |b.Keys|;
  }

  /** Eviction keeps some entries as they are and afterwards no bound is exceeded, or nothing
    is left. */
  lemma {:induction false} EvictKeeps(cfg: Config, c: Cache, extra: nat, needSlot: bool, now: real)
    requires Consistent(cfg, c)
    ensures var r := Evict(cfg, c, extra, needSlot, now);
            && Consistent(cfg, r) && r.gen == c.gen
            && r.store.Keys <= c.store.Keys && (forall k :: k in r.store ==> r.store[k] == c.store[k])
            && |r.store| <= |c.store|
            && ((|r.store| == 0 && r.bytes == 0) || !Over(cfg, r, extra, needSlot))
  {
    hide Ordered, Marked, Numbered, Over, Evict;
    var p := EvictShape(cfg, c, extra, needSlot, now);
    var r := Evict(cfg, c, extra, needSlot, now);
    SubsetSmaller(r.store, c.store);
    CountKeys(r.order, r.store);
  }

  lemma {:induction false} FilterLast(order: seq<Key>, k: Key, keep: set<Key>)
    requires k in keep
    ensures Filter(order + [k], keep) == Filter(order, keep) + [k]
  {
    if order == [] {
      assert [] + [k] == [k];
    } else {
      assert (order + [k])[1..] == order[1..] + [k];
      FilterLast(order[1..], k, keep);
    }
  }

  /** An unexpired entry at the recently-used end that fits on its own survives an eviction
    that makes no room for anything else. */
  lemma {:induction false} LastSurvives(cfg: Config, c: Cache, init: seq<Key>, k: Key, now: real)
    requires Consistent(cfg, c) && c.order == init + [k] && k in c.store && now < c.store[k].expiresAt
    requires !Oversized(cfg, c.store[k].size)
    ensures k in Evict(cfg, c, 0, false, now).store
  {
    hide Ordered, Counted, Marked, Numbered, Evict, Over;
    var p := EvictShape(cfg, c, 0, false, now);
    if Over(cfg, c, 0, false) {
      var young := Filter(c.order, Unexpired(c.store, now));
      FilterLast(init, k, Unexpired(c.store, now));
      assert young[|young| - 1..] == [k];
      assert Total([k], c.store) == c.store[k].size;
      assert !OverWith(cfg, young[|young| - 1..], c.store, 0, false);
      assert p < |young|;
      assert young[p..][|young| - 1 - p] == k;
    }
  }

  // ---------- refresh ----------

  lemma {:induction false} RefreshedKeeps(cfg: Config, c: Cache, k: Key, e: Entry)
    requires Consistent(cfg, c) && k in c.store && e.gen == c.store[k].gen && (cfg.maxBytes.None? ==> e.size == 0)
    ensures Consistent(cfg, Refreshed(c, k, e))
  {
    hide Ordered, Counted, ToEnd;
    RefreshedCounted(cfg, c, k, e);
    RefreshedOrdered(c, k, e);
  }

  lemma {:induction false} RefreshedOrdered(c: Cache, k: Key, e: Entry)
    requires Ordered(c.order, c.store) && k in c.store
    ensures Ordered(ToEnd(c.order, k), c.store[k := e])
  {
    hide ToEnd;
    ToEndKeeps(c.order, c.store, k);
  }

  lemma {:induction false} RefreshedCounted(cfg: Config, c: Cache, k: Key, e: Entry)
    requires Ordered(c.order, c.store) && Counted(cfg, c.bytes, c.order, c.store) && k in c.store
    requires cfg.maxBytes.None? ==> e.size == 0
    ensures Counted(cfg, c.bytes + e.size - c.store[k].size, ToEnd(c.order, k), c.store[k := e])
  {
    var store := c.store[k := e];
    WithoutMembers(c.order, k);
    TotalWithout(c.order, c.store, k);
    TotalAgrees(Without(c.order, k), c.store, store);
    TotalAppend(Without(c.order, k), k, store);
  }

  lemma {:induction false} LandingKeeps(cfg: Config, d: Cache, k: Key, e: Entry, now: real)
    requires Inv(cfg, d) && k in d.store && e.gen == d.store[k].gen && (cfg.maxBytes.None? ==> e.size == 0)
    requires now < e.expiresAt && !Oversized(cfg, e.size)
    ensures var r := Evict(cfg, Refreshed(d, k, e), 0, false, now);
            Inv(cfg, r) && r.gen == d.gen && k in r.store && r.store[k] == e
  {
    hide Consistent, Evict, Without;
    var f := Refreshed(d, k, e);
    RefreshedKeeps(cfg, d, k, e);
    EvictKeeps(cfg, f, 0, false, now);
    LastSurvives(cfg, f, Without(d.order, k), k, now);
    assert f.store.Keys == d.store.Keys;
    assert |f.store.Keys| == |d.store.Keys|;
  }

  /** A completed refresh keeps the invariant; when it reports success the refreshed entry is in
    the cache, with the value, deadline and generation it was given. */
  lemma {:induction false} CompleteRefreshKeeps(cfg: Config, c: Cache, k: Key, version: nat,
                                                value: Obj, size: nat, ttl: Ttl, now: real)
    requires Inv(cfg, c)
    ensures var w := CompleteRefresh(cfg, c, k, version, value, size, ttl, now);
            && Inv(cfg, w.c) && w.c.gen == c.gen
            && (w.outcome.Landed? ==> k in w.c.store)
            && (w.outcome.Landed? ==> w.c.store[k] == Entry(value, now + ttl.seconds, now, Tracked(cfg, size), version))
  {
    hide Consistent, Evict, Refreshed, Within;
    var d := ClearMarker(c, k, version);
    ClearMarkerKeeps(cfg, c, k, version);
    RemoveKeeps(cfg, d, k);
    if ValidTtl(ttl) && k in d.store && d.store[k].gen == version && !Oversized(cfg, size) {
      LandingKeeps(cfg, d, k, Entry(value, now + ttl.seconds, now, Tracked(cfg, size), version), now);
    }
  }

  /** Once the entry a token was issued for is gone, the token is dead: completing or cancelling
    with it changes nothing at all. */
  lemma {:induction false} DeadTokenIsInert(cfg: Config, c: Cache, k: Key, version: nat,
                                            value: Obj, size: nat, ttl: Ttl, now: real)
    requires Inv(cfg, c) && !(k in c.store && c.store[k].gen == version)
    ensures CompleteRefresh(cfg, c, k, version, value, size, ttl, now) ==
            Write(c, if ValidTtl(ttl) then Rejected else ValueError)
    ensures CancelRefresh(c, k, version) == c
  {
    hide Ordered, Counted, Numbered;
    assert ClearMarker(c, k, version) == c;
  }

  // ---------- put ----------

  lemma {:induction false} StoredKeeps(cfg: Config, d: Cache, k: Key, e: Entry)
    requires Consistent(cfg, d) && k !in d.store && e.gen == d.gen + 1 && (cfg.maxBytes.None? ==> e.size == 0)
    ensures Consistent(cfg, Stored(d, k, e))
  {
    hide Ordered, Counted;
    StoredOrdered(d, k, e);
    StoredCounted(cfg, d, k, e);
  }

  lemma {:induction false} StoredOrdered(d: Cache, k: Key, e: Entry)
    requires Ordered(d.order, d.store) && k !in d.store
    ensures Ordered(d.order + [k], d.store[k := e])
  {
    assert forall i :: 0 <= i < |d.order| ==> d.order[i] in d.order;
  }

  lemma {:induction false} StoredCounted(cfg: Config, d: Cache, k: Key, e: Entry)
    requires Ordered(d.order, d.store) && Counted(cfg, d.bytes, d.order, d.store) && k !in d.store
    requires cfg.maxBytes.None? ==> e.size == 0
    ensures Counted(cfg, d.bytes + e.size, d.order + [k], d.store[k := e])
  {
    TotalAgrees(d.order, d.store, d.store[k := e]);
    TotalAppend(d.order, k, d.store[k := e]);
  }

  lemma {:induction false} NewEntryKeeps(cfg: Config, r: Cache, k: Key, e: Entry, now: real)
    requires ValidConfig(cfg) && Inv(cfg, r) && k !in r.store && e.gen == r.gen + 1
    requires cfg.maxBytes.None? ==> e.size == 0
    requires !Oversized(cfg, e.size)
    ensures var d := Evict(cfg, r, e.size, true, now); d.gen == r.gen && Inv(cfg, Stored(d, k, e))
  {
    hide Consistent, Evict;
    EvictKeeps(cfg, r, e.size, true, now);
    StoredKeeps(cfg, Evict(cfg, r, e.size, true, now), k, e);
  }

  /** A put keeps the invariant; when it lands, the new entry is in the cache under a generation
    never used before. */
  lemma {:induction false} PutKeeps(cfg: Config, c: Cache, k: Key, value: Obj, size: nat, ttl: Ttl, now: real)
    requires ValidConfig(cfg) && Inv(cfg, c)
    ensures var w := Put(cfg, c, k, value, size, ttl, now);
            && Inv(cfg, w.c)
            && (w.outcome.Landed? ==> w.c.gen == c.gen + 1 && k in w.c.store)
            && (w.outcome.Landed? ==>
                  w.c.store[k] == Entry(value, now + ttl.seconds, now, Tracked(cfg, size), c.gen + 1))
            && (!w.outcome.Landed? ==> w.c.gen == c.gen)
  {
    hide Consistent, Evict, Within;
    RemoveKeeps(cfg, c, k);
    if ValidTtl(ttl) && !Oversized(cfg, size) {
      NewEntryKeeps(cfg, Remove(c, k), k, Entry(value, now + ttl.seconds, now, Tracked(cfg, size), c.gen + 1), now);
    }
  }
}
