/** Which entries a put and a completed refresh leave in the cache: all of them while no bound is
  exceeded, else the unexpired ones less the shortest least-recently-used prefix that makes room. */
module CacheShapes {
  import opened CacheModel
  import opened CacheProofs
  import opened CacheInvariant

  /** What is left of the keys of `line`, oldest first, once room is made for `extra` bytes and,
    with `needSlot`, for one more entry. */
  ghost predicate MadeRoom(cfg: Config, line: seq<Key>, store: map<Key, Entry>, extra: nat, needSlot: bool, now: real,
                           left: seq<Key>)
  {
    if !OverWith(cfg, line, store, extra, needSlot) then left == line
    else
      var young := Filter(line, Unexpired(store, now));
      exists p :: Dropped(cfg, young, store, extra, needSlot, p, left)
  }

  /** The first `p` keys of `young` had to go, and no more of them. */
  ghost predicate Dropped(cfg: Config, young: seq<Key>, store: map<Key, Entry>, extra: nat, needSlot: bool,
                          p: nat, left: seq<Key>)
  {
    && p <= |young| && left == young[p..]
    && OverBefore(cfg, young, store, p, extra, needSlot)
    && (left == [] || !OverWith(cfg, left, store, extra, needSlot))
  }

  /** The key `k` could not be kept: a bound was exceeded, and `k` had expired or was among the
    least recently used keys without which a bound still was. */
  ghost predicate HadToGo(cfg: Config, line: seq<Key>, store: map<Key, Entry>, extra: nat, needSlot: bool, now: real,
                          k: Key)
  {
    var young := Filter(line, Unexpired(store, now));
    && k in line && k in store && OverWith(cfg, line, store, extra, needSlot)
    && (now >= store[k].expiresAt ||
        exists p :: 0 <= p <= |young| && k in young[..p] && OverBefore(cfg, young, store, p, extra, needSlot))
  }

  lemma {:induction false} NotLeft(cfg: Config, line: seq<Key>, store: map<Key, Entry>, extra: nat, needSlot: bool,
                                   now: real, left: seq<Key>, k: Key)
    requires MadeRoom(cfg, line, store, extra, needSlot, now, left) && k in line && k in store && k !in left
    ensures HadToGo(cfg, line, store, extra, needSlot, now, k)
  {
    hide OverWith, Filter, OverBefore;
    if now < store[k].expiresAt {
      var young := Filter(line, Unexpired(store, now));
      FilterMembers(line, Unexpired(store, now));
      assert OverWith(cfg, line, store, extra, needSlot);
      var p: nat :| Dropped(cfg, young, store, extra, needSlot, p, left);
      assert young == young[..p] + young[p..] && k in young;
    }
  }

  /** The entries of the keys `left`. */
  ghost function Among(store: map<Key, Entry>, left: seq<Key>): map<Key, Entry> {
    map k | k in store.Keys && k in left :: store[k]
  }

  /** A marker goes with its entry and only then. */
  ghost predicate MarkersStay(c: Cache, r: Cache) {
    r.refreshing == map k | k in c.refreshing.Keys && k in r.store :: c.refreshing[k]
  }

  // ---------- eviction ----------

  lemma RemoveMarkers(cfg: Config, c: Cache, k: Key)
    requires Consistent(cfg, c)
    ensures MarkersStay(c, Remove(c, k))
  {
    hide Ordered, Counted, Without;
  }

  lemma MarkersTransitive(a: Cache, b: Cache, c: Cache)
    requires MarkersStay(a, b) && MarkersStay(b, c) && c.store.Keys <= b.store.Keys
    ensures MarkersStay(a, c)
  {
  }

  lemma MarkersSelf(cfg: Config, c: Cache)
    requires Consistent(cfg, c)
    ensures MarkersStay(c, c)
  {
    hide Ordered, Counted;
  }

  lemma {:induction false} RemoveAllMarkers(cfg: Config, c: Cache, ks: seq<Key>)
    requires Consistent(cfg, c)
    ensures MarkersStay(c, RemoveAll(c, ks)) && RemoveAll(c, ks).store.Keys <= c.store.Keys
    decreases |ks|
  {
    hide Consistent, MarkersStay, Remove;
    MarkersSelf(cfg, c);
    if ks != [] {
      RemoveKeeps(cfg, c, ks[0]);
      RemoveMarkers(cfg, c, ks[0]);
      RemoveAllMarkers(cfg, Remove(c, ks[0]), ks[1..]);
      MarkersTransitive(c, Remove(c, ks[0]), RemoveAll(c, ks));
    }
  }

  lemma {:induction false} DropMarkers(cfg: Config, c: Cache, extra: nat, needSlot: bool)
    requires Consistent(cfg, c)
    ensures MarkersStay(c, DropOldest(cfg, c, extra, needSlot))
    ensures DropOldest(cfg, c, extra, needSlot).store.Keys <= c.store.Keys
    decreases |c.order|
  {
    hide Consistent, MarkersStay, Remove, Over;
    MarkersSelf(cfg, c);
    if c.order != [] && Over(cfg, c, extra, needSlot) && c.order[0] in c.store {
      var d := Remove(c, c.order[0]);
      RemoveKeeps(cfg, c, c.order[0]);
      RemoveMarkers(cfg, c, c.order[0]);
      Shorter(c);
      DropMarkers(cfg, d, extra, needSlot);
      MarkersTransitive(c, d, DropOldest(cfg, d, extra, needSlot));
    }
  }

  lemma Shorter(c: Cache)
    requires c.order != [] && c.order[0] in c.store
    ensures |Remove(c, c.order[0]).order| < |c.order|
  {
    WithoutShorter(c.order, c.order[0]);
  }

  /** Eviction leaves what making room leaves, with its entries and markers as they were. */
  lemma {:induction false} EvictMakesRoom(cfg: Config, c: Cache, extra: nat, needSlot: bool, now: real)
    requires Consistent(cfg, c)
    ensures var r := Evict(cfg, c, extra, needSlot, now);
            && MadeRoom(cfg, c.order, c.store, extra, needSlot, now, r.order)
            && r.store == Among(c.store, r.order) && MarkersStay(c, r) && r.gen == c.gen
  {
    hide Consistent, Over, OverWith, OverBefore, Filter, RemoveAll, DropOldest, MarkersStay, ExpiredKeys;
    var r := Evict(cfg, c, extra, needSlot, now);
    var p := EvictShape(cfg, c, extra, needSlot, now);
    OverIsOverWith(cfg, c, extra, needSlot);
    ConsistentOrder(cfg, c);
    if Over(cfg, c, extra, needSlot) {
      var ks := ExpiredKeys(c.order, c.store, now);
      RemoveAllMarkers(cfg, c, ks);
      RemoveAllKeeps(cfg, c, ks);
      DropMarkers(cfg, RemoveAll(c, ks), extra, needSlot);
      MarkersTransitive(c, RemoveAll(c, ks), r);
      LeftStillOver(cfg, c, r, extra, needSlot);
      assert Dropped(cfg, Filter(c.order, Unexpired(c.store, now)), c.store, extra, needSlot, p, r.order);
    } else {
      MarkersSelf(cfg, c);
      assert r.store == Among(c.store, r.order);
    }
  }

  lemma LeftStillOver(cfg: Config, c: Cache, r: Cache, extra: nat, needSlot: bool)
    requires Consistent(cfg, r) && forall k :: k in r.store ==> k in c.store && c.store[k] == r.store[k]
    ensures Over(cfg, r, extra, needSlot) <==> OverWith(cfg, r.order, c.store, extra, needSlot)
  {
    hide Over, OverWith, Consistent;
    ConsistentOrder(cfg, r);
    OverIsOverWith(cfg, r, extra, needSlot);
    OverWithAgrees(cfg, r.order, r.store, c.store, extra, needSlot);
  }

  // ---------- put ----------

  /** The keys other than `k`, in order. */
  ghost function Others(c: Cache, k: Key): seq<Key> {
    Filter(c.order, c.store.Keys - {k})
  }

  lemma {:induction false} WithoutIsFilter(order: seq<Key>, k: Key, keep: set<Key>)
    requires Distinct(order) && forall j :: j in keep <==> j in order && j != k
    ensures Without(order, k) == Filter(order, keep)
  {
    WithoutMembers(order, k);
    FilterWithout(order, k, keep);
    FilterAll(Without(order, k), keep);
  }

  lemma OthersAre(cfg: Config, c: Cache, k: Key)
    requires Consistent(cfg, c)
    ensures Without(c.order, k) == Others(c, k)
  {
    hide Filter, Without;
    ConsistentOrder(cfg, c);
    WithoutIsFilter(c.order, k, c.store.Keys - {k});
  }

  /** A put raises exactly on a ttl that is not a finite number of at least 1 and then changes
    nothing; a value larger than the byte bound only drops the old entry; any other value lands:
    room is made among the other entries, which are otherwise untouched, and the new one comes
    last. */
  lemma {:induction false} PutShape(cfg: Config, c: Cache, k: Key, value: Obj, size: nat, ttl: Ttl, now: real)
    returns (left: seq<Key>)
    requires Inv(cfg, c)
    ensures var w := Put(cfg, c, k, value, size, ttl, now);
            var bytes := if cfg.maxBytes.Some? then size else 0;
            if !(ttl.Finite? && ttl.seconds >= 1.0) then w == Write(c, ValueError)
            else if cfg.maxBytes.Some? && size > cfg.maxBytes.value then
              && w.outcome == Rejected && w.c.order == left == Others(c, k) && w.c.store == Among(c.store, left)
              && MarkersStay(c, w.c)
            else
              && w.outcome == Landed && MadeRoom(cfg, Others(c, k), c.store, bytes, true, now, left)
              && w.c.order == left + [k]
              && w.c.store == Among(c.store, left)[k := Entry(value, now + ttl.seconds, now, bytes, c.gen + 1)]
              && w.c.refreshing == map j | j in c.refreshing.Keys && j in left :: c.refreshing[j]
  {
    hide Inv, Put, Stored, Evict, Filter, Remove, MadeRoom, MarkersStay, Among, Others;
    left := Others(c, k);
    assert Consistent(cfg, c) by { InvConsistent(cfg, c); }
    PutIs(cfg, c, k, value, size, ttl, now);
    RemovedShape(cfg, c, k);
    if ValidTtl(ttl) && !Oversized(cfg, size) {
      left := StoredShape(cfg, c, k, Entry(value, now + ttl.seconds, now, Tracked(cfg, size), c.gen + 1), now);
    }
  }

  lemma PutIs(cfg: Config, c: Cache, k: Key, value: Obj, size: nat, ttl: Ttl, now: real)
    requires Consistent(cfg, c)
    ensures Put(cfg, c, k, value, size, ttl, now) ==
            if !ValidTtl(ttl) then Write(c, ValueError)
            else if Oversized(cfg, size) then Write(Remove(c, k), Rejected)
            else
              var bytes := Tracked(cfg, size);
              var d := Evict(cfg, Remove(c, k), bytes, true, now);
              Write(Stored(d, k, Entry(value, now + ttl.seconds, now, bytes, c.gen + 1)), Landed)
  {
    hide Consistent, Evict, Remove, Stored;
    RemoveKeeps(cfg, c, k);
    OthersMembers(cfg, c, k);
    if !Oversized(cfg, size) { EvictMakesRoom(cfg, Remove(c, k), Tracked(cfg, size), true, now); }
  }

  lemma RemovedShape(cfg: Config, c: Cache, k: Key)
    requires Consistent(cfg, c)
    ensures var r := Remove(c, k); r.order == Others(c, k) && r.store == Among(c.store, r.order) && MarkersStay(c, r)
  {
    hide Consistent, Filter, Remove, MarkersStay;
    RemoveKeeps(cfg, c, k);
    RemoveMarkers(cfg, c, k);
    OthersMembers(cfg, c, k);
  }

  lemma {:induction false} StoredShape(cfg: Config, c: Cache, k: Key, e: Entry, now: real) returns (left: seq<Key>)
    requires Consistent(cfg, c)
    ensures var r := Stored(Evict(cfg, Remove(c, k), e.size, true, now), k, e);
            && MadeRoom(cfg, Others(c, k), c.store, e.size, true, now, left)
            && r.order == left + [k] && r.store == Among(c.store, left)[k := e]
            && r.refreshing == map j | j in c.refreshing.Keys && j in left :: c.refreshing[j]
  {
    hide Consistent, Evict, Filter, Remove, MadeRoom, MarkersStay, Among, Stored, Others;
    var r := Remove(c, k);
    var d := Evict(cfg, r, e.size, true, now);
    RemoveKeeps(cfg, c, k);
    RemoveMarkers(cfg, c, k);
    OthersMembers(cfg, c, k);
    EvictMakesRoom(cfg, r, e.size, true, now);
    left := d.order;
    EvictKeeps(cfg, r, e.size, true, now);
    ConsistentOrder(cfg, d);
    StoredAfter(c, r, d, k, e);
    RoomAgrees(cfg, r.order, r.store, c.store, e.size, true, now, left);
  }

  lemma StoredAfter(c: Cache, r: Cache, d: Cache, k: Key, e: Entry)
    requires r.store == c.store - {k} && MarkersStay(c, r) && MarkersStay(r, d)
    requires d.store == Among(r.store, d.order) && forall j :: j in d.order ==> j in d.store
    ensures var s := Stored(d, k, e);
            && s.order == d.order + [k] && s.store == Among(c.store, d.order)[k := e]
            && s.refreshing == map j | j in c.refreshing.Keys && j in d.order :: c.refreshing[j]
  {
  }

  lemma OthersMembers(cfg: Config, c: Cache, k: Key)
    requires Consistent(cfg, c)
    ensures forall j :: j in Others(c, k) <==> j in c.store && j != k
    ensures Remove(c, k).order == Others(c, k) && Remove(c, k).gen == c.gen
  {
    hide Filter, Without;
    OthersAre(cfg, c, k);
    ConsistentOrder(cfg, c);
    WithoutMembers(c.order, k);
    WithoutShorter(c.order, k);
  }

  /** Making room looks only at the entries of the keys at hand. */
  lemma {:induction false} RoomAgrees(cfg: Config, line: seq<Key>, s: map<Key, Entry>, t: map<Key, Entry>, extra: nat,
                                      needSlot: bool, now: real, left: seq<Key>)
    requires MadeRoom(cfg, line, s, extra, needSlot, now, left)
    requires forall k :: k in line ==> k in s && k in t && s[k] == t[k]
    ensures MadeRoom(cfg, line, t, extra, needSlot, now, left)
  {
    hide OverWith, Filter;
    OverWithAgrees(cfg, line, s, t, extra, needSlot);
    if OverWith(cfg, line, s, extra, needSlot) {
      FilterAgrees(line, Unexpired(s, now), Unexpired(t, now));
      var young := Filter(line, Unexpired(s, now));
      FilterMembers(line, Unexpired(s, now));
      var p :| Dropped(cfg, young, s, extra, needSlot, p, left);
      forall q | 0 <= q < p ensures OverWith(cfg, young[q..], t, extra, needSlot) {
        OverWithAgrees(cfg, young[q..], s, t, extra, needSlot);
      }
      OverWithAgrees(cfg, left, s, t, extra, needSlot);
      assert Dropped(cfg, young, t, extra, needSlot, p, left);
    }
  }

  lemma {:induction false} FilterAgrees(line: seq<Key>, a: set<Key>, b: set<Key>)
    requires forall k :: k in line ==> (k in a <==> k in b)
    ensures Filter(line, a) == Filter(line, b)
  {
    if line != [] { FilterAgrees(line[1..], a, b); }
  }

  lemma {:induction false} FilterMembers(line: seq<Key>, keep: set<Key>)
    ensures forall k :: k in Filter(line, keep) <==> k in line && k in keep
  {
    if line != [] { FilterMembers(line[1..], keep); }
  }

  // ---------- complete_refresh ----------

  /** A refresh raises exactly on such a ttl and then changes nothing; without the entry it was
    started for it only releases its own marker; a value larger than the byte bound drops the
    entry; any other value lands: the entry moves last with its new fields and its generation,
    and room is made among all entries. */
  lemma {:induction false} RefreshShape(cfg: Config, c: Cache, k: Key, version: nat, value: Obj, size: nat, ttl: Ttl,
                                        now: real)
    returns (left: seq<Key>)
    requires Inv(cfg, c)
    ensures var w := CompleteRefresh(cfg, c, k, version, value, size, ttl, now);
            var bytes := if cfg.maxBytes.Some? then size else 0;
            if !(ttl.Finite? && ttl.seconds >= 1.0) then w == Write(c, ValueError)
            else if !(k in c.store && c.store[k].gen == version) then w == Write(c, Rejected)
            else if cfg.maxBytes.Some? && size > cfg.maxBytes.value then
              && w.outcome == Rejected && w.c.order == left == Others(c, k) && w.c.store == Among(c.store, left)
              && MarkersStay(c, w.c)
            else
              var store := c.store[k := Entry(value, now + ttl.seconds, now, bytes, version)];
              && w.outcome == Landed && MadeRoom(cfg, Others(c, k) + [k], store, 0, false, now, left) && k in left
              && w.c.order == left && w.c.store == Among(store, left)
              && w.c.refreshing == map j | j in c.refreshing.Keys && j in left && j != k :: c.refreshing[j]
  {
    hide Consistent, Within, CompleteRefresh, Refreshed, Evict, Filter, Remove, MadeRoom, MarkersStay, Among, Others;
    left := Others(c, k);
    RemovedShape(cfg, c, k);
    if ValidTtl(ttl) {
      if k in c.store && c.store[k].gen == version {
        RefreshIs(cfg, c, k, version, value, size, ttl, now);
        if Oversized(cfg, size) {
          Unmarked(cfg, c, k);
        } else {
          left := RefreshedShape(cfg, c, k, Entry(value, now + ttl.seconds, now, Tracked(cfg, size), version), now);
        }
      } else {
        DeadTokenIsInert(cfg, c, k, version, value, size, ttl, now);
      }
    } else {
      InvalidRefresh(cfg, c, k, version, value, size, ttl, now);
    }
  }

  lemma InvalidRefresh(cfg: Config, c: Cache, k: Key, version: nat, value: Obj, size: nat, ttl: Ttl, now: real)
    requires !ValidTtl(ttl)
    ensures CompleteRefresh(cfg, c, k, version, value, size, ttl, now) == Write(c, ValueError)
  {
    hide Evict, Remove;
  }

  /** The cache without the marker of `k`. */
  function Released(c: Cache, k: Key): Cache {
    c.(refreshing := c.refreshing - {k})
  }

  lemma RefreshIs(cfg: Config, c: Cache, k: Key, version: nat, value: Obj, size: nat, ttl: Ttl, now: real)
    requires Inv(cfg, c) && ValidTtl(ttl) && k in c.store && c.store[k].gen == version
    ensures CompleteRefresh(cfg, c, k, version, value, size, ttl, now) ==
            if Oversized(cfg, size) then Write(Remove(Released(c, k), k), Rejected)
            else
              var e := Entry(value, now + ttl.seconds, now, Tracked(cfg, size), version);
              Write(Evict(cfg, Refreshed(Released(c, k), k, e), 0, false, now), Landed)
  {
    hide Consistent, Evict, Remove, Refreshed, Within;
    OwnMarker(cfg, c, k);
  }

  lemma Unmarked(cfg: Config, c: Cache, k: Key)
    requires Consistent(cfg, c)
    ensures Remove(Released(c, k), k) == Remove(c, k) || k !in c.store
  {
    hide Consistent, Without;
  }

  lemma {:induction false} RefreshedShape(cfg: Config, c: Cache, k: Key, e: Entry, now: real) returns (left: seq<Key>)
    requires Inv(cfg, c) && k in c.store && e.gen == c.store[k].gen && (cfg.maxBytes.None? ==> e.size == 0)
    requires now < e.expiresAt && !Oversized(cfg, e.size)
    ensures var r := Evict(cfg, Refreshed(Released(c, k), k, e), 0, false, now);
            && MadeRoom(cfg, Others(c, k) + [k], c.store[k := e], 0, false, now, left) && k in left
            && r.order == left && r.store == Among(c.store[k := e], left)
            && r.refreshing == map j | j in c.refreshing.Keys && j in left && j != k :: c.refreshing[j]
  {
    hide Consistent, Within, Evict, Filter, MadeRoom, MarkersStay, Among, Others, Without;
    var d := Released(c, k);
    OwnMarker(cfg, c, k);
    ClearMarkerKeeps(cfg, c, k, e.gen);
    OthersAre(cfg, c, k);
    LandingKeeps(cfg, d, k, e, now);
    RefreshedKeeps(cfg, d, k, e);
    var f := Refreshed(d, k, e);
    EvictMakesRoom(cfg, f, 0, false, now);
    var r := Evict(cfg, f, 0, false, now);
    left := r.order;
    EvictKeeps(cfg, f, 0, false, now);
    ConsistentOrder(cfg, r);
    OtherMarkers(c, k, f, r);
  }

  lemma OtherMarkers(c: Cache, k: Key, f: Cache, r: Cache)
    requires f.refreshing == c.refreshing - {k} && MarkersStay(f, r)
    requires forall j :: j in r.order <==> j in r.store
    ensures r.refreshing == map j | j in c.refreshing.Keys && j in r.order && j != k :: c.refreshing[j]
  {
  }

  /** A marker belongs to the live entry, so the refresh of that entry releases it. */
  lemma OwnMarker(cfg: Config, c: Cache, k: Key)
    requires Consistent(cfg, c) && k in c.store
    ensures ClearMarker(c, k, c.store[k].gen) == Released(c, k)
  {
    hide Ordered, Counted;
  }
}
