/** Every operation keeps the bookkeeping exact and both bounds, and eviction removes no more
  than it has to. */
module CacheProofs {
  import opened CacheModel

  lemma {:induction false} RemoveOrdered(c: Cache, k: Key)
    requires Ordered(c.order, c.store) && k in c.store
    ensures Ordered(Without(c.order, k), c.store - {k})
  {
    WithoutMembers(c.order, k);
  }

  lemma {:induction false} RemoveCounted(cfg: Config, c: Cache, k: Key)
    requires Ordered(c.order, c.store) && Counted(cfg, c.bytes, c.order, c.store) && k in c.store
    ensures Counted(cfg, c.bytes - c.store[k].size, Without(c.order, k), c.store - {k})
  {
    WithoutMembers(c.order, k);
    TotalWithout(c.order, c.store, k);
    TotalAgrees(Without(c.order, k), c.store, c.store - {k});
  }

  lemma FewerKeys(store: map<Key, Entry>, k: Key)
    ensures |store - {k}| <= |store|
  {
    assert store.Keys == (store - {k}).Keys + (if k in store then {k} else {});
  }

  lemma RemoveMarkedNumbered(c: Cache, k: Key)
    requires Marked(c.refreshing, c.store) && Numbered(c.store, c.gen)
    ensures Marked(c.refreshing - {k}, c.store - {k}) && Numbered(c.store - {k}, c.gen)
  {
  }

  lemma {:induction false} RemoveKeeps(cfg: Config, c: Cache, k: Key)
    requires Consistent(cfg, c)
    ensures Consistent(cfg, Remove(c, k)) && Remove(c, k).store == c.store - {k}
    ensures Within(cfg, c) ==> Within(cfg, Remove(c, k))
  {
    hide Ordered, Counted, Marked, Numbered;
    if k in c.store {
      RemoveOrdered(c, k);
      RemoveCounted(cfg, c, k);
      RemoveMarkedNumbered(c, k);
      FewerKeys(c.store, k);
    }
  }

  // ---------- eviction ----------

  function Filter(order: seq<Key>, keep: set<Key>): seq<Key> {
    if order == [] then []
    else if order[0] in keep then [order[0]] + Filter(order[1..], keep) else Filter(order[1..], keep)
  }

  lemma {:induction false} FilterAll(order: seq<Key>, keep: set<Key>)
    requires forall k :: k in order ==> k in keep
    ensures Filter(order, keep) == order
  {
    if order != [] { FilterAll(order[1..], keep); }
  }

  lemma {:induction false} FilterWithout(order: seq<Key>, k: Key, keep: set<Key>)
    requires Distinct(order) && k !in keep
    ensures Filter(Without(order, k), keep) == Filter(order, keep)
  {
    if order != [] && order[0] != k {
      FilterWithout(order[1..], k, keep);
      assert Without(order, k)[1..] == Without(order[1..], k);
    }
  }

  function Unexpired(store: map<Key, Entry>, now: real): set<Key> {
    set k | k in store && now < store[k].expiresAt
  }

  lemma {:induction false} RemoveAllKeeps(cfg: Config, c: Cache, ks: seq<Key>)
    requires Consistent(cfg, c)
    ensures Consistent(cfg, RemoveAll(c, ks)) && RemoveAll(c, ks).gen == c.gen
    decreases |ks|
  {
    hide Consistent;
    if ks != [] {
      RemoveKeeps(cfg, c, ks[0]);
      RemoveAllKeeps(cfg, Remove(c, ks[0]), ks[1..]);
    }
  }

  lemma {:induction false} RemoveAllStore(c: Cache, ks: seq<Key>)
    ensures RemoveAll(c, ks).store == c.store - set k | k in ks
    decreases |ks|
  {
    hide Without;
    if ks != [] {
      RemoveAllStore(Remove(c, ks[0]), ks[1..]);
      assert (set k | k in ks) == {ks[0]} + set k | k in ks[1..];
    }
  }

  lemma {:induction false} RemoveAllOrder(c: Cache, ks: seq<Key>)
    requires Ordered(c.order, c.store)
    ensures RemoveAll(c, ks).order == Filter(c.order, c.store.Keys - set k | k in ks)
    decreases |ks|
  {
    hide Without, Filter;
    var gone := set k | k in ks;
    if ks == [] {
      FilterAll(c.order, c.store.Keys - gone);
    } else {
      var k := ks[0];
      var rest := set j | j in ks[1..];
      assert gone == {k} + rest;
      if k in c.store {
        RemoveOrdered(c, k);
        FilterWithout(c.order, k, c.store.Keys - gone);
        assert (c.store - {k}).Keys - rest == c.store.Keys - gone;
      } else {
        assert c.store.Keys - rest == c.store.Keys - gone;
      }
      RemoveAllOrder(Remove(c, k), ks[1..]);
    }
  }

  lemma InvConsistent(cfg: Config, c: Cache)
    requires Inv(cfg, c)
    ensures Consistent(cfg, c)
  {
  }

  lemma ConsistentOrder(cfg: Config, c: Cache)
    requires Consistent(cfg, c)
    ensures Ordered(c.order, c.store) && Distinct(c.order) && forall k :: k in c.order <==> k in c.store
  {
  }

  lemma {:induction false} ExpiredMembers(order: seq<Key>, store: map<Key, Entry>, now: real)
    ensures forall k :: k in ExpiredKeys(order, store, now) <==> k in order && k in store && now >= store[k].expiresAt
  {
    if order != [] { ExpiredMembers(order[1..], store, now); }
  }

  /** The sweep drops the expired entries and only those, in place. */
  lemma {:induction false} SweepShape(cfg: Config, c: Cache, now: real)
    requires Consistent(cfg, c)
    ensures var r := RemoveAll(c, ExpiredKeys(c.order, c.store, now));
            && Consistent(cfg, r) && r.gen == c.gen
            && r.order == Filter(c.order, Unexpired(c.store, now))
            && r.store == map k | k in Unexpired(c.store, now) :: c.store[k]
  {
    hide Filter, RemoveAll, Consistent, ExpiredKeys;
    var ks := ExpiredKeys(c.order, c.store, now);
    ConsistentOrder(cfg, c);
    RemoveAllKeeps(cfg, c, ks);
    RemoveAllStore(c, ks);
    RemoveAllOrder(c, ks);
    ExpiredMembers(c.order, c.store, now);
    assert c.store.Keys - (set k | k in ks) == Unexpired(c.store, now);
  }

  /** Would the cache still be over a bound with just the keys of `order`? */
  ghost predicate OverWith(cfg: Config, order: seq<Key>, store: map<Key, Entry>, extra: nat, needSlot: bool)
  {
    || (needSlot && cfg.maxEntries.Some? && |order| >= cfg.maxEntries.value)
    || (cfg.maxBytes.Some? && Total(order, store) + extra > cfg.maxBytes.value)
  }

  lemma OverIsOverWith(cfg: Config, c: Cache, extra: nat, needSlot: bool)
    requires Consistent(cfg, c)
    ensures Over(cfg, c, extra, needSlot) <==> OverWith(cfg, c.order, c.store, extra, needSlot)
  {
    CountKeys(c.order, c.store);
  }

  lemma {:induction false} OverWithAgrees(cfg: Config, order: seq<Key>, s: map<Key, Entry>, t: map<Key, Entry>,
                                          extra: nat, needSlot: bool)
    requires forall k :: k in order ==> SizeOf(s, k) == SizeOf(t, k)
    ensures OverWith(cfg, order, s, extra, needSlot) <==> OverWith(cfg, order, t, extra, needSlot)
  {
    TotalAgrees(order, s, t);
  }

  ghost function Kept(c: Cache, p: nat): map<Key, Entry>
    requires p <= |c.order|
  {
    map k | k in c.store.Keys && k in c.order[p..] :: c.store[k]
  }

  /** The suffixes of `order` longer than from `p` on are over a bound. */
  ghost predicate OverBefore(cfg: Config, order: seq<Key>, store: map<Key, Entry>, p: nat, extra: nat, needSlot: bool)
    requires p <= |order|
  {
    forall q :: 0 <= q < p ==> OverWith(cfg, order[q..], store, extra, needSlot)
  }

  /** Dropping the oldest removes the shortest prefix after which no bound is exceeded. */
  lemma {:induction false} DropShape(cfg: Config, c: Cache, extra: nat, needSlot: bool) returns (p: nat)
    requires Consistent(cfg, c)
    ensures p <= |c.order|
    ensures var r := DropOldest(cfg, c, extra, needSlot);
            && Consistent(cfg, r) && r.gen == c.gen
            && r.order == c.order[p..] && r.store == Kept(c, p)
            && (p == |c.order| || !Over(cfg, r, extra, needSlot))
    ensures OverBefore(cfg, c.order, c.store, p, extra, needSlot)
    decreases |c.order|
  {
    hide Consistent, Over, OverWith, Distinct;
    OverIsOverWith(cfg, c, extra, needSlot);
    ConsistentOrder(cfg, c);
    if c.order == [] || !Over(cfg, c, extra, needSlot) {
      p := 0;
      assert c.order[0..] == c.order;
      assert Kept(c, 0) == c.store;
    } else {
      var k := c.order[0];
      var d := Remove(c, k);
      RemoveKeeps(cfg, c, k);
      assert d.order == c.order[1..];
      var q := DropShape(cfg, d, extra, needSlot);
      p := q + 1;
      assert d.order[q..] == c.order[p..];
      KeptStep(c, q);
      OverStep(cfg, c, d, q, extra, needSlot);
    }
  }

  lemma {:induction false} NotInTail(order: seq<Key>, q: nat)
    requires Distinct(order) && q < |order|
    ensures order[0] !in order[q + 1..]
  {
    assert forall j :: 1 <= j < |order| ==> order[j] != order[0];
  }

  lemma {:induction false} KeptStep(c: Cache, q: nat)
    requires Ordered(c.order, c.store) && c.order != [] && q < |c.order| && c.order[0] in c.store
    ensures Remove(c, c.order[0]).order == c.order[1..]
    ensures Kept(Remove(c, c.order[0]), q) == Kept(c, q + 1)
  {
    hide Ordered;
    var tail := c.order[q + 1..];
    assert Remove(c, c.order[0]).order[q..] == tail;
    assert c.order[0] !in tail by { TailOf(c, q); }
  }

  lemma TailOf(c: Cache, q: nat)
    requires Ordered(c.order, c.store) && q < |c.order|
    ensures c.order[0] !in c.order[q + 1..]
  {
    NotInTail(c.order, q);
  }

  lemma {:induction false} OverStep(cfg: Config, c: Cache, d: Cache, q: nat, extra: nat, needSlot: bool)
    requires Ordered(c.order, c.store) && c.order != [] && d.order == c.order[1..] && d.store == c.store - {c.order[0]}
    requires q <= |d.order| && OverBefore(cfg, d.order, d.store, q, extra, needSlot)
    requires OverWith(cfg, c.order, c.store, extra, needSlot)
    ensures OverBefore(cfg, c.order, c.store, q + 1, extra, needSlot)
  {
    hide OverWith;
    assert forall j :: 1 <= j < |c.order| ==> c.order[j] != c.order[0];
    forall i | 0 <= i < q + 1 ensures OverWith(cfg, c.order[i..], c.store, extra, needSlot) {
      if i == 0 {
        assert c.order[0..] == c.order;
      } else {
        assert c.order[i..] == d.order[i - 1..];
        OverWithAgrees(cfg, c.order[i..], d.store, c.store, extra, needSlot);
      }
    }
  }

  /** When eviction acts it drops every expired entry, then the shortest least-recently-used
    prefix of the fresh ones that makes room; otherwise it changes nothing. */
  lemma {:induction false} EvictShape(cfg: Config, c: Cache, extra: nat, needSlot: bool, now: real) returns (p: nat)
    requires Consistent(cfg, c)
    ensures var young := Filter(c.order, Unexpired(c.store, now)); var r := Evict(cfg, c, extra, needSlot, now);
            && p <= |young| && Consistent(cfg, r) && r.gen == c.gen
            && (!Over(cfg, c, extra, needSlot) ==> r == c)
            && (Over(cfg, c, extra, needSlot) ==> r.order == young[p..])
            && (Over(cfg, c, extra, needSlot) ==> r.store == map k | k in c.store.Keys && k in young[p..] :: c.store[k])
            && (r.order == [] || !Over(cfg, r, extra, needSlot))
            && (Over(cfg, c, extra, needSlot) ==> OverBefore(cfg, young, c.store, p, extra, needSlot))
  {
    hide Over, DropOldest, OverWith, Consistent, RemoveAll, Filter;
    SweepShape(cfg, c, now);
    var swept := RemoveAll(c, ExpiredKeys(c.order, c.store, now));
    ConsistentOrder(cfg, swept);
    p := 0;
    if Over(cfg, c, extra, needSlot) {
      p := DropShape(cfg, swept, extra, needSlot);
      assert Kept(swept, p) == map k | k in c.store.Keys && k in swept.order[p..] :: c.store[k];
      forall q | 0 <= q < p ensures OverWith(cfg, swept.order[q..], c.store, extra, needSlot) {
        OverWithAgrees(cfg, swept.order[q..], swept.store, c.store, extra, needSlot);
      }
    }
  }
}
