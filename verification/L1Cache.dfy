/** The L1 cache as its methods run, each proved against its operation in L1Model. */
module L1CacheClass {
  import opened Wrappers
  import opened Bytes
  import opened L1Model
  import opened L1Accounting

  /** What a caller hands to `put`. */
  datatype Given = ExactlyBytes(b: seq<Byte>) | NotBytes

  class L1Cache {
    const cfg: Config
    var cache: seq<Item>
    var currentMemoryBytes: int
    var hits: nat
    var misses: nat
    var evictions: nat
    var expiredEvictions: nat

    function Model(): L1
      reads this
    {
      L1(cache, currentMemoryBytes, hits, misses, evictions, expiredEvictions)
    }

    ghost predicate Valid()
      reads this
    {
      Inv(cfg, Model())
    }

    constructor (maxMemoryMb: nat, ttlBufferSeconds: real)
      ensures Valid() && Model() == EMPTY
      ensures cfg == Config(maxMemoryMb * 1024 * 1024, ttlBufferSeconds)
    {
      cfg := Config(maxMemoryMb * 1024 * 1024, ttlBufferSeconds);
      cache, currentMemoryBytes, hits, misses, evictions, expiredEvictions := [], 0, 0, 0, 0, 0;
    }

    method RemoveEntry(key: Key)
      modifies this
      ensures Model() == L1Model.RemoveEntry(old(Model()), key)
    {
      if Has(cache, key) {
        var entry := At(cache, key);
        cache := Without(cache, key);
        currentMemoryBytes := currentMemoryBytes - entry.size;
      }
    }

    method MoveToEnd(key: Key)
      requires Has(cache, key)
      modifies this`cache
      ensures cache == old(Without(cache, key) + [Item(key, At(cache, key))])
    {
      var entry := At(cache, key);
      cache := Without(cache, key) + [Item(key, entry)];
    }

    method GetValue(key: Key, now: real) returns (found: bool, value: Option<seq<Byte>>)
      requires Valid()
      modifies this
      ensures Valid()
      ensures Lookup(Model(), value) == Get(old(Model()), key, now) && found == value.Some?
    {
      hide Inv;
      GetKeeps(cfg, Model(), key, now);
      if !Has(cache, key) {
        misses := misses + 1;
        return false, None;
      }
      var entry := At(cache, key);
      if now >= entry.expiresAt {
        RemoveEntry(key);
        misses := misses + 1;
        expiredEvictions := expiredEvictions + 1;
        return false, None;
      }
      MoveToEnd(key);
      hits := hits + 1;
      return true, Some(entry.value);
    }

    method EvictForSpace(needed: nat)
      requires Distinct(cache)
      modifies this
      ensures Model() == Evict(cfg, old(Model()), needed)
    {
      hide Distinct, EvictCount, Stored;
      if currentMemoryBytes + needed <= cfg.maxBytes {
        EvictNone(cache, currentMemoryBytes, needed, cfg.maxBytes);
        return;
      }
      var toRemove := TakeOldest(needed);
      Pop(toRemove, |toRemove|);
    }

    /** The eviction loop: takes entries off the count, oldest first, until the rest fits. */
    method TakeOldest(needed: nat) returns (toRemove: seq<Key>)
      modifies this`currentMemoryBytes, this`evictions
      ensures |toRemove| == EvictCount(cache, old(currentMemoryBytes), needed, cfg.maxBytes)
      ensures toRemove == KeysOf(cache)[..|toRemove|]
      ensures currentMemoryBytes == old(currentMemoryBytes) - Stored(cache[..|toRemove|])
      ensures evictions == old(evictions) + |toRemove|
    {
      hide EvictCount, Stored;
      toRemove := [];
      var i := 0;
      EvictNone([], currentMemoryBytes, needed, cfg.maxBytes);
      assert cache[0..] == cache && cache[..0] == [];
      while i < |cache|
        invariant i <= |cache| && toRemove == KeysOf(cache)[..i] && evictions == old(evictions) + i
        invariant currentMemoryBytes == old(currentMemoryBytes) - Stored(cache[..i])
        invariant EvictCount(cache, old(currentMemoryBytes), needed, cfg.maxBytes) ==
                  i + EvictCount(cache[i..], currentMemoryBytes, needed, cfg.maxBytes)
      {
        if currentMemoryBytes + needed <= cfg.maxBytes { break; }
        EvictStep(cache, currentMemoryBytes, needed, cfg.maxBytes, i);
        NextKey(cache, i);
        toRemove := toRemove + [cache[i].key];
        currentMemoryBytes := currentMemoryBytes - cache[i].entry.size;
        evictions := evictions + 1;
        i := i + 1;
      }
      EvictNone(cache[i..], currentMemoryBytes, needed, cfg.maxBytes);
    }

    /** The pops of `_evict_for_space`, which find their keys at the front. */
    method Pop(keys: seq<Key>, k: nat)
      requires Distinct(cache) && k <= |cache| && keys == KeysOf(cache)[..k]
      modifies this`cache
      ensures cache == old(cache)[k..]
    {
      hide Find;
      for j := 0 to |keys|
        invariant cache == old(cache)[j..]
      {
        assert keys[j] == cache[0].key;
        FindIs(cache, keys[j], 0);
        cache := Without(cache, keys[j]);
      }
    }

    /** `put`: a value that is not exactly `bytes` raises TypeError and changes nothing. */
    method PutObject(key: Key, given: Given, redisTtl: Option<Seconds>, expiresAt: Option<Seconds>, now: real)
      returns (typeError: bool)
      requires Valid()
      modifies this
      ensures Valid() && typeError == given.NotBytes?
      ensures Model() == if given.NotBytes? then old(Model())
                         else Step(cfg, old(Model()), PutOp(key, given.b, redisTtl, expiresAt, now))
    {
      if given.NotBytes? { return true; }
      PutValue(key, given.b, redisTtl, expiresAt, now);
      typeError := false;
    }

    /** `put` of bytes: `redis_ttl` and `expires_at` are optional. */
    method PutValue(key: Key, value: seq<Byte>, redisTtl: Option<Seconds>, expiresAt: Option<Seconds>, now: real)
      requires Valid()
      modifies this
      ensures Valid()
      ensures Model() == Step(cfg, old(Model()), PutOp(key, value, redisTtl, expiresAt, now))
    {
      hide Inv, Drift, Lost, L1Model.RemoveEntry, L1Model.Store;
      StepKeeps(cfg, Model(), PutOp(key, value, redisTtl, expiresAt, now));
      var expiry: Seconds;
      if expiresAt.Some? {
        expiry := Plus(expiresAt.value, -cfg.ttlBuffer);
      } else if redisTtl.Some? {
        expiry := Plus(redisTtl.value, now - cfg.ttlBuffer);
      } else {
        expiry := Finite(now + 300.0 - cfg.ttlBuffer);
      }
      if !expiry.Finite? || expiry.seconds <= now { return; }
      var size := |value|;
      if size > cfg.maxBytes {
        RemoveEntry(key);
        return;
      }
      KeysDiffer(cfg, Model());
      StoreEntry(key, value, expiry.seconds);
    }

    /** The locked part of `put`. */
    method StoreEntry(key: Key, value: seq<Byte>, expiry: real)
      requires Distinct(cache)
      modifies this
      ensures Model() == Store(cfg, old(Model()), key, value, expiry)
    {
      hide Distinct, Find, Evict, Without;
      var size := |value|;
      if Has(cache, key) {
        currentMemoryBytes := currentMemoryBytes - At(cache, key).size;
      }
      EvictForSpace(size);
      cache := Without(cache, key) + [Item(key, Entry(value, expiry, size))];
      currentMemoryBytes := currentMemoryBytes + size;
    }

    method InvalidateKey(key: Key)
      requires Valid()
      modifies this
      ensures Valid() && Model() == L1Model.RemoveEntry(old(Model()), key)
    {
      hide Inv;
      RemoveKeeps(cfg, Model(), key);
      RemoveEntry(key);
    }

    method ClearAll()
      requires Valid()
      modifies this
      ensures Valid() && Model() == Clear(old(Model()))
    {
      cache := [];
      currentMemoryBytes := 0;
    }

    method CleanupExpired(now: real) returns (removed: nat)
      requires Valid()
      modifies this
      ensures Valid() && Model() == Cleanup(old(Model()), now) && removed == |ExpiredKeys(old(cache), now)|
    {
      hide Inv, Drift, ExpiredKeys, RemoveAll;
      StepKeeps(cfg, Model(), CleanupOp(now));
      var keys := ListExpired(now);
      DropEach(keys);
      removed := |keys|;
    }

    method ListExpired(now: real) returns (keys: seq<Key>)
      ensures keys == ExpiredKeys(cache, now)
    {
      hide ExpiredKeys;
      keys := [];
      assert cache[0..] == cache;
      for i := 0 to |cache|
        invariant ExpiredKeys(cache, now) == keys + ExpiredKeys(cache[i..], now)
      {
        ExpiredStep(cache, i, now);
        if now >= cache[i].entry.expiresAt {
          keys := keys + [cache[i].key];
        }
      }
      NoneExpired(cache[|cache|..], now);
    }

    method DropEach(keys: seq<Key>)
      modifies this
      ensures var r := RemoveAll(old(Model()), keys);
              Model() == r.(expiredEvictions := r.expiredEvictions + |keys|)
    {
      hide L1Model.RemoveEntry;
      for j := 0 to |keys|
        invariant var left := RemoveAll(Model(), keys[j..]); var r := RemoveAll(old(Model()), keys);
                  left == r.(expiredEvictions := r.expiredEvictions + j)
      {
        assert keys[j..][1..] == keys[j + 1..];
        ghost var removed := L1Model.RemoveEntry(Model(), keys[j]);
        RemoveEntry(keys[j]);
        expiredEvictions := expiredEvictions + 1;
        CountedLater(removed, keys[j + 1..]);
      }
    }
  }

  lemma KeysDiffer(cfg: Config, s: L1)
    requires Inv(cfg, s)
    ensures Distinct(s.items)
  {
  }

  /** Counting a removal before the others changes nothing but the count. */
  lemma {:induction false} CountedLater(s: L1, keys: seq<Key>)
    ensures var r := RemoveAll(s, keys);
            RemoveAll(s.(expiredEvictions := s.expiredEvictions + 1), keys) ==
            r.(expiredEvictions := r.expiredEvictions + 1)
    decreases |keys|
  {
    if keys != [] { CountedLater(RemoveEntry(s, keys[0]), keys[1..]); }
  }

  lemma ExpiredStep(items: seq<Item>, i: nat, now: real)
    requires i < |items|
    ensures ExpiredKeys(items[i..], now) ==
            (if now >= items[i].entry.expiresAt then [items[i].key] else []) + ExpiredKeys(items[i + 1..], now)
  {
    assert items[i..][1..] == items[i + 1..];
  }

  lemma NoneExpired(items: seq<Item>, now: real)
    requires items == []
    ensures ExpiredKeys(items, now) == []
  {
  }

  lemma NextKey(items: seq<Item>, i: nat)
    requires i < |items|
    ensures |KeysOf(items)| == |items| && KeysOf(items)[..i + 1] == KeysOf(items)[..i] + [items[i].key]
  {
  }

  lemma EvictNone(items: seq<Item>, tracked: int, needed: nat, budget: nat)
    requires items == [] || tracked + needed <= budget
    ensures EvictCount(items, tracked, needed, budget) == 0 && Stored(items[..0]) == 0 && items[0..] == items
  {
  }

  lemma EvictStep(items: seq<Item>, tracked: int, needed: nat, budget: nat, i: nat)
    requires i < |items| && tracked + needed > budget
    ensures EvictCount(items[i..], tracked, needed, budget) ==
            1 + EvictCount(items[i + 1..], tracked - items[i].entry.size, needed, budget)
    ensures Stored(items[..i + 1]) == Stored(items[..i]) + items[i].entry.size
  {
    assert items[i..][1..] == items[i + 1..] && items[..i + 1] == items[..i] + [items[i]];
    StoredConcat(items[..i], [items[i]]);
    StoredOne(items[i]);
  }
}
