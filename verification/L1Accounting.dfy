/** What every run of an L1 cache keeps: the tracked count is the stored bytes less the bytes
  lost to self-evicting puts, and never exceeds the budget. */
module L1Accounting {
  import opened Wrappers
  import opened Bytes
  import opened L1Model

  // ---------- sums and the ordered dict ----------

  lemma {:induction false} StoredConcat(a: seq<Item>, b: seq<Item>)
    ensures Stored(a + b) == Stored(a) + Stored(b)
  {
    if a == [] {
      assert a + b == b;
    } else {
      StoredConcat(a[1..], b);
      assert (a + b)[0] == a[0] && (a + b)[1..] == a[1..] + b;
    }
  }

  lemma StoredSplit(items: seq<Item>, i: nat)
    requires i < |items|
    ensures Stored(items) == Stored(items[..i]) + items[i].entry.size + Stored(items[i + 1..])
  {
    StoredConcat(items[..i], items[i..]);
    assert items == items[..i] + items[i..] && items[i..][1..] == items[i + 1..];
  }

  lemma StoredOne(item: Item)
    ensures Stored([item]) == item.entry.size
  {
    assert [item][1..] == [];
  }

  lemma FindIs(items: seq<Item>, key: Key, i: nat)
    requires Distinct(items) && i < |items| && items[i].key == key
    ensures Find(items, key) == i
  {
    hide Find;
    assert Find(items, key) <= i;
  }

  ghost predicate Sized(items: seq<Item>) {
    forall i :: 0 <= i < |items| ==> items[i].entry.size == |items[i].entry.value|
  }

  lemma NotFound(items: seq<Item>, key: Key)
    requires forall j :: 0 <= j < |items| ==> items[j].key != key
    ensures !Has(items, key)
  {
  }

  /** A dict entry is taken out; nothing else moves. */
  lemma WithoutStored(items: seq<Item>, key: Key)
    requires Distinct(items) && Sized(items)
    ensures Distinct(Without(items, key)) && Sized(Without(items, key)) && !Has(Without(items, key), key)
    ensures Stored(Without(items, key)) == Stored(items) - if Has(items, key) then At(items, key).size else 0
  {
    hide Find, Stored;
    var i, rest := Find(items, key), Without(items, key);
    if i < |items| {
      StoredSplit(items, i);
      StoredConcat(items[..i], items[i + 1..]);
      assert forall j :: 0 <= j < |rest| ==> rest[j] == items[if j < i then j else j + 1] && rest[j].key != key;
    }
    assert !Has(rest, key) by { NotFound(rest, key); }
  }

  lemma Appended(items: seq<Item>, item: Item)
    requires Distinct(items) && Sized(items) && !Has(items, item.key) && item.entry.size == |item.entry.value|
    ensures Distinct(items + [item]) && Sized(items + [item])
    ensures Stored(items + [item]) == Stored(items) + item.entry.size
  {
    StoredConcat(items, [item]);
    StoredOne(item);
  }

  // ---------- the invariant ----------

  ghost predicate Inv(cfg: Config, s: L1) {
    Distinct(s.items) && Sized(s.items) && s.tracked <= cfg.maxBytes && Drift(s) >= 0
  }

  lemma RemoveKeeps(cfg: Config, s: L1, key: Key)
    requires Inv(cfg, s)
    ensures Inv(cfg, RemoveEntry(s, key)) && Drift(RemoveEntry(s, key)) == Drift(s)
    ensures !Has(RemoveEntry(s, key).items, key)
  {
    hide Stored, Find;
    WithoutStored(s.items, key);
  }

  lemma {:induction false} RemoveAllKeeps(cfg: Config, s: L1, keys: seq<Key>)
    requires Inv(cfg, s)
    ensures Inv(cfg, RemoveAll(s, keys)) && Drift(RemoveAll(s, keys)) == Drift(s)
    decreases |keys|
  {
    hide Inv, Drift, RemoveEntry;
    if keys != [] {
      RemoveKeeps(cfg, s, keys[0]);
      RemoveAllKeeps(cfg, RemoveEntry(s, keys[0]), keys[1..]);
    }
  }

  lemma GetKeeps(cfg: Config, s: L1, key: Key, now: real)
    requires Inv(cfg, s)
    ensures Inv(cfg, Get(s, key, now).s) && Drift(Get(s, key, now).s) == Drift(s)
  {
    hide Stored, Find;
    RemoveKeeps(cfg, s, key);
    WithoutStored(s.items, key);
    if Has(s.items, key) {
      Appended(Without(s.items, key), Item(key, At(s.items, key)));
    }
  }

  // ---------- eviction ----------

  /** The loop takes the shortest run of oldest entries that makes room, or all of them. */
  lemma {:induction false} EvictIsShortest(items: seq<Item>, tracked: int, needed: nat, budget: nat)
    ensures var k := EvictCount(items, tracked, needed, budget);
            && (forall j :: 0 <= j < k ==> tracked - Stored(items[..j]) + needed > budget)
            && (k < |items| ==> tracked - Stored(items[..k]) + needed <= budget)
    decreases |items|
  {
    if items != [] && tracked + needed > budget {
      var t := tracked - items[0].entry.size;
      EvictIsShortest(items[1..], t, needed, budget);
      forall j | 0 < j <= |items| ensures Stored(items[..j]) == items[0].entry.size + Stored(items[1..][..j - 1]) {
        assert items[..j][1..] == items[1..][..j - 1];
      }
    }
  }

  /** The eviction loop reaches index i exactly when the entries before it do not make room. */
  lemma EvictReaches(items: seq<Item>, tracked: int, needed: nat, budget: nat, i: nat)
    requires i < |items|
    ensures EvictCount(items, tracked, needed, budget) > i <==> tracked - Stored(items[..i]) + needed > budget
  {
    EvictIsShortest(items, tracked, needed, budget);
    var k := EvictCount(items, tracked, needed, budget);
    if k <= i {
      StoredConcat(items[..k], items[k..i]);
      assert items[..i] == items[..k] + items[k..i];
    }
  }

  /** The old entry survives the eviction loop exactly when the put is not self-evicting. */
  lemma OldEntrySurvives(cfg: Config, s: L1, key: Key, needed: nat)
    requires Distinct(s.items)
    ensures var spared := s.items[EvictCount(s.items, Replaced(s, key).tracked, needed, cfg.maxBytes)..];
            && (Has(spared, key) <==> Has(s.items, key) && !EvictsItsOwn(cfg, s, key, needed))
            && (Has(spared, key) ==> At(spared, key) == At(s.items, key))
  {
    hide Find, Stored, EvictCount;
    var k := EvictCount(s.items, Replaced(s, key).tracked, needed, cfg.maxBytes);
    var i := Find(s.items, key);
    if i < |s.items| { EvictReaches(s.items, Replaced(s, key).tracked, needed, cfg.maxBytes, i); }
    if k <= i < |s.items| {
      FindIs(s.items[k..], key, i - k);
    } else {
      assert forall j :: i < j < |s.items| ==> s.items[i].key != s.items[j].key;
      NotFound(s.items[k..], key);
    }
  }

  /** A put that stores drops the shortest run of oldest entries that makes room, or all of them;
    the new item comes last, after the entries that were spared. */
  lemma StoreShape(cfg: Config, s: L1, key: Key, value: seq<Byte>, expiresAt: real)
    ensures var t, before := Store(cfg, s, key, value, expiresAt), Replaced(s, key).tracked;
            var k := EvictCount(s.items, before, |value|, cfg.maxBytes);
            && t.items == Without(s.items[k..], key) + [Item(key, Entry(value, expiresAt, |value|))]
            && t.tracked == before - Stored(s.items[..k]) + |value|
            && (forall j :: 0 <= j < k ==> before - Stored(s.items[..j]) + |value| > cfg.maxBytes)
            && (k < |s.items| ==> t.tracked <= cfg.maxBytes)
  {
    EvictIsShortest(s.items, Replaced(s, key).tracked, |value|, cfg.maxBytes);
  }

  /** The budget is met, and the drift grows by the old entry exactly when the put evicts it. */
  lemma StoreKeeps(cfg: Config, s: L1, key: Key, value: seq<Byte>, expiresAt: real)
    requires Inv(cfg, s) && |value| <= cfg.maxBytes
    ensures var t := Store(cfg, s, key, value, expiresAt);
            && Inv(cfg, t)
            && Drift(t) == Drift(s) + if EvictsItsOwn(cfg, s, key, |value|) then At(s.items, key).size else 0
  {
    hide Find, Stored, Without, EvictCount;
    var t := Store(cfg, s, key, value, expiresAt);
    var before := Replaced(s, key).tracked;
    var k := EvictCount(s.items, before, |value|, cfg.maxBytes);
    StoreShape(cfg, s, key, value, expiresAt);
    OldEntrySurvives(cfg, s, key, |value|);
    StoredConcat(s.items[..k], s.items[k..]);
    assert s.items == s.items[..k] + s.items[k..];
    WithoutStored(s.items[k..], key);
    Appended(Without(s.items[k..], key), Item(key, Entry(value, expiresAt, |value|)));
    assert k == |s.items| ==> s.items[..k] == s.items && Stored(s.items[..k]) == Stored(s.items);
  }

  // ---------- every operation, every run ----------

  lemma StepKeeps(cfg: Config, s: L1, op: Op)
    requires Inv(cfg, s)
    ensures Inv(cfg, Step(cfg, s, op))
    ensures Drift(Step(cfg, s, op)) == if op.ClearOp? then 0 else Drift(s) + Lost(cfg, s, op)
  {
    hide Store, EvictsItsOwn, Get, RemoveEntry, RemoveAll, ExpiredKeys, Find, Has;
    match op
    case GetOp(key, now) => GetKeeps(cfg, s, key, now);
    case PutOp(key, value, ttl, expiresAt, now) =>
      var expiry := Expiry(cfg, ttl, expiresAt, now);
      if Cacheable(expiry, now) {
        if |value| > cfg.maxBytes { RemoveKeeps(cfg, s, key); }
        else { StoreKeeps(cfg, s, key, value, expiry.seconds); }
      }
    case Invalidate(key) => RemoveKeeps(cfg, s, key);
    case ClearOp =>
    case CleanupOp(now) => RemoveAllKeeps(cfg, s, ExpiredKeys(s.items, now));
  }

  /** Over every run: stored bytes = tracked bytes + what self-evicting puts lost since the last
    clear, and the tracked bytes stay within the budget. */
  lemma {:induction false} Accounting(cfg: Config, ops: seq<Op>)
    ensures Inv(cfg, Run(cfg, ops))
    ensures Stored(Run(cfg, ops).items) == Run(cfg, ops).tracked + LostSoFar(cfg, ops)
  {
    hide Step, Lost;
    if ops != [] {
      Accounting(cfg, ops[..|ops| - 1]);
      StepKeeps(cfg, Run(cfg, ops[..|ops| - 1]), ops[|ops| - 1]);
    }
  }

  /** The stored bytes exceed the budget by no more than the bytes lost; without a self-evicting
    put since the last clear they stay within it and the count is exact. */
  lemma StoredBound(cfg: Config, ops: seq<Op>)
    ensures Stored(Run(cfg, ops).items) <= cfg.maxBytes + LostSoFar(cfg, ops)
    ensures LostSoFar(cfg, ops) == 0 <==> Stored(Run(cfg, ops).items) == Run(cfg, ops).tracked
  {
    Accounting(cfg, ops);
  }

  // ---------- cleanup and lookups ----------

  lemma RemoveMiddle(s: L1, a: seq<Item>, b: seq<Item>)
    requires b != [] && s.items == a + b && Distinct(s.items)
    ensures RemoveEntry(s, b[0].key).items == a + b[1..] && Distinct(a + b[1..])
  {
    hide Find;
    FindIs(s.items, b[0].key, |a|);
    var rest := a + b[1..];
    assert forall j :: 0 <= j < |rest| ==> rest[j] == s.items[if j < |a| then j else j + 1];
  }

  lemma RemoveAllNone(s: L1)
    ensures RemoveAll(s, []) == s
  {
  }

  lemma RemoveAllHead(s: L1, key: Key, keys: seq<Key>)
    ensures RemoveAll(s, [key] + keys) == RemoveAll(RemoveEntry(s, key), keys)
  {
    hide RemoveEntry;
    assert ([key] + keys)[1..] == keys;
  }

  lemma ExpiredHead(b: seq<Item>, now: real)
    ensures b == [] ==> ExpiredKeys(b, now) == [] && Unexpired(b, now) == []
    ensures b != [] && now >= b[0].entry.expiresAt ==>
              (ExpiredKeys(b, now) == [b[0].key] + ExpiredKeys(b[1..], now) &&
               Unexpired(b, now) == Unexpired(b[1..], now))
    ensures b != [] && now < b[0].entry.expiresAt ==>
              ExpiredKeys(b, now) == ExpiredKeys(b[1..], now) && Unexpired(b, now) == [b[0]] + Unexpired(b[1..], now)
  {
  }

  lemma {:induction false} RemoveExpired(s: L1, a: seq<Item>, b: seq<Item>, now: real)
    requires s.items == a + b && Distinct(s.items)
    ensures RemoveAll(s, ExpiredKeys(b, now)).items == a + Unexpired(b, now)
    decreases |b|
  {
    hide RemoveEntry, Distinct, RemoveAll, ExpiredKeys, Unexpired;
    ExpiredHead(b, now);
    if b == [] {
      RemoveAllNone(s);
    } else if now >= b[0].entry.expiresAt {
      RemoveMiddle(s, a, b);
      RemoveAllHead(s, b[0].key, ExpiredKeys(b[1..], now));
      RemoveExpired(RemoveEntry(s, b[0].key), a, b[1..], now);
    } else {
      assert a + b == (a + [b[0]]) + b[1..];
      RemoveExpired(s, a + [b[0]], b[1..], now);
      assert a + Unexpired(b, now) == (a + [b[0]]) + Unexpired(b[1..], now);
    }
  }

  /** `cleanup_expired` drops exactly the expired entries and leaves the rest in order. */
  lemma CleanupShape(s: L1, now: real)
    requires Distinct(s.items)
    ensures Cleanup(s, now).items == Unexpired(s.items, now)
  {
    RemoveExpired(s, [], s.items, now);
  }

  /** A stored value is served until it expires, and by then it is gone. */
  lemma PutThenGet(cfg: Config, s: L1, key: Key, value: seq<Byte>, expiry: Seconds, now: real, later: real)
    requires Inv(cfg, s) && Cacheable(expiry, now) && |value| <= cfg.maxBytes
    ensures Get(Put(cfg, s, key, value, expiry, now), key, later).value ==
            if later < expiry.seconds then Some(value) else None
  {
    hide EvictCount;
    var t := Put(cfg, s, key, value, expiry, now);
    StoreKeeps(cfg, s, key, value, expiry.seconds);
    StoreShape(cfg, s, key, value, expiry.seconds);
    FindIs(t.items, key, |t.items| - 1);
  }
}
