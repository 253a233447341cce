/** What a hit of an L1 cache returns, over whole runs. */
module L1Lookups {
  import opened Wrappers
  import opened L1Model
  import opened L1Accounting
  import opened L1Recency

  /** `op` is a put that stores under `key`. */
  predicate Stores(cfg: Config, s: L1, op: Op, key: Key) {
    op.PutOp? && Used(cfg, s, op) == Some(key)
  }

  /** Operation i stored under `key`, none did later, and `key` stayed in the cache since. */
  ghost predicate LatestStoring(cfg: Config, ops: seq<Op>, key: Key, i: nat) {
    && i < |ops| && Stores(cfg, Run(cfg, ops[..i]), ops[i], key)
    && (forall j :: i < j < |ops| ==> !Stores(cfg, Run(cfg, ops[..j]), ops[j], key))
    && (forall j :: i < j <= |ops| ==> Has(Run(cfg, ops[..j]).items, key))
  }

  /** The entry holds the value and the deadline that `op` gives it. */
  predicate WrittenBy(cfg: Config, e: Entry, op: Op)
    requires op.PutOp?
  {
    var expiry := Expiry(cfg, op.ttl, op.expiresAt, op.now);
    e.value == op.value && expiry.Finite? && e.expiresAt == expiry.seconds
  }

  // ---------- where the items after a step come from ----------

  lemma WithoutFrom(items: seq<Item>, key: Key)
    requires Distinct(items)
    ensures forall x :: x in Without(items, key) ==> x in items && x.key != key
  {
    hide Find;
    var i, rest := Find(items, key), Without(items, key);
    GoneFrom(items, key);
    if i < |items| { assert forall j :: 0 <= j < |rest| ==> rest[j] == items[if j < i then j else j + 1]; }
  }

  lemma {:induction false} RemoveAllFrom(s: L1, keys: seq<Key>)
    requires Distinct(s.items)
    ensures forall x :: x in RemoveAll(s, keys).items ==> x in s.items
    decreases |keys|
  {
    hide Without, Distinct;
    if keys != [] {
      WithoutFrom(s.items, keys[0]);
      WithoutDistinct(s.items, keys[0]);
      RemoveAllFrom(RemoveEntry(s, keys[0]), keys[1..]);
    }
  }

  lemma WithoutDistinct(items: seq<Item>, key: Key)
    requires Distinct(items)
    ensures Distinct(Without(items, key))
  {
    hide Find;
    var i, rest := Find(items, key), Without(items, key);
    if i < |items| { assert forall j :: 0 <= j < |rest| ==> rest[j] == items[if j < i then j else j + 1]; }
  }

  lemma StepFrom(cfg: Config, s: L1, op: Op, x: Item)
    requires Distinct(s.items) && x in Step(cfg, s, op).items
    ensures Stores(cfg, s, op, x.key) ==> WrittenBy(cfg, x.entry, op)
    ensures !Stores(cfg, s, op, x.key) ==> x in s.items
  {
    hide Find, Without, EvictCount, ExpiredKeys, RemoveAll;
    match op
    case GetOp(key, now) => GetFrom(s, key, now, x);
    case PutOp(key, value, ttl, expiresAt, now) => PutFrom(cfg, s, op, x);
    case Invalidate(key) => WithoutFrom(s.items, key);
    case ClearOp =>
    case CleanupOp(now) => RemoveAllFrom(s, ExpiredKeys(s.items, now));
  }

  lemma GetFrom(s: L1, key: Key, now: real, x: Item)
    requires Distinct(s.items) && x in Get(s, key, now).s.items
    ensures x in s.items
  {
    hide Find, Without;
    WithoutFrom(s.items, key);
    if Has(s.items, key) { assert s.items[Find(s.items, key)] == Item(key, At(s.items, key)); }
  }

  lemma PutFrom(cfg: Config, s: L1, op: Op, x: Item)
    requires op.PutOp? && Distinct(s.items) && x in Step(cfg, s, op).items
    ensures Stores(cfg, s, op, x.key) ==> WrittenBy(cfg, x.entry, op)
    ensures !Stores(cfg, s, op, x.key) ==> x in s.items
  {
    hide Find, Without, EvictCount;
    WithoutFrom(s.items, op.key);
    var k := EvictCount(s.items, Replaced(s, op.key).tracked, |op.value|, cfg.maxBytes);
    WithoutFrom(s.items[k..], op.key);
  }

  /** The entry under a key after a step is the stored one, or was there before. */
  lemma StepEntry(cfg: Config, s: L1, op: Op, key: Key)
    requires Inv(cfg, s) && Has(Step(cfg, s, op).items, key)
    ensures Stores(cfg, s, op, key) ==> WrittenBy(cfg, At(Step(cfg, s, op).items, key), op)
    ensures !Stores(cfg, s, op, key) ==> Has(s.items, key) && At(Step(cfg, s, op).items, key) == At(s.items, key)
  {
    hide Find, Step, Stores, Inv, WrittenBy;
    KeysDistinct(cfg, s);
    var t := Step(cfg, s, op);
    var x := Item(key, At(t.items, key));
    assert t.items[Find(t.items, key)] == x;
    StepFrom(cfg, s, op, x);
    if !Stores(cfg, s, op, key) {
      var i :| 0 <= i < |s.items| && s.items[i] == x;
      FindIs(s.items, key, i);
    }
  }

  lemma KeysDistinct(cfg: Config, s: L1)
    requires Inv(cfg, s)
    ensures Distinct(s.items)
  {
  }

  // ---------- whole runs ----------

  /** Every stored entry is what the latest storing put of its key wrote. */
  lemma {:induction false} StoredWhenWritten(cfg: Config, ops: seq<Op>, key: Key) returns (i: nat)
    requires Has(Run(cfg, ops).items, key)
    ensures LatestStoring(cfg, ops, key, i) && WrittenBy(cfg, At(Run(cfg, ops).items, key), ops[i])
  {
    hide Inv, Step, WrittenBy, Stores, LatestStoring, Has, At;
    NothingAtFirst(cfg, key);
    assert ops != [];
    var init, op := ops[..|ops| - 1], ops[|ops| - 1];
    Accounting(cfg, init);
    StepEntry(cfg, Run(cfg, init), op, key);
    if Stores(cfg, Run(cfg, init), op, key) {
      i := |init|;
      StoresNow(cfg, ops, key);
    } else {
      i := StoredWhenWritten(cfg, init, key);
      StoredBefore(cfg, ops, key, i);
      StoringIsPut(cfg, init, key, i);
      assert ops[i] == init[i];
    }
  }

  lemma NothingAtFirst(cfg: Config, key: Key)
    ensures !Has(Run(cfg, []).items, key)
  {
  }

  lemma StoringIsPut(cfg: Config, ops: seq<Op>, key: Key, i: nat)
    requires LatestStoring(cfg, ops, key, i)
    ensures i < |ops| && ops[i].PutOp?
  {
    hide Run, Used;
  }

  lemma StoresNow(cfg: Config, ops: seq<Op>, key: Key)
    requires ops != [] && Has(Run(cfg, ops).items, key)
    requires Stores(cfg, Run(cfg, ops[..|ops| - 1]), ops[|ops| - 1], key)
    ensures LatestStoring(cfg, ops, key, |ops| - 1)
  {
    hide Run, Stores, Has;
    assert ops[..|ops|] == ops;
  }

  lemma StoredBefore(cfg: Config, ops: seq<Op>, key: Key, i: nat)
    requires ops != [] && Has(Run(cfg, ops).items, key) && LatestStoring(cfg, ops[..|ops| - 1], key, i)
    requires !Stores(cfg, Run(cfg, ops[..|ops| - 1]), ops[|ops| - 1], key)
    ensures LatestStoring(cfg, ops, key, i)
  {
    hide Run, Stores, Has;
    var init := ops[..|ops| - 1];
    assert ops[..|ops|] == ops && init[..i] == ops[..i];
    forall j | i < j < |ops| ensures !Stores(cfg, Run(cfg, ops[..j]), ops[j], key) {
      if j < |init| { assert init[..j] == ops[..j]; }
    }
    forall j | i < j <= |ops| ensures Has(Run(cfg, ops[..j]).items, key) {
      if j <= |init| { assert init[..j] == ops[..j]; }
    }
  }

  /** A hit returns the value of the latest storing put of the key, before that put's deadline, and
    the key stayed in the cache since. */
  lemma HitIsLatestPut(cfg: Config, ops: seq<Op>, key: Key, now: real) returns (i: nat)
    requires Get(Run(cfg, ops), key, now).value.Some?
    ensures LatestStoring(cfg, ops, key, i) && ops[i].PutOp?
    ensures Get(Run(cfg, ops), key, now).value == Some(ops[i].value)
    ensures var expiry := Expiry(cfg, ops[i].ttl, ops[i].expiresAt, ops[i].now); expiry.Finite? && now < expiry.seconds
  {
    hide Run, LatestStoring, Without, Find;
    i := StoredWhenWritten(cfg, ops, key);
    StoringIsPut(cfg, ops, key, i);
  }
}
