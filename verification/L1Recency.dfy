/** Over whole runs the entries of an L1 cache stand in the order of their latest use. */
module L1Recency {
  import opened Wrappers
  import opened L1Model
  import opened L1Accounting
  import opened Recency

  /** The key an operation uses: a hit, or a put that stores. */
  function Used(cfg: Config, s: L1, op: Op): Option<Key> {
    match op
    case GetOp(key, now) => if Has(s.items, key) && now < At(s.items, key).expiresAt then Some(key) else None
    case PutOp(key, value, ttl, expiresAt, now) =>
      if Cacheable(Expiry(cfg, ttl, expiresAt, now), now) && |value| <= cfg.maxBytes then Some(key) else None
    case _ => None
  }

  /** The uses of a run, operation by operation. */
  function Uses(cfg: Config, ops: seq<Op>): (used: seq<Option<Key>>)
    ensures |used| == |ops|
  {
    if ops == [] then []
    else Uses(cfg, ops[..|ops| - 1]) + [Used(cfg, Run(cfg, ops[..|ops| - 1]), ops[|ops| - 1])]
  }

  lemma WithoutByUse(items: seq<Item>, key: Key, used: seq<Option<Key>>)
    requires ByUse(KeysOf(items), used)
    ensures ByUse(KeysOf(Without(items, key)), used)
  {
    hide Find, ByUse;
    var i := Find(items, key);
    if i < |items| {
      OneDropped(KeysOf(items), i, used);
      assert KeysOf(Without(items, key)) == KeysOf(items)[..i] + KeysOf(items)[i + 1..];
    }
  }

  lemma {:induction false} RemoveAllByUse(s: L1, keys: seq<Key>, used: seq<Option<Key>>)
    requires ByUse(KeysOf(s.items), used)
    ensures ByUse(KeysOf(RemoveAll(s, keys).items), used)
    decreases |keys|
  {
    hide ByUse, Without, KeysOf;
    if keys != [] {
      WithoutByUse(s.items, keys[0], used);
      RemoveAllByUse(RemoveEntry(s, keys[0]), keys[1..], used);
    }
  }

  lemma ToEndByUse(items: seq<Item>, item: Item, used: seq<Option<Key>>)
    requires Distinct(items) && ByUse(KeysOf(items), used)
    ensures ByUse(KeysOf(Without(items, item.key) + [item]), used + [Some(item.key)])
  {
    hide ByUse, Without;
    var rest := Without(items, item.key);
    WithoutByUse(items, item.key, used);
    GoneFrom(items, item.key);
    UsedLast(KeysOf(rest), item.key, used);
    assert KeysOf(rest + [item]) == KeysOf(rest) + [item.key];
  }

  lemma GoneFrom(items: seq<Item>, key: Key)
    requires Distinct(items)
    ensures forall i :: 0 <= i < |Without(items, key)| ==> Without(items, key)[i].key != key
  {
    hide Find;
    var i, rest := Find(items, key), Without(items, key);
    assert i < |items| ==> forall j :: 0 <= j < |rest| ==> rest[j] == items[if j < i then j else j + 1];
  }

  lemma SuffixByUse(items: seq<Item>, k: nat, used: seq<Option<Key>>)
    requires k <= |items| && ByUse(KeysOf(items), used)
    ensures ByUse(KeysOf(items[k..]), used)
  {
    hide LastUse;
    assert forall i :: 0 <= i < |items| - k ==> KeysOf(items[k..])[i] == KeysOf(items)[i + k];
  }

  lemma StepByUse(cfg: Config, s: L1, op: Op, used: seq<Option<Key>>)
    requires Distinct(s.items) && ByUse(KeysOf(s.items), used)
    ensures ByUse(KeysOf(Step(cfg, s, op).items), used + [Used(cfg, s, op)])
  {
    hide Find, Without, EvictCount, ExpiredKeys, ByUse, KeysOf;
    NothingUsed(KeysOf(s.items), used);
    match op
    case GetOp(key, now) =>
      if Used(cfg, s, op).Some? {
        ToEndByUse(s.items, Item(key, At(s.items, key)), used);
      } else {
        WithoutByUse(s.items, key, used + [None]);
      }
    case PutOp(key, value, ttl, expiresAt, now) =>
      if Used(cfg, s, op).Some? {
        var expiry := Expiry(cfg, ttl, expiresAt, now);
        var k := EvictCount(s.items, Replaced(s, key).tracked, |value|, cfg.maxBytes);
        SuffixByUse(s.items, k, used);
        ToEndByUse(s.items[k..], Item(key, Entry(value, expiry.seconds, |value|)), used);
      } else {
        WithoutByUse(s.items, key, used + [None]);
      }
    case Invalidate(key) => WithoutByUse(s.items, key, used + [None]);
    case ClearOp => NothingByUse(used + [None]);
    case CleanupOp(now) => RemoveAllByUse(s, ExpiredKeys(s.items, now), used + [None]);
  }

  lemma NothingByUse(used: seq<Option<Key>>)
    ensures ByUse(KeysOf([]), used)
  {
  }

  /** What eviction takes first is what was used least recently. */
  lemma {:induction false} OrderIsRecency(cfg: Config, ops: seq<Op>)
    ensures ByUse(KeysOf(Run(cfg, ops).items), Uses(cfg, ops))
  {
    hide Step, Used;
    if ops == [] {
      NothingByUse([]);
    } else {
      var init := ops[..|ops| - 1];
      OrderIsRecency(cfg, init);
      Accounting(cfg, init);
      StepByUse(cfg, Run(cfg, init), ops[|ops| - 1], Uses(cfg, init));
    }
  }
}
