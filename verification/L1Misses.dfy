/** When a lookup of an L1 cache hits: exactly when the latest put that stored the key has not
  expired and nothing took the entry since. */
module L1Misses {
  import opened Wrappers
  import opened Bytes
  import opened L1Model
  import opened L1Accounting
  import opened L1Recency
  import opened L1Lookups

  // ---------- what a put stores, and until when ----------

  /** The put asks for the deadline `d`: the one given, or `ttl` seconds from now, or five minutes
    from now, less the safety margin; and it is still ahead. */
  predicate DueAt(cfg: Config, op: Op, d: real)
    requires op.PutOp?
  {
    && d > op.now
    && match op.expiresAt
       case Some(Finite(t)) => d == t - cfg.ttlBuffer
       case Some(NonFinite) => false
       case None =>
         match op.ttl
         case Some(Finite(seconds)) => d == op.now + seconds - cfg.ttlBuffer
         case Some(NonFinite) => false
         case None => d == op.now + 300.0 - cfg.ttlBuffer
  }

  /** A put of `key` that is worth storing and not larger than the whole budget. */
  predicate StoresUntil(cfg: Config, op: Op, key: Key, d: real) {
    op.PutOp? && op.key == key && DueAt(cfg, op, d) && |op.value| <= cfg.maxBytes
  }

  ghost predicate StoresUnder(cfg: Config, op: Op, key: Key) {
    exists d :: StoresUntil(cfg, op, key, d)
  }

  lemma DueIff(cfg: Config, op: Op, d: real)
    requires op.PutOp?
    ensures var expiry := Expiry(cfg, op.ttl, op.expiresAt, op.now);
            DueAt(cfg, op, d) <==> Cacheable(expiry, op.now) && expiry.seconds == d
  {
  }

  lemma StoresIff(cfg: Config, s: L1, op: Op, key: Key)
    ensures Stores(cfg, s, op, key) <==> StoresUnder(cfg, op, key)
    ensures forall d :: StoresUntil(cfg, op, key, d) ==>
              Expiry(cfg, op.ttl, op.expiresAt, op.now) == Seconds.Finite(d)
  {
    hide Expiry, DueAt;
    if op.PutOp? {
      forall d ensures DueAt(cfg, op, d) <==>
                       Cacheable(Expiry(cfg, op.ttl, op.expiresAt, op.now), op.now) &&
                       Expiry(cfg, op.ttl, op.expiresAt, op.now).seconds == d
      {
        DueIff(cfg, op, d);
      }
      var expiry := Expiry(cfg, op.ttl, op.expiresAt, op.now);
      if Stores(cfg, s, op, key) { assert StoresUntil(cfg, op, key, expiry.seconds); }
    }
  }

  // ---------- what takes an entry ----------

  /** Bytes the count is relieved of before the loop: the entry under the put's own key. */
  function OldSize(s: L1, key: Key): int {
    if Has(s.items, key) then At(s.items, key).size else 0
  }

  /** `op` takes the entry of `key`, whose deadline is `d`: it is invalidated or cleared; a lookup or a
    cleanup finds it expired; an oversized put of its key drops it; or a put of another key stores
    and would not fit with all entries that were used before it taken. */
  ghost predicate Takes(cfg: Config, s: L1, op: Op, key: Key, d: real) {
    match op
    case GetOp(k, now) => k == key && now >= d
    case PutOp(k, value, _, _, _) =>
      exists e :: DueAt(cfg, op, e) &&
        if |value| > cfg.maxBytes then k == key
        else k != key && Has(s.items, key) &&
             s.tracked - OldSize(s, k) - Stored(s.items[..Find(s.items, key)]) + |value| > cfg.maxBytes
    case Invalidate(k) => k == key
    case ClearOp => true
    case CleanupOp(now) => now >= d
  }

  lemma HasIff(items: seq<Item>, key: Key)
    ensures Has(items, key) <==> exists i :: 0 <= i < |items| && items[i].key == key
  {
  }

  lemma WithoutHas(items: seq<Item>, k: Key, key: Key)
    requires Distinct(items) && k != key
    ensures Has(Without(items, k), key) <==> Has(items, key)
  {
    hide Find;
    var i, rest := Find(items, k), Without(items, k);
    HasIff(items, key);
    HasIff(rest, key);
    if i < |items| {
      forall j | 0 <= j < |items| && items[j].key == key ensures exists l :: 0 <= l < |rest| && rest[l].key == key {
        assert rest[if j < i then j else j - 1] == items[j];
      }
      forall j | 0 <= j < |rest| && rest[j].key == key ensures exists l :: 0 <= l < |items| && items[l].key == key {
        assert items[if j < i then j else j + 1] == rest[j];
      }
    }
  }

  lemma AppendHas(items: seq<Item>, x: Item, key: Key)
    ensures Has(items + [x], key) <==> Has(items, key) || x.key == key
  {
    hide Find;
    HasIff(items, key);
    HasIff(items + [x], key);
    assert (items + [x])[|items|] == x;
    assert forall i :: 0 <= i < |items| ==> (items + [x])[i] == items[i];
  }

  lemma SuffixHas(items: seq<Item>, n: nat, key: Key)
    requires Distinct(items) && n <= |items| && Has(items, key)
    ensures Has(items[n..], key) <==> Find(items, key) >= n
  {
    hide Find;
    HasIff(items[n..], key);
    var i := Find(items, key);
    if i >= n { assert items[n..][i - n].key == key; }
    forall j | 0 <= j < |items| - n && items[n..][j].key == key ensures j + n == i { FindIs(items, key, j + n); }
  }

  lemma {:induction false} UnexpiredHas(items: seq<Item>, now: real, key: Key)
    requires Distinct(items) && Has(items, key)
    ensures Has(Unexpired(items, now), key) <==> now < At(items, key).expiresAt
  {
    hide Find;
    var rest := items[1..];
    HeadOrRest(items, key);
    UnexpiredHead(items, now);
    if items[0].key == key {
      NotFound(rest, key);
      NotUnexpired(rest, now, key);
      HasIff([items[0]] + Unexpired(rest, now), key);
      assert ([items[0]] + Unexpired(rest, now))[0] == items[0];
    } else {
      UnexpiredHas(rest, now, key);
      HasIff(Unexpired(rest, now), key);
      HasIff(Unexpired(items, now), key);
      var u, v := Unexpired(items, now), Unexpired(rest, now);
      assert forall j :: 0 <= j < |v| ==> v[j] == u[j + |u| - |v|];
    }
  }

  lemma HeadOrRest(items: seq<Item>, key: Key)
    requires Distinct(items) && Has(items, key)
    ensures items != [] && Distinct(items[1..])
    ensures items[0].key == key ==>
              Find(items, key) == 0 && forall j :: 0 <= j < |items[1..]| ==> items[1..][j].key != key
    ensures items[0].key != key ==> Has(items[1..], key) && At(items[1..], key) == At(items, key)
  {
  }

  lemma UnexpiredHead(items: seq<Item>, now: real)
    requires items != []
    ensures Unexpired(items, now) ==
            (if now >= items[0].entry.expiresAt then [] else [items[0]]) + Unexpired(items[1..], now)
  {
  }

  lemma {:induction false} NotUnexpired(items: seq<Item>, now: real, key: Key)
    requires !Has(items, key)
    ensures !Has(Unexpired(items, now), key)
  {
    hide Find;
    HasIff(items, key);
    if items != [] {
      HasIff(items[1..], key);
      assert forall j :: 0 <= j < |items[1..]| ==> items[1..][j] == items[j + 1];
      NotUnexpired(items[1..], now, key);
      HasIff(Unexpired(items[1..], now), key);
      HasIff(Unexpired(items, now), key);
      var u, v := Unexpired(items, now), Unexpired(items[1..], now);
      assert forall j :: 0 <= j < |u| ==> u[j] == items[0] || (j >= |u| - |v| && u[j] == v[j - (|u| - |v|)]);
    }
  }

  // ---------- one operation ----------

  lemma GetTakes(cfg: Config, s: L1, op: Op, key: Key)
    requires Inv(cfg, s) && op.GetOp? && Has(s.items, key)
    ensures Has(Step(cfg, s, op).items, key) <==> !Takes(cfg, s, op, key, At(s.items, key).expiresAt)
  {
    hide Find, Stored, Has, At, Without;
    RemoveKeeps(cfg, s, op.key);
    if op.key != key { WithoutHas(s.items, op.key, key); }
    if Has(s.items, op.key) {
      AppendHas(Without(s.items, op.key), Item(op.key, At(s.items, op.key)), key);
    }
  }

  lemma PutTakes(cfg: Config, s: L1, op: Op, key: Key)
    requires Inv(cfg, s) && op.PutOp? && Has(s.items, key) && !Stores(cfg, s, op, key)
    ensures Has(Step(cfg, s, op).items, key) <==> !Takes(cfg, s, op, key, At(s.items, key).expiresAt)
  {
    hide Find, Stored, Without, EvictCount, Expiry, DueAt;
    var expiry := Expiry(cfg, op.ttl, op.expiresAt, op.now);
    forall e ensures DueAt(cfg, op, e) <==> Cacheable(expiry, op.now) && expiry.seconds == e { DueIff(cfg, op, e); }
    if Cacheable(expiry, op.now) {
      assert DueAt(cfg, op, expiry.seconds);
      RemoveKeeps(cfg, s, op.key);
      if op.key != key { WithoutHas(s.items, op.key, key); }
      if |op.value| <= cfg.maxBytes { StoreTakes(cfg, s, op.key, op.value, expiry.seconds, key); }
    }
  }

  lemma StoreTakes(cfg: Config, s: L1, k: Key, value: seq<Byte>, expiresAt: real, key: Key)
    requires Inv(cfg, s) && Has(s.items, key) && k != key
    ensures Has(Store(cfg, s, k, value, expiresAt).items, key) <==>
            s.tracked - OldSize(s, k) - Stored(s.items[..Find(s.items, key)]) + |value| <= cfg.maxBytes
  {
    hide Find, Stored, Without, EvictCount;
    var n := EvictCount(s.items, Replaced(s, k).tracked, |value|, cfg.maxBytes);
    EvictReaches(s.items, Replaced(s, k).tracked, |value|, cfg.maxBytes, Find(s.items, key));
    SuffixHas(s.items, n, key);
    WithoutHas(s.items[n..], k, key);
    AppendHas(Without(s.items[n..], k), Item(k, Entry(value, expiresAt, |value|)), key);
  }

  /** An operation that does not store under the key leaves its entry, unchanged, exactly when it does
    not take it. */
  lemma StaysIff(cfg: Config, s: L1, op: Op, key: Key)
    requires Inv(cfg, s) && Has(s.items, key) && !StoresUnder(cfg, op, key)
    ensures Has(Step(cfg, s, op).items, key) <==> !Takes(cfg, s, op, key, At(s.items, key).expiresAt)
    ensures Has(Step(cfg, s, op).items, key) ==> At(Step(cfg, s, op).items, key) == At(s.items, key)
  {
    hide Find, Step, Takes, Stores, StoresUntil;
    StoresIff(cfg, s, op, key);
    if Has(Step(cfg, s, op).items, key) { StepEntry(cfg, s, op, key); }
    match op
    case GetOp(_, _) => GetTakes(cfg, s, op, key);
    case PutOp(_, _, _, _, _) => PutTakes(cfg, s, op, key);
    case _ => OtherTakes(cfg, s, op, key);
  }

  lemma OtherTakes(cfg: Config, s: L1, op: Op, key: Key)
    requires Inv(cfg, s) && Has(s.items, key) && (op.Invalidate? || op.ClearOp? || op.CleanupOp?)
    ensures Has(Step(cfg, s, op).items, key) <==> !Takes(cfg, s, op, key, At(s.items, key).expiresAt)
  {
    hide Find, Stored, Without, Unexpired, RemoveAll, ExpiredKeys, At;
    match op
    case Invalidate(k) =>
      RemoveKeeps(cfg, s, k);
      if k != key { WithoutHas(s.items, k, key); }
    case ClearOp =>
    case CleanupOp(now) =>
      CleanupShape(s, now);
      UnexpiredHas(s.items, now, key);
  }

  /** A put that stores is in the cache right after. */
  lemma StoresNowHas(cfg: Config, s: L1, op: Op, key: Key, d: real)
    requires Inv(cfg, s) && StoresUntil(cfg, op, key, d)
    ensures Has(Step(cfg, s, op).items, key)
    ensures At(Step(cfg, s, op).items, key).value == op.value && At(Step(cfg, s, op).items, key).expiresAt == d
  {
    hide Find, Stored, Without, EvictCount, Expiry, DueAt;
    DueIff(cfg, op, d);
    var t := Step(cfg, s, op);
    var n := EvictCount(s.items, Replaced(s, key).tracked, |op.value|, cfg.maxBytes);
    AppendHas(Without(s.items[n..], key), Item(key, Entry(op.value, d, |op.value|)), key);
    StoresIff(cfg, s, op, key);
    StepEntry(cfg, s, op, key);
  }

  /** Without an entry of the key only a put that stores brings one. */
  lemma StaysAway(cfg: Config, s: L1, op: Op, key: Key)
    requires Inv(cfg, s) && !Has(s.items, key) && !StoresUnder(cfg, op, key)
    ensures !Has(Step(cfg, s, op).items, key)
  {
    hide Has, At, Step, Stores, Inv, StoresUntil;
    StoresIff(cfg, s, op, key);
    if Has(Step(cfg, s, op).items, key) { StepEntry(cfg, s, op, key); }
  }

  // ---------- whole runs ----------

  /** Operation i stored `v` under `key` until `d`, no later one stored under it, and none took the
    entry. */
  ghost predicate Standing(cfg: Config, ops: seq<Op>, key: Key, v: seq<Byte>, d: real, i: nat) {
    && i < |ops| && StoresUntil(cfg, ops[i], key, d) && ops[i].value == v
    && (forall j :: i < j < |ops| ==> !StoresUnder(cfg, ops[j], key))
    && (forall j :: i < j < |ops| ==> !Takes(cfg, Run(cfg, ops[..j]), ops[j], key, d))
  }

  ghost predicate Stands(cfg: Config, ops: seq<Op>, key: Key, v: seq<Byte>, d: real) {
    exists i: nat :: Standing(cfg, ops, key, v, d, i)
  }

  /** The entry under `key` is `v` until `d`. */
  predicate Holds(s: L1, key: Key, v: seq<Byte>, d: real) {
    Has(s.items, key) && At(s.items, key).value == v && At(s.items, key).expiresAt == d
  }

  /** The entry of a key is that of the latest put that stored it, if nothing took it since. */
  lemma {:induction false} HeldIff(cfg: Config, ops: seq<Op>, key: Key, v: seq<Byte>, d: real)
    ensures Holds(Run(cfg, ops), key, v, d) <==> Stands(cfg, ops, key, v, d)
  {
    if ops == [] {
      NothingAtFirst(cfg, key);
    } else {
      hide Run, Has, At, Step, Takes, StoresUntil, Inv, Stands;
      var init, op := ops[..|ops| - 1], ops[|ops| - 1];
      HeldIff(cfg, init, key, v, d);
      Accounting(cfg, init);
      LastStep(cfg, ops);
      if StoresUnder(cfg, op, key) {
        var e :| StoresUntil(cfg, op, key, e);
        StoresNowHas(cfg, Run(cfg, init), op, key, e);
        NewestStands(cfg, ops, key, v, d, e);
      } else {
        if Has(Run(cfg, init).items, key) {
          StaysIff(cfg, Run(cfg, init), op, key);
        } else {
          StaysAway(cfg, Run(cfg, init), op, key);
        }
        OlderStands(cfg, ops, key, v, d);
      }
    }
  }

  lemma LastStep(cfg: Config, ops: seq<Op>)
    requires ops != []
    ensures Run(cfg, ops) == Step(cfg, Run(cfg, ops[..|ops| - 1]), ops[|ops| - 1])
  {
    hide Step;
  }

  lemma OneDeadline(cfg: Config, op: Op, key: Key, d: real, e: real)
    requires StoresUntil(cfg, op, key, d) && StoresUntil(cfg, op, key, e)
    ensures d == e
  {
  }

  lemma NewestStands(cfg: Config, ops: seq<Op>, key: Key, v: seq<Byte>, d: real, e: real)
    requires ops != [] && StoresUntil(cfg, ops[|ops| - 1], key, e)
    ensures ops[|ops| - 1].PutOp?
    ensures Stands(cfg, ops, key, v, d) <==> d == e && ops[|ops| - 1].value == v
  {
    hide Run, Takes, DueAt;
    var n := |ops| - 1;
    assert StoresUnder(cfg, ops[n], key);
    if d == e && ops[n].value == v {
      assert Standing(cfg, ops, key, v, d, n);
    }
    forall i: nat | Standing(cfg, ops, key, v, d, i) ensures d == e && ops[n].value == v {
      assert i == n;
      OneDeadline(cfg, ops[n], key, d, e);
    }
  }

  lemma OlderStands(cfg: Config, ops: seq<Op>, key: Key, v: seq<Byte>, d: real)
    requires ops != [] && !StoresUnder(cfg, ops[|ops| - 1], key)
    ensures var init := ops[..|ops| - 1];
            Stands(cfg, ops, key, v, d) <==>
            Stands(cfg, init, key, v, d) && !Takes(cfg, Run(cfg, init), ops[|ops| - 1], key, d)
  {
    hide Run, Takes, StoresUntil, StoresUnder, Standing;
    var n := |ops| - 1;
    var init := ops[..n];
    forall i: nat
      ensures Standing(cfg, ops, key, v, d, i) ==> Standing(cfg, init, key, v, d, i)
      ensures Standing(cfg, ops, key, v, d, i) ==> !Takes(cfg, Run(cfg, init), ops[n], key, d)
      ensures Standing(cfg, init, key, v, d, i) && !Takes(cfg, Run(cfg, init), ops[n], key, d) ==>
              Standing(cfg, ops, key, v, d, i)
    {
      StandsSoFar(cfg, ops, key, v, d, i);
    }
  }

  lemma StandsSoFar(cfg: Config, ops: seq<Op>, key: Key, v: seq<Byte>, d: real, i: nat)
    requires ops != [] && !StoresUnder(cfg, ops[|ops| - 1], key)
    ensures var init := ops[..|ops| - 1];
            Standing(cfg, ops, key, v, d, i) <==>
            Standing(cfg, init, key, v, d, i) && !Takes(cfg, Run(cfg, init), ops[|ops| - 1], key, d)
  {
    hide Run, Takes, StoresUntil;
    var n := |ops| - 1;
    var init := ops[..n];
    assert forall j :: 0 <= j < n ==> init[..j] == ops[..j] && init[j] == ops[j];
    if i == n { StoresOne(cfg, ops[n], key, d); }
    if Standing(cfg, init, key, v, d, i) && !Takes(cfg, Run(cfg, init), ops[n], key, d) {
      forall j | i < j < |ops| ensures !Takes(cfg, Run(cfg, ops[..j]), ops[j], key, d) {
        if j < n { assert !Takes(cfg, Run(cfg, init[..j]), init[j], key, d); }
      }
      forall j | i < j < |ops| ensures !StoresUnder(cfg, ops[j], key) {
        if j < n { assert !StoresUnder(cfg, init[j], key); }
      }
    }
    if Standing(cfg, ops, key, v, d, i) {
      assert !Takes(cfg, Run(cfg, ops[..n]), ops[n], key, d);
      forall j | i < j < n
        ensures !Takes(cfg, Run(cfg, init[..j]), init[j], key, d) && !StoresUnder(cfg, init[j], key)
      {
        assert !Takes(cfg, Run(cfg, ops[..j]), ops[j], key, d) && !StoresUnder(cfg, ops[j], key);
      }
    }
  }

  lemma StoresOne(cfg: Config, op: Op, key: Key, d: real)
    requires !StoresUnder(cfg, op, key)
    ensures !StoresUntil(cfg, op, key, d)
  {
  }

  /** Over every run a lookup hits, with the value `v`, exactly when the latest put that stored the key
    wrote `v`, its deadline is still ahead and no operation took the entry since. */
  lemma HitIff(cfg: Config, ops: seq<Op>, key: Key, now: real, v: seq<Byte>)
    ensures Get(Run(cfg, ops), key, now).value == Some(v) <==> exists d :: Stands(cfg, ops, key, v, d) && now < d
  {
    hide Run, Has, At, Stands, Without;
    var s := Run(cfg, ops);
    forall d ensures Holds(s, key, v, d) <==> Stands(cfg, ops, key, v, d) { HeldIff(cfg, ops, key, v, d); }
    if Get(s, key, now).value == Some(v) {
      assert Holds(s, key, v, At(s.items, key).expiresAt);
    }
    if d :| Stands(cfg, ops, key, v, d) && now < d {
      assert Holds(s, key, v, d);
    }
  }

  // ---------- what the counters count ----------

  /** Lookups that found an unexpired entry. */
  function HitsOf(cfg: Config, ops: seq<Op>): nat {
    if ops == [] then 0
    else
      var init, op := ops[..|ops| - 1], ops[|ops| - 1];
      HitsOf(cfg, init) + if op.GetOp? && Live(Run(cfg, init), op.key, op.now) then 1 else 0
  }

  predicate Live(s: L1, key: Key, now: real) {
    Has(s.items, key) && now < At(s.items, key).expiresAt
  }

  function LookupsOf(ops: seq<Op>): nat {
    if ops == [] then 0 else LookupsOf(ops[..|ops| - 1]) + if ops[|ops| - 1].GetOp? then 1 else 0
  }

  /** Entries that lookups and cleanups found expired. */
  function ExpiredOf(cfg: Config, ops: seq<Op>): int {
    if ops == [] then 0
    else
      var init, op := ops[..|ops| - 1], ops[|ops| - 1];
      var s := Run(cfg, init);
      ExpiredOf(cfg, init) +
      match op
      case GetOp(key, now) => if Has(s.items, key) && !Live(s, key, now) then 1 else 0
      case CleanupOp(now) => |s.items| - |Unexpired(s.items, now)|
      case _ => 0
  }

  /** Entries that storing puts took to make room: the shortest oldest run, see EvictIsShortest. */
  function EvictedOf(cfg: Config, ops: seq<Op>): nat {
    if ops == [] then 0
    else
      var init, op := ops[..|ops| - 1], ops[|ops| - 1];
      var s := Run(cfg, init);
      EvictedOf(cfg, init) +
      if op.PutOp? && Used(cfg, s, op).Some?
      then EvictCount(s.items, s.tracked - OldSize(s, op.key), |op.value|, cfg.maxBytes) else 0
  }

  lemma {:induction false} RemoveAllCounts(s: L1, keys: seq<Key>)
    ensures var r := RemoveAll(s, keys);
            r.hits == s.hits && r.misses == s.misses && r.evictions == s.evictions &&
            r.expiredEvictions == s.expiredEvictions
    decreases |keys|
  {
    hide Without, Find;
    if keys != [] { RemoveAllCounts(RemoveEntry(s, keys[0]), keys[1..]); }
  }

  lemma {:induction false} ExpiredCount(items: seq<Item>, now: real)
    ensures |ExpiredKeys(items, now)| == |items| - |Unexpired(items, now)|
  {
    if items != [] { ExpiredCount(items[1..], now); }
  }

  /** Over every run the four counters count what they are named for. */
  lemma {:induction false} CountersExact(cfg: Config, ops: seq<Op>)
    ensures var s := Run(cfg, ops);
            && s.hits == HitsOf(cfg, ops) && s.hits + s.misses == LookupsOf(ops)
            && s.expiredEvictions == ExpiredOf(cfg, ops) && s.evictions == EvictedOf(cfg, ops)
  {
    hide Find, Has, At, Without, EvictCount, RemoveAll, ExpiredKeys, Unexpired, Stored, Expiry;
    if ops != [] {
      var init, op := ops[..|ops| - 1], ops[|ops| - 1];
      CountersExact(cfg, init);
      var s := Run(cfg, init);
      if op.CleanupOp? {
        RemoveAllCounts(s, ExpiredKeys(s.items, op.now));
        ExpiredCount(s.items, op.now);
      }
    }
  }
}
