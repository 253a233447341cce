/** The state of an L1 cache, what each operation does to it, and how far the tracked byte count
  drifts from the bytes really stored. */
module L1Model {
  import opened Wrappers
  import opened Bytes

  type Key = string

  datatype Entry = Entry(value: seq<Byte>, expiresAt: real, size: nat)

  datatype Item = Item(key: Key, entry: Entry)

  /** A float number of seconds; NaN and the infinities are alike here. */
  datatype Seconds = Finite(seconds: real) | NonFinite

  datatype Config = Config(maxBytes: nat, ttlBuffer: real)

  /** `items` lists the OrderedDict, least recently used first. */
  datatype L1 = L1(items: seq<Item>, tracked: int, hits: nat, misses: nat, evictions: nat, expiredEvictions: nat)

  const EMPTY: L1 := L1([], 0, 0, 0, 0, 0)

  // ---------- the ordered dict ----------

  function Find(items: seq<Item>, key: Key): (i: nat)
    ensures i <= |items|
    ensures i < |items| ==> items[i].key == key
    ensures forall j :: 0 <= j < i ==> items[j].key != key
  {
    if items == [] || items[0].key == key then 0 else Find(items[1..], key) + 1
  }

  predicate Has(items: seq<Item>, key: Key) {
    Find(items, key) < |items|
  }

  function At(items: seq<Item>, key: Key): Entry
    requires Has(items, key)
  {
    items[Find(items, key)].entry
  }

  function Without(items: seq<Item>, key: Key): seq<Item> {
    var i := Find(items, key);
    if i < |items| then items[..i] + items[i + 1..] else items
  }

  /** The keys, in order. */
  function KeysOf(items: seq<Item>): seq<Key> {
    seq(|items|, i requires 0 <= i < |items| => items[i].key)
  }

  ghost predicate Distinct(items: seq<Item>) {
    forall i, j :: 0 <= i < j < |items| ==> items[i].key != items[j].key
  }

  /** The bytes really held. */
  function Stored(items: seq<Item>): nat {
    if items == [] then 0 else items[0].entry.size + Stored(items[1..])
  }

  // ---------- operations ----------

  function RemoveEntry(s: L1, key: Key): L1 {
    if Has(s.items, key)
    then s.(items := Without(s.items, key), tracked := s.tracked - At(s.items, key).size)
    else s
  }

  function RemoveAll(s: L1, keys: seq<Key>): L1
    decreases |keys|
  {
    if keys == [] then s else RemoveAll(RemoveEntry(s, keys[0]), keys[1..])
  }

  datatype Lookup = Lookup(s: L1, value: Option<seq<Byte>>)

  function Get(s: L1, key: Key, now: real): Lookup {
    if !Has(s.items, key) then Lookup(s.(misses := s.misses + 1), None)
    else if now >= At(s.items, key).expiresAt then
      var r := RemoveEntry(s, key);
      Lookup(r.(misses := r.misses + 1, expiredEvictions := r.expiredEvictions + 1), None)
    else
      var e := At(s.items, key);
      Lookup(s.(items := Without(s.items, key) + [Item(key, e)], hits := s.hits + 1), Some(e.value))
  }

  /** How many entries, oldest first, the eviction loop takes off the tracked count. */
  function EvictCount(items: seq<Item>, tracked: int, needed: nat, budget: nat): (k: nat)
    ensures k <= |items|
    decreases |items|
  {
    if items == [] || tracked + needed <= budget then 0
    else 1 + EvictCount(items[1..], tracked - items[0].entry.size, needed, budget)
  }

  function Evict(cfg: Config, s: L1, needed: nat): L1 {
    var k := EvictCount(s.items, s.tracked, needed, cfg.maxBytes);
    s.(items := s.items[k..], tracked := s.tracked - Stored(s.items[..k]), evictions := s.evictions + k)
  }

  function Plus(a: Seconds, r: real): Seconds {
    if a.Finite? then Finite(a.seconds + r) else NonFinite
  }

  function Expiry(cfg: Config, ttl: Option<Seconds>, expiresAt: Option<Seconds>, now: real): Seconds {
    if expiresAt.Some? then Plus(expiresAt.value, -cfg.ttlBuffer)
    else if ttl.Some? then Plus(ttl.value, now - cfg.ttlBuffer)
    else Finite(now + 300.0 - cfg.ttlBuffer)
  }

  /** The expiry is finite and still ahead. */
  predicate Cacheable(expiry: Seconds, now: real) {
    expiry.Finite? && expiry.seconds > now
  }

  function Replaced(s: L1, key: Key): L1 {
    if Has(s.items, key) then s.(tracked := s.tracked - At(s.items, key).size) else s
  }

  function Store(cfg: Config, s: L1, key: Key, value: seq<Byte>, expiresAt: real): L1 {
    var e := Evict(cfg, Replaced(s, key), |value|);
    e.(items := Without(e.items, key) + [Item(key, Entry(value, expiresAt, |value|))], tracked := e.tracked + |value|)
  }

  function Put(cfg: Config, s: L1, key: Key, value: seq<Byte>, expiry: Seconds, now: real): L1 {
    if !Cacheable(expiry, now) then s
    else if |value| > cfg.maxBytes then RemoveEntry(s, key)
    else Store(cfg, s, key, value, expiry.seconds)
  }

  function Clear(s: L1): L1 {
    s.(items := [], tracked := 0)
  }

  function ExpiredKeys(items: seq<Item>, now: real): seq<Key> {
    if items == [] then []
    else (if now >= items[0].entry.expiresAt then [items[0].key] else []) + ExpiredKeys(items[1..], now)
  }

  function Unexpired(items: seq<Item>, now: real): seq<Item> {
    if items == [] then []
    else (if now >= items[0].entry.expiresAt then [] else [items[0]]) + Unexpired(items[1..], now)
  }

  function Cleanup(s: L1, now: real): L1 {
    var keys := ExpiredKeys(s.items, now);
    var r := RemoveAll(s, keys);
    r.(expiredEvictions := r.expiredEvictions + |keys|)
  }

  // ---------- runs ----------

  datatype Op =
    | GetOp(key: Key, now: real)
    | PutOp(key: Key, value: seq<Byte>, ttl: Option<Seconds>, expiresAt: Option<Seconds>, now: real)
    | Invalidate(key: Key)
    | ClearOp
    | CleanupOp(now: real)

  function Step(cfg: Config, s: L1, op: Op): L1 {
    match op
    case GetOp(key, now) => Get(s, key, now).s
    case PutOp(key, value, ttl, expiresAt, now) => Put(cfg, s, key, value, Expiry(cfg, ttl, expiresAt, now), now)
    case Invalidate(key) => RemoveEntry(s, key)
    case ClearOp => Clear(s)
    case CleanupOp(now) => Cleanup(s, now)
  }

  function Run(cfg: Config, ops: seq<Op>): L1 {
    if ops == [] then EMPTY else Step(cfg, Run(cfg, ops[..|ops| - 1]), ops[|ops| - 1])
  }

  function Drift(s: L1): int {
    Stored(s.items) - s.tracked
  }

  /** A put that replaces an entry although the new value does not fit even once the old one and
    everything used less recently is discounted.  All of it can be read off before the call. */
  predicate EvictsItsOwn(cfg: Config, s: L1, key: Key, size: nat) {
    && Has(s.items, key)
    && s.tracked - At(s.items, key).size - Stored(s.items[..Find(s.items, key)]) + size > cfg.maxBytes
  }

  /** The bytes one operation drops from the count without dropping them from the cache. */
  function Lost(cfg: Config, s: L1, op: Op): nat {
    if op.PutOp? && Cacheable(Expiry(cfg, op.ttl, op.expiresAt, op.now), op.now) &&
       |op.value| <= cfg.maxBytes && EvictsItsOwn(cfg, s, op.key, |op.value|)
    then At(s.items, op.key).size
    else 0
  }

  /** The bytes lost since the last clear. */
  function LostSoFar(cfg: Config, ops: seq<Op>): nat {
    if ops == [] then 0
    else
      var init, op := ops[..|ops| - 1], ops[|ops| - 1];
      if op.ClearOp? then 0 else LostSoFar(cfg, init) + Lost(cfg, Run(cfg, init), op)
  }
}
