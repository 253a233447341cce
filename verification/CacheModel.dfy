/** The state of an ObjectCache and what each of its operations does to it.

  The clock is read once per operation (`now`); an object is its identity. */
module CacheModel {
  import opened Wrappers
  type Key = string

  type Obj = int

  datatype Ttl = Finite(seconds: real) | NonFinite

  predicate ValidTtl(ttl: Ttl) {
    ttl.Finite? && ttl.seconds >= 1.0
  }

  datatype Config = Config(maxEntries: Option<nat>, maxBytes: Option<nat>, ratio: real)

  /** What the constructor accepts. */
  predicate ValidConfig(cfg: Config) {
    && (cfg.maxEntries.Some? || cfg.maxBytes.Some?)
    && (cfg.maxEntries.Some? ==> cfg.maxEntries.value >= 1)
    && (cfg.maxBytes.Some? ==> cfg.maxBytes.value >= 1)
    && 0.0 < cfg.ratio <= 1.0
  }

  datatype Entry = Entry(value: Obj, expiresAt: real, cachedAt: real, size: nat, gen: nat)

  /** `order` is the key order of the OrderedDict, least recently used first. */
  datatype Cache = Cache(
    order: seq<Key>,
    store: map<Key, Entry>,
    bytes: int,
    refreshing: map<Key, nat>,
    gen: nat,
    hits: nat,
    misses: nat)

  const EMPTY: Cache := Cache([], map[], 0, map[], 0, 0, 0)

  function Without(order: seq<Key>, k: Key): (r: seq<Key>) {
    if order == [] then []
    else if order[0] == k then order[1..]
    else [order[0]] + Without(order[1..], k)
  }

  function ToEnd(order: seq<Key>, k: Key): seq<Key> {
    Without(order, k) + [k]
  }

  function Remove(c: Cache, k: Key): Cache {
    if k !in c.store then c
    else c.(order := Without(c.order, k), store := c.store - {k},
            bytes := c.bytes - c.store[k].size, refreshing := c.refreshing - {k})
  }

  function RemoveAll(c: Cache, ks: seq<Key>): Cache
    decreases |ks|
  {
    if ks == [] then c else RemoveAll(Remove(c, ks[0]), ks[1..])
  }

  // ---------- eviction ----------

  predicate Over(cfg: Config, c: Cache, extra: nat, needSlot: bool) {
    || (needSlot && cfg.maxEntries.Some? && |c.store| >= cfg.maxEntries.value)
    || (cfg.maxBytes.Some? && c.bytes + extra > cfg.maxBytes.value)
  }

  function ExpiredKeys(order: seq<Key>, store: map<Key, Entry>, now: real): seq<Key> {
    if order == [] then []
    else
      var rest := ExpiredKeys(order[1..], store, now);
      if order[0] in store && now >= store[order[0]].expiresAt then [order[0]] + rest else rest
  }

  function DropOldest(cfg: Config, c: Cache, extra: nat, needSlot: bool): Cache
    decreases |c.order|
  {
    if c.order == [] || !Over(cfg, c, extra, needSlot) || c.order[0] !in c.store then c
    else
      WithoutShorter(c.order, c.order[0]);
      DropOldest(cfg, Remove(c, c.order[0]), extra, needSlot)
  }

  function Evict(cfg: Config, c: Cache, extra: nat, needSlot: bool, now: real): Cache {
    if !Over(cfg, c, extra, needSlot) then c
    else DropOldest(cfg, RemoveAll(c, ExpiredKeys(c.order, c.store, now)), extra, needSlot)
  }

  // ---------- operations ----------

  datatype Lookup = Lookup(c: Cache, value: Option<Obj>)

  predicate Live(c: Cache, k: Key, now: real) {
    k in c.store && now < c.store[k].expiresAt
  }

  function Missed(c: Cache): Cache {
    c.(misses := c.misses + 1)
  }

  function Touched(c: Cache, k: Key): Cache {
    c.(order := ToEnd(c.order, k), hits := c.hits + 1)
  }

  function Get(c: Cache, k: Key, now: real): Lookup {
    if k !in c.store then Lookup(Missed(c), None)
    else if now >= c.store[k].expiresAt then Lookup(Missed(Remove(c, k)), None)
    else Lookup(Touched(c, k), Some(c.store[k].value))
  }

  datatype SwrLookup = SwrLookup(c: Cache, value: Option<Obj>, needsRefresh: bool, version: nat)

  function GetWithSwr(cfg: Config, c: Cache, k: Key, ttl: real, now: real, jitter: real): SwrLookup {
    var r := Get(c, k, now);
    if r.value.None? then SwrLookup(r.c, None, false, 0)
    else
      var e := c.store[k];
      if now - e.cachedAt > ttl * cfg.ratio * jitter && k !in c.refreshing
      then SwrLookup(r.c.(refreshing := c.refreshing[k := e.gen]), r.value, true, e.gen)
      else SwrLookup(r.c, r.value, false, e.gen)
  }

  /** Drop the in-flight marker of `k` if it belongs to `version`. */
  function ClearMarker(c: Cache, k: Key, version: nat): Cache {
    if k in c.refreshing && c.refreshing[k] == version then c.(refreshing := c.refreshing - {k}) else c
  }

  datatype Outcome = Landed | Rejected | ValueError

  datatype Write = Write(c: Cache, outcome: Outcome)

  predicate Oversized(cfg: Config, size: nat) {
    cfg.maxBytes.Some? && size > cfg.maxBytes.value
  }

  /** Size bookkeeping is off when there is no byte bound. */
  function Tracked(cfg: Config, size: nat): nat {
    if cfg.maxBytes.Some? then size else 0
  }

  function Refreshed(c: Cache, k: Key, e: Entry): Cache
    requires k in c.store
  {
    c.(bytes := c.bytes + e.size - c.store[k].size, store := c.store[k := e], order := ToEnd(c.order, k))
  }

  function CompleteRefresh(cfg: Config, c: Cache, k: Key, version: nat, value: Obj, size: nat, ttl: Ttl, now: real)
    : Write
  {
    if !ValidTtl(ttl) then Write(c, ValueError)
    else
      var d := ClearMarker(c, k, version);
      if k !in d.store || d.store[k].gen != version then Write(d, Rejected)
      else if Oversized(cfg, size) then Write(Remove(d, k), Rejected)
      else
        var e := Entry(value, now + ttl.seconds, now, Tracked(cfg, size), version);
        Write(Evict(cfg, Refreshed(d, k, e), 0, false, now), Landed)
  }

  function CancelRefresh(c: Cache, k: Key, version: nat): Cache {
    ClearMarker(c, k, version)
  }

  function Stored(c: Cache, k: Key, e: Entry): Cache {
    c.(gen := e.gen, store := c.store[k := e], order := c.order + [k], bytes := c.bytes + e.size)
  }

  function Put(cfg: Config, c: Cache, k: Key, value: Obj, size: nat, ttl: Ttl, now: real): Write {
    if !ValidTtl(ttl) then Write(c, ValueError)
    else if Oversized(cfg, size) then Write(Remove(c, k), Rejected)
    else
      var d := Evict(cfg, Remove(c, k), Tracked(cfg, size), true, now);
      Write(Stored(d, k, Entry(value, now + ttl.seconds, now, Tracked(cfg, size), d.gen + 1)), Landed)
  }

  function Clear(c: Cache): Cache {
    c.(order := [], store := map[], bytes := 0, refreshing := map[])
  }

  // ---------- the invariant ----------

  ghost predicate Distinct(order: seq<Key>) {
    forall i, j :: 0 <= i < j < |order| ==> order[i] != order[j]
  }

  function SizeOf(store: map<Key, Entry>, k: Key): nat {
    if k in store then store[k].size else 0
  }

  /** Sum of the sizes of the keys of `order`. */
  ghost function Total(order: seq<Key>, store: map<Key, Entry>): nat {
    if order == [] then 0 else SizeOf(store, order[0]) + Total(order[1..], store)
  }

  /** The key order lists every stored key once. */
  ghost predicate Ordered(order: seq<Key>, store: map<Key, Entry>) {
    Distinct(order) && forall k :: k in order <==> k in store
  }

  /** Tracked bytes are the sum over live entries; sizes are 0 without a byte bound. */
  ghost predicate Counted(cfg: Config, bytes: int, order: seq<Key>, store: map<Key, Entry>) {
    bytes == Total(order, store) && (cfg.maxBytes.None? ==> forall k :: k in store ==> store[k].size == 0)
  }

  /** A present marker equals the live entry's generation. */
  ghost predicate Marked(refreshing: map<Key, nat>, store: map<Key, Entry>) {
    forall k :: k in refreshing ==> k in store && refreshing[k] == store[k].gen
  }

  /** Generations are positive, issued, and not shared. */
  ghost predicate Numbered(store: map<Key, Entry>, gen: nat) {
    && (forall k :: k in store ==> 0 < store[k].gen <= gen)
    && (forall j, k :: j in store && k in store && store[j].gen == store[k].gen ==> j == k)
  }

  /** Bookkeeping agrees with the stored entries. */
  ghost predicate Consistent(cfg: Config, c: Cache) {
    && Ordered(c.order, c.store)
    && Counted(cfg, c.bytes, c.order, c.store)
    && Marked(c.refreshing, c.store)
    && Numbered(c.store, c.gen)
  }

  ghost predicate Within(cfg: Config, c: Cache) {
    && (cfg.maxEntries.Some? ==> |c.store| <= cfg.maxEntries.value)
    && (cfg.maxBytes.Some? ==> c.bytes <= cfg.maxBytes.value)
  }

  ghost predicate Inv(cfg: Config, c: Cache) {
    Consistent(cfg, c) && Within(cfg, c)
  }

  // ---------- sequences of distinct keys ----------

  lemma {:induction false} WithoutShorter(order: seq<Key>, k: Key)
    ensures k in order ==> |Without(order, k)| == |order| - 1
    ensures k !in order ==> Without(order, k) == order
  {
    if order != [] && order[0] != k {
      WithoutShorter(order[1..], k);
    }
  }

  lemma {:induction false} WithoutMembers(order: seq<Key>, k: Key)
    requires Distinct(order)
    ensures Distinct(Without(order, k))
    ensures forall j :: j in Without(order, k) <==> j in order && j != k
  {
    if order != [] {
      assert forall j :: j in order <==> j == order[0] || j in order[1..];
      if order[0] == k {
        assert forall i :: 1 <= i < |order| ==> order[i] != k;
      } else {
        WithoutMembers(order[1..], k);
        var rest := Without(order[1..], k);
        var all := [order[0]] + rest;
        assert forall i :: 0 < i < |all| ==> all[i] == rest[i - 1] && rest[i - 1] in rest;
        assert order[0] !in order[1..];
      }
    }
  }

  lemma {:induction false} TotalAgrees(order: seq<Key>, s: map<Key, Entry>, t: map<Key, Entry>)
    requires forall k :: k in order ==> SizeOf(s, k) == SizeOf(t, k)
    ensures Total(order, s) == Total(order, t)
  {
    if order != [] { TotalAgrees(order[1..], s, t); }
  }

  lemma {:induction false} TotalWithout(order: seq<Key>, store: map<Key, Entry>, k: Key)
    requires k in order
    ensures Total(order, store) == Total(Without(order, k), store) + SizeOf(store, k)
  {
    if order[0] != k {
      TotalWithout(order[1..], store, k);
      assert Without(order, k)[1..] == Without(order[1..], k);
    }
  }

  lemma {:induction false} TotalAppend(order: seq<Key>, k: Key, store: map<Key, Entry>)
    ensures Total(order + [k], store) == Total(order, store) + SizeOf(store, k)
  {
    if order == [] {
      assert order + [k] == [k];
    } else {
      TotalAppend(order[1..], k, store);
      assert (order + [k])[1..] == order[1..] + [k];
    }
  }

  lemma {:induction false} CountKeys(order: seq<Key>, store: map<Key, Entry>)
    requires Ordered(order, store)
    ensures |order| == |store|
  {
    if order == [] {
      assert store == map[];
    } else {
      var k := order[0];
      assert forall j :: j in order[1..] <==> j in order && j != k by {
        assert forall i :: 1 <= i < |order| ==> order[i] != k;
        assert forall j :: j in order <==> j == k || j in order[1..];
      }
      CountKeys(order[1..], store - {k});
      assert store.Keys == (store - {k}).Keys + {k};
      assert |store.Keys| == |(store - {k}).Keys| + 1;
    }
  }
}
