/** Whole runs of the object cache: the invariant, the refinement of an unbounded TTL map, and
  dead tokens staying dead. */
module CacheRuns {
  import opened Wrappers
  import opened CacheModel
  import opened CacheProofs
  import opened CacheInvariant
  import opened CacheShapes

  datatype Event =
    | Look(k: Key, now: real)
    | LookSwr(k: Key, swrTtl: real, now: real, jitter: real)
    | Complete(k: Key, version: nat, value: Obj, size: nat, ttl: Ttl, now: real)
    | Cancel(k: Key, version: nat)
    | Store(k: Key, value: Obj, size: nat, ttl: Ttl, now: real)
    | Delete(k: Key)
    | ClearAll

  function Step(cfg: Config, c: Cache, e: Event): Cache {
    match e
    case Look(k, now) => Get(c, k, now).c
    case LookSwr(k, swrTtl, now, jitter) => GetWithSwr(cfg, c, k, swrTtl, now, jitter).c
    case Complete(k, version, value, size, ttl, now) => CompleteRefresh(cfg, c, k, version, value, size, ttl, now).c
    case Cancel(k, version) => CancelRefresh(c, k, version)
    case Store(k, value, size, ttl, now) => Put(cfg, c, k, value, size, ttl, now).c
    case Delete(k) => Remove(c, k)
    case ClearAll => Clear(c)
  }

  /** The cache after the events `es`, from empty. */
  function Run(cfg: Config, es: seq<Event>): Cache {
    if es == [] then EMPTY else Step(cfg, Run(cfg, es[..|es| - 1]), es[|es| - 1])
  }

  lemma {:induction false} StepKeeps(cfg: Config, c: Cache, e: Event)
    requires ValidConfig(cfg) && Inv(cfg, c)
    ensures Inv(cfg, Step(cfg, c, e))
  {
    hide Inv, Get, GetWithSwr, CompleteRefresh, Put, Remove;
    match e
    case Look(k, now) => GetKeeps(cfg, c, k, now);
    case LookSwr(k, swrTtl, now, jitter) => GetWithSwrKeeps(cfg, c, k, swrTtl, now, jitter);
    case Complete(k, version, value, size, ttl, now) => CompleteRefreshKeeps(cfg, c, k, version, value, size, ttl, now);
    case Cancel(k, version) => ClearMarkerKeeps(cfg, c, k, version);
    case Store(k, value, size, ttl, now) => PutKeeps(cfg, c, k, value, size, ttl, now);
    case Delete(k) => RemoveInv(cfg, c, k);
    case ClearAll => ClearKeeps(cfg, c);
  }

  lemma RemoveInv(cfg: Config, c: Cache, k: Key)
    requires Inv(cfg, c)
    ensures Inv(cfg, Remove(c, k))
  {
    hide Consistent, Within;
    RemoveKeeps(cfg, c, k);
  }

  /** In every reachable state tracked bytes are exact, both bounds hold and every marker is its
    live entry's generation. */
  lemma {:induction false} RunKeeps(cfg: Config, es: seq<Event>)
    requires ValidConfig(cfg)
    ensures Inv(cfg, Run(cfg, es))
  {
    if es != [] {
      hide Inv, Step;
      RunKeeps(cfg, es[..|es| - 1]);
      StepKeeps(cfg, Run(cfg, es[..|es| - 1]), es[|es| - 1]);
    }
  }

  // ---------- where an entry after a step comes from ----------

  /** An entry after a step was there before, was refreshed in place, or is a landed put. */
  ghost predicate Origin(cfg: Config, c: Cache, e: Event, k: Key) {
    var r := Step(cfg, c, e);
    k in r.store ==>
      || (k in c.store && r.store[k] == c.store[k])
      || (e.Complete? && e.k == k && k in c.store && c.store[k].gen == e.version &&
          ValidTtl(e.ttl) && !Oversized(cfg, e.size) &&
          r.store[k] == Entry(e.value, e.now + e.ttl.seconds, e.now, Tracked(cfg, e.size), e.version))
      || (e.Store? && e.k == k && ValidTtl(e.ttl) && !Oversized(cfg, e.size) &&
          r.store[k] == Entry(e.value, e.now + e.ttl.seconds, e.now, Tracked(cfg, e.size), c.gen + 1))
  }

  predicate Lands(cfg: Config, c: Cache, e: Event)
    requires e.Complete?
  {
    ValidTtl(e.ttl) && LiveToken(c, e.k, e.version) && !Oversized(cfg, e.size)
  }

  lemma {:induction false} CompleteOrigin(cfg: Config, c: Cache, e: Event, k: Key)
    requires Inv(cfg, c) && e.Complete? && k in Step(cfg, c, e).store
    ensures k in c.store && (Step(cfg, c, e).store[k] == c.store[k] || (k == e.k && Lands(cfg, c, e)))
  {
    hide Consistent, Within, Evict, Without;
    var d := ClearMarker(c, e.k, e.version);
    if Lands(cfg, c, e) {
      var x := Entry(e.value, e.now + e.ttl.seconds, e.now, Tracked(cfg, e.size), e.version);
      ClearMarkerKeeps(cfg, c, e.k, e.version);
      assert Consistent(cfg, d) by { InvConsistent(cfg, d); }
      RefreshedKeeps(cfg, d, e.k, x);
      EvictKeeps(cfg, Refreshed(d, e.k, x), 0, false, e.now);
    }
  }

  lemma {:induction false} StoreOrigin(cfg: Config, c: Cache, e: Event, k: Key)
    requires Inv(cfg, c) && e.Store? && k in Step(cfg, c, e).store
    ensures (k in c.store && Step(cfg, c, e).store[k] == c.store[k] && (k != e.k || !ValidTtl(e.ttl))) ||
            (k == e.k && ValidTtl(e.ttl) && !Oversized(cfg, e.size))
  {
    hide Consistent, Within, Evict, Without;
    assert Consistent(cfg, c) by { InvConsistent(cfg, c); }
    RemoveKeeps(cfg, c, e.k);
    EvictKeeps(cfg, Remove(c, e.k), Tracked(cfg, e.size), true, e.now);
  }

  lemma {:induction false} QuietOrigin(cfg: Config, c: Cache, e: Event, k: Key)
    requires !e.Complete? && !e.Store? && k in Step(cfg, c, e).store
    ensures k in c.store && Step(cfg, c, e).store[k] == c.store[k]
  {
    hide Without;
  }

  lemma {:induction false} EntryOrigin(cfg: Config, c: Cache, e: Event, k: Key)
    requires ValidConfig(cfg) && Inv(cfg, c)
    ensures Origin(cfg, c, e, k)
  {
    if k in Step(cfg, c, e).store {
      hide Inv, CompleteRefresh, Put, Get, GetWithSwr, Remove, Clear, CancelRefresh;
      match e
      case Complete(j, version, value, size, ttl, now) =>
        CompleteOrigin(cfg, c, e, k);
        CompleteLands(cfg, c, e);
        CompleteRefreshKeeps(cfg, c, j, version, value, size, ttl, now);
      case Store(j, value, size, ttl, now) =>
        StoreOrigin(cfg, c, e, k);
        StoreLands(cfg, c, e);
        PutKeeps(cfg, c, j, value, size, ttl, now);
      case _ =>
        QuietOrigin(cfg, c, e, k);
    }
  }

  lemma CompleteLands(cfg: Config, c: Cache, e: Event)
    requires e.Complete?
    ensures CompleteRefresh(cfg, c, e.k, e.version, e.value, e.size, e.ttl, e.now).outcome.Landed? <==> Lands(cfg, c, e)
  {
    hide Evict;
  }

  lemma StoreLands(cfg: Config, c: Cache, e: Event)
    requires e.Store?
    ensures Put(cfg, c, e.k, e.value, e.size, e.ttl, e.now).outcome.Landed? <==>
            ValidTtl(e.ttl) && !Oversized(cfg, e.size)
  {
    hide Evict;
  }

  // ---------- dead tokens ----------

  predicate LiveToken(c: Cache, k: Key, version: nat) {
    k in c.store && c.store[k].gen == version
  }

  lemma {:induction false} GenNeverDrops(cfg: Config, c: Cache, e: Event)
    requires ValidConfig(cfg) && Inv(cfg, c)
    ensures c.gen <= Step(cfg, c, e).gen <= c.gen + 1
  {
    hide Inv, Evict;
    match e
    case Complete(k, version, value, size, ttl, now) => CompleteRefreshKeeps(cfg, c, k, version, value, size, ttl, now);
    case Store(k, value, size, ttl, now) => PutKeeps(cfg, c, k, value, size, ttl, now);
    case _ =>
  }

  lemma {:induction false} DeadStaysDead(cfg: Config, es: seq<Event>, i: nat, k: Key, version: nat)
    requires ValidConfig(cfg) && i <= |es|
    requires version <= Run(cfg, es[..i]).gen && !LiveToken(Run(cfg, es[..i]), k, version)
    ensures version <= Run(cfg, es).gen && !LiveToken(Run(cfg, es), k, version)
    decreases |es|
  {
    hide Step, Inv;
    if i == |es| {
      assert es[..i] == es;
    } else {
      var init, e := es[..|es| - 1], es[|es| - 1];
      assert init[..i] == es[..i];
      DeadStaysDead(cfg, init, i, k, version);
      RunKeeps(cfg, init);
      EntryOrigin(cfg, Run(cfg, init), e, k);
      GenNeverDrops(cfg, Run(cfg, init), e);
    }
  }

  /** A refresh that finishes after its entry was deleted, replaced, evicted, cleared or expired
    away, whatever happened since, is rejected and changes nothing: not the entries, their
    order, the byte count nor any marker. */
  lemma {:induction false} NeverResurrected(cfg: Config, es: seq<Event>, i: nat, k: Key, version: nat,
                                            value: Obj, size: nat, ttl: Ttl, now: real)
    requires ValidConfig(cfg) && i <= |es| && ValidTtl(ttl)
    requires version <= Run(cfg, es[..i]).gen && !LiveToken(Run(cfg, es[..i]), k, version)
    ensures CompleteRefresh(cfg, Run(cfg, es), k, version, value, size, ttl, now) == Write(Run(cfg, es), Rejected)
    ensures CancelRefresh(Run(cfg, es), k, version) == Run(cfg, es)
  {
    hide Run, Inv;
    DeadStaysDead(cfg, es, i, k, version);
    RunKeeps(cfg, es);
    DeadTokenIsInert(cfg, Run(cfg, es), k, version, value, size, ttl, now);
  }

  // ---------- the unbounded TTL map ----------

  datatype Slot = Slot(value: Obj, expiresAt: real, gen: nat)

  datatype TtlMap = TtlMap(slots: map<Key, Slot>, gen: nat)

  /** The same events on a map without bounds, order, sizes or markers. */
  function TtlStep(cfg: Config, m: TtlMap, e: Event): TtlMap {
    match e
    case Look(k, now) => Expire(m, k, now)
    case LookSwr(k, _, now, _) => Expire(m, k, now)
    case Complete(k, version, value, size, ttl, now) =>
      if !ValidTtl(ttl) || k !in m.slots || m.slots[k].gen != version then m
      else if Oversized(cfg, size) then m.(slots := m.slots - {k})
      else m.(slots := m.slots[k := Slot(value, now + ttl.seconds, version)])
    case Cancel(_, _) => m
    case Store(k, value, size, ttl, now) =>
      if !ValidTtl(ttl) then m
      else if Oversized(cfg, size) then m.(slots := m.slots - {k})
      else TtlMap(m.slots[k := Slot(value, now + ttl.seconds, m.gen + 1)], m.gen + 1)
    case Delete(k) => m.(slots := m.slots - {k})
    case ClearAll => m.(slots := map[])
  }

  function Expire(m: TtlMap, k: Key, now: real): TtlMap {
    if k in m.slots && now >= m.slots[k].expiresAt then m.(slots := m.slots - {k}) else m
  }

  function TtlRun(cfg: Config, es: seq<Event>): TtlMap {
    if es == [] then TtlMap(map[], 0) else TtlStep(cfg, TtlRun(cfg, es[..|es| - 1]), es[|es| - 1])
  }

  function SlotOf(e: Entry): Slot {
    Slot(e.value, e.expiresAt, e.gen)
  }

  ghost predicate Refines(c: Cache, m: TtlMap) {
    c.gen == m.gen && forall k :: k in c.store ==> k in m.slots && m.slots[k] == SlotOf(c.store[k])
  }

  lemma {:induction false} StepGen(cfg: Config, c: Cache, m: TtlMap, e: Event)
    requires ValidConfig(cfg) && Inv(cfg, c) && c.gen == m.gen
    ensures Step(cfg, c, e).gen == TtlStep(cfg, m, e).gen
  {
    hide Inv, Evict;
    match e
    case Complete(k, version, value, size, ttl, now) => CompleteRefreshKeeps(cfg, c, k, version, value, size, ttl, now);
    case Store(k, value, size, ttl, now) => PutKeeps(cfg, c, k, value, size, ttl, now);
    case _ =>
  }

  /** An entry that is in the cache after a step is in the TTL map too, with the same value,
    deadline and generation. */
  lemma {:induction false} SlotAfter(cfg: Config, c: Cache, m: TtlMap, e: Event, k: Key)
    requires ValidConfig(cfg) && Inv(cfg, c) && Refines(c, m) && k in Step(cfg, c, e).store
    ensures k in TtlStep(cfg, m, e).slots && TtlStep(cfg, m, e).slots[k] == SlotOf(Step(cfg, c, e).store[k])
  {
    hide Inv, CompleteRefresh, Put, Without;
    match e
    case Complete(j, version, value, size, ttl, now) =>
      CompleteOrigin(cfg, c, e, k);
      CompleteLands(cfg, c, e);
      CompleteRefreshKeeps(cfg, c, j, version, value, size, ttl, now);
      if ValidTtl(ttl) && LiveToken(c, j, version) && Oversized(cfg, size) { OversizedRefreshLeaves(cfg, c, e); }
    case Store(j, value, size, ttl, now) =>
      StoreOrigin(cfg, c, e, k);
      StoreLands(cfg, c, e);
      PutKeeps(cfg, c, j, value, size, ttl, now);
    case _ =>
  }

  lemma OversizedRefreshLeaves(cfg: Config, c: Cache, e: Event)
    requires e.Complete? && ValidTtl(e.ttl) && LiveToken(c, e.k, e.version) && Oversized(cfg, e.size)
    ensures e.k !in Step(cfg, c, e).store
  {
    hide Evict, Without;
  }

  lemma {:induction false} StepRefines(cfg: Config, c: Cache, m: TtlMap, e: Event)
    requires ValidConfig(cfg) && Inv(cfg, c) && Refines(c, m)
    ensures Refines(Step(cfg, c, e), TtlStep(cfg, m, e))
  {
    hide Inv, Step, TtlStep;
    StepGen(cfg, c, m, e);
    forall k | k in Step(cfg, c, e).store
      ensures k in TtlStep(cfg, m, e).slots && TtlStep(cfg, m, e).slots[k] == SlotOf(Step(cfg, c, e).store[k])
    {
      SlotAfter(cfg, c, m, e, k);
    }
  }

  lemma {:induction false} RunRefines(cfg: Config, es: seq<Event>)
    requires ValidConfig(cfg)
    ensures Refines(Run(cfg, es), TtlRun(cfg, es))
  {
    if es != [] {
      hide Inv, Step, TtlStep, Refines;
      RunRefines(cfg, es[..|es| - 1]);
      RunKeeps(cfg, es[..|es| - 1]);
      StepRefines(cfg, Run(cfg, es[..|es| - 1]), TtlRun(cfg, es[..|es| - 1]), es[|es| - 1]);
    }
  }

  // ---------- hits ----------

  /** Does handling `e` find the cache over a bound? */
  predicate Evicts(cfg: Config, c: Cache, e: Event) {
    match e
    case Complete(k, version, value, size, ttl, now) =>
      Lands(cfg, c, e) &&
      var x := Entry(value, now + ttl.seconds, now, Tracked(cfg, size), version);
      Over(cfg, Refreshed(ClearMarker(c, k, version), k, x), 0, false)
    case Store(k, value, size, ttl, now) =>
      ValidTtl(ttl) && !Oversized(cfg, size) && Over(cfg, Remove(c, k), Tracked(cfg, size), true)
    case _ => false
  }

  predicate NeverEvicts(cfg: Config, es: seq<Event>) {
    es != [] ==> NeverEvicts(cfg, es[..|es| - 1]) && !Evicts(cfg, Run(cfg, es[..|es| - 1]), es[|es| - 1])
  }

  /** A step that evicts nothing loses no key that the TTL map keeps. */
  lemma {:induction false} StepHolds(cfg: Config, c: Cache, m: TtlMap, e: Event, k: Key)
    requires ValidConfig(cfg) && Inv(cfg, c) && Refines(c, m) && !Evicts(cfg, c, e)
    requires k in c.store && k in TtlStep(cfg, m, e).slots
    ensures k in Step(cfg, c, e).store
  {
    hide Inv, Over, Without;
    assert m.slots[k] == SlotOf(c.store[k]);
    if e.Complete? {
      hide Refreshed;
      if Lands(cfg, c, e) {
        var x := Entry(e.value, e.now + e.ttl.seconds, e.now, Tracked(cfg, e.size), e.version);
        RefreshedKeys(ClearMarker(c, e.k, e.version), e.k, x);
      }
    }
  }

  lemma RefreshedKeys(c: Cache, k: Key, e: Entry)
    requires k in c.store
    ensures Refreshed(c, k, e).store.Keys == c.store.Keys
  {
  }

  /** A key the TTL map gains is gained by the cache too. */
  lemma {:induction false} StepGains(cfg: Config, c: Cache, m: TtlMap, e: Event, k: Key)
    requires ValidConfig(cfg) && Inv(cfg, c) && k !in m.slots && k in TtlStep(cfg, m, e).slots
    ensures k in Step(cfg, c, e).store
  {
    hide Inv, Put, CompleteRefresh;
    assert e.Store? && e.k == k && ValidTtl(e.ttl) && !Oversized(cfg, e.size);
    StoreLands(cfg, c, e);
    PutKeeps(cfg, c, e.k, e.value, e.size, e.ttl, e.now);
  }

  /** The put or refresh `e` had no room for `k`. */
  ghost predicate NoRoomFor(cfg: Config, c: Cache, e: Event, k: Key) {
    var bytes := if (e.Store? || e.Complete?) && cfg.maxBytes.Some? then e.size else 0;
    match e
    case Store(j, _, _, _, now) => HadToGo(cfg, Others(c, j), c.store, bytes, true, now, k)
    case Complete(j, version, value, _, ttl, now) =>
      ttl.Finite? &&
      var store := c.store[j := CacheModel.Entry(value, now + ttl.seconds, now, bytes, version)];
      HadToGo(cfg, Others(c, j) + [j], store, 0, false, now, k)
    case _ => false
  }

  /** What a step loses although the TTL map keeps it, the step had no room for. */
  lemma {:induction false} LostForRoom(cfg: Config, c: Cache, m: TtlMap, e: Event, k: Key)
    requires ValidConfig(cfg) && Inv(cfg, c) && Refines(c, m) && (e.Store? || e.Complete?)
    requires k in c.store && k in TtlStep(cfg, m, e).slots && k !in Step(cfg, c, e).store
    ensures NoRoomFor(cfg, c, e, k)
  {
    hide Inv, MadeRoom, HadToGo, Others, MarkersStay, Put, CompleteRefresh;
    OthersOf(cfg, c, e.k);
    assert m.slots[k] == SlotOf(c.store[k]);
    if e.Store? {
      var left := PutShape(cfg, c, e.k, e.value, e.size, e.ttl, e.now);
      NotLeft(cfg, Others(c, e.k), c.store, Tracked(cfg, e.size), true, e.now, left, k);
    } else {
      var left := RefreshShape(cfg, c, e.k, e.version, e.value, e.size, e.ttl, e.now);
      var x := CacheModel.Entry(e.value, e.now + e.ttl.seconds, e.now, Tracked(cfg, e.size), e.version);
      NotLeft(cfg, Others(c, e.k) + [e.k], c.store[e.k := x], 0, false, e.now, left, k);
    }
  }

  lemma OthersOf(cfg: Config, c: Cache, k: Key)
    requires Inv(cfg, c)
    ensures forall j :: j in Others(c, k) <==> j in c.store && j != k
  {
    hide Consistent, Within, Others;
    OthersMembers(cfg, c, k);
  }

  /** Event j had no room for `k` and evicted it, and it has not been in the cache since. */
  ghost predicate EvictedAt(cfg: Config, es: seq<Event>, k: Key, j: nat) {
    && j < |es| && k in Run(cfg, es[..j]).store && Evicts(cfg, Run(cfg, es[..j]), es[j])
    && NoRoomFor(cfg, Run(cfg, es[..j]), es[j], k)
    && forall i :: j < i <= |es| ==> k !in Run(cfg, es[..i]).store
  }

  /** A key that the TTL map holds and the cache does not was evicted. */
  lemma {:induction false} LostByEviction(cfg: Config, es: seq<Event>, k: Key) returns (j: nat)
    requires ValidConfig(cfg) && k in TtlRun(cfg, es).slots && k !in Run(cfg, es).store
    ensures EvictedAt(cfg, es, k, j)
  {
    hide Inv, Step, TtlStep, Refines, Evicts, EvictedAt, NoRoomFor;
    assert es != [];
    var init, e := es[..|es| - 1], es[|es| - 1];
    RunKeeps(cfg, init);
    RunRefines(cfg, init);
    if k in Run(cfg, init).store {
      if !Evicts(cfg, Run(cfg, init), e) { StepHolds(cfg, Run(cfg, init), TtlRun(cfg, init), e, k); }
      EvictsOnWrite(cfg, Run(cfg, init), e);
      LostForRoom(cfg, Run(cfg, init), TtlRun(cfg, init), e, k);
      j := |init|;
      EvictedNow(cfg, es, k);
    } else {
      if k !in TtlRun(cfg, init).slots { StepGains(cfg, Run(cfg, init), TtlRun(cfg, init), e, k); }
      j := LostByEviction(cfg, init, k);
      EvictedBefore(cfg, es, k, j);
    }
  }

  lemma EvictsOnWrite(cfg: Config, c: Cache, e: Event)
    requires Evicts(cfg, c, e)
    ensures e.Store? || e.Complete?
  {
  }

  lemma EvictedNow(cfg: Config, es: seq<Event>, k: Key)
    requires es != [] && k in Run(cfg, es[..|es| - 1]).store && k !in Run(cfg, es).store
    requires Evicts(cfg, Run(cfg, es[..|es| - 1]), es[|es| - 1])
    requires NoRoomFor(cfg, Run(cfg, es[..|es| - 1]), es[|es| - 1], k)
    ensures EvictedAt(cfg, es, k, |es| - 1)
  {
    hide Run, Evicts, NoRoomFor;
    assert es[..|es|] == es;
  }

  lemma EvictedBefore(cfg: Config, es: seq<Event>, k: Key, j: nat)
    requires es != [] && EvictedAt(cfg, es[..|es| - 1], k, j) && k !in Run(cfg, es).store
    ensures EvictedAt(cfg, es, k, j)
  {
    hide Run, Evicts, NoRoomFor;
    var init := es[..|es| - 1];
    assert es[..|es|] == es && init[..j] == es[..j];
    forall i | j < i <= |es| ensures k !in Run(cfg, es[..i]).store {
      if i <= |init| { assert init[..i] == es[..i]; }
    }
  }

  lemma {:induction false} NoEvictionAt(cfg: Config, es: seq<Event>, j: nat)
    requires NeverEvicts(cfg, es) && j < |es|
    ensures !Evicts(cfg, Run(cfg, es[..j]), es[j])
  {
    hide Run, Evicts;
    if j < |es| - 1 {
      NoEvictionAt(cfg, es[..|es| - 1], j);
      assert es[..|es| - 1][..j] == es[..j];
    }
  }

  function TtlLookup(m: TtlMap, k: Key, now: real): Option<Obj> {
    if k in m.slots && now < m.slots[k].expiresAt then Some(m.slots[k].value) else None
  }

  /** After any run a hit of either lookup returns what the TTL map would. */
  lemma {:induction false} HitsAreFresh(cfg: Config, es: seq<Event>, k: Key, ttl: real, now: real, jitter: real)
    requires ValidConfig(cfg)
    ensures var found := Get(Run(cfg, es), k, now).value;
            && GetWithSwr(cfg, Run(cfg, es), k, ttl, now, jitter).value == found
            && (found.Some? ==> found == TtlLookup(TtlRun(cfg, es), k, now))
    ensures k in Run(cfg, es).store ==> Get(Run(cfg, es), k, now).value == TtlLookup(TtlRun(cfg, es), k, now)
  {
    hide Run, TtlRun, Without;
    RunRefines(cfg, es);
    if k in Run(cfg, es).store {
      assert TtlRun(cfg, es).slots[k] == SlotOf(Run(cfg, es).store[k]);
    }
  }

  /** Where the TTL map hits and the cache misses, a put or a refresh that had no room for that very
    key evicted it, and nothing landed on it since. */
  lemma {:induction false} MissMeansEvicted(cfg: Config, es: seq<Event>, k: Key, now: real) returns (j: nat)
    requires ValidConfig(cfg)
    requires Get(Run(cfg, es), k, now).value.None? && TtlLookup(TtlRun(cfg, es), k, now).Some?
    ensures EvictedAt(cfg, es, k, j)
  {
    hide Run, TtlRun, EvictedAt, Get;
    HitsAreFresh(cfg, es, k, 0.0, now, 1.0);
    j := LostByEviction(cfg, es, k);
  }

  /** A hit of either lookup is what the TTL map would return; on a run on which eviction never acts
    hits and misses agree exactly. */
  lemma {:induction false} HitsAgree(cfg: Config, es: seq<Event>, k: Key, ttl: real, now: real, jitter: real)
    requires ValidConfig(cfg)
    ensures var found := Get(Run(cfg, es), k, now).value; var expected := TtlLookup(TtlRun(cfg, es), k, now);
            && (found.Some? ==> found == expected)
            && (NeverEvicts(cfg, es) ==> found == expected)
    ensures var found := GetWithSwr(cfg, Run(cfg, es), k, ttl, now, jitter).value;
            var expected := TtlLookup(TtlRun(cfg, es), k, now);
            && (found.Some? ==> found == expected)
            && (NeverEvicts(cfg, es) ==> found == expected)
  {
    hide Run, TtlRun, NeverEvicts, Get, GetWithSwr, Evicts, TtlLookup;
    HitsAreFresh(cfg, es, k, ttl, now, jitter);
    var found, expected := Get(Run(cfg, es), k, now).value, TtlLookup(TtlRun(cfg, es), k, now);
    if NeverEvicts(cfg, es) && found.None? && expected.Some? {
      var j := MissMeansEvicted(cfg, es, k, now);
      NoEvictionAt(cfg, es, j);
    }
  }

  // ---------- the TTL map holds the latest write ----------

  /** What a successful put or refresh of `k` writes. */
  function Written(cfg: Config, m: TtlMap, e: Event, k: Key): Option<Slot> {
    match e
    case Complete(j, version, value, size, ttl, now) =>
      if j == k && ValidTtl(ttl) && !Oversized(cfg, size) && j in m.slots && m.slots[j].gen == version
      then Some(Slot(value, now + ttl.seconds, version)) else None
    case Store(j, value, size, ttl, now) =>
      if j == k && ValidTtl(ttl) && !Oversized(cfg, size) then Some(Slot(value, now + ttl.seconds, m.gen + 1)) else None
    case _ => None
  }

  /** A removal of `k`: delete, clear, an oversized write, or finding it expired. */
  predicate Removes(cfg: Config, m: TtlMap, e: Event, k: Key) {
    match e
    case Look(j, now) => j == k && j in m.slots && now >= m.slots[j].expiresAt
    case LookSwr(j, _, now, _) => j == k && j in m.slots && now >= m.slots[j].expiresAt
    case Complete(j, version, _, size, ttl, _) =>
      j == k && ValidTtl(ttl) && Oversized(cfg, size) && j in m.slots && m.slots[j].gen == version
    case Cancel(_, _) => false
    case Store(j, _, size, ttl, _) => j == k && ValidTtl(ttl) && Oversized(cfg, size)
    case Delete(j) => j == k
    case ClearAll => true
  }

  lemma StepSlot(cfg: Config, m: TtlMap, e: Event, k: Key)
    requires k in TtlStep(cfg, m, e).slots
    ensures Written(cfg, m, e, k) == Some(TtlStep(cfg, m, e).slots[k]) ||
            (Written(cfg, m, e, k).None? && !Removes(cfg, m, e, k) &&
             k in m.slots && TtlStep(cfg, m, e).slots[k] == m.slots[k])
  {
  }

  /** What the TTL map holds for `k` is what the latest write of `k` wrote, and nothing removed
    `k` since. */
  lemma {:induction false} LatestWrite(cfg: Config, es: seq<Event>, k: Key) returns (i: nat)
    requires k in TtlRun(cfg, es).slots
    ensures i < |es| && Written(cfg, TtlRun(cfg, es[..i]), es[i], k) == Some(TtlRun(cfg, es).slots[k])
    ensures forall j :: i < j < |es| ==>
      Written(cfg, TtlRun(cfg, es[..j]), es[j], k).None? && !Removes(cfg, TtlRun(cfg, es[..j]), es[j], k)
  {
    hide Written, Removes, TtlStep;
    var n := |es| - 1;
    var init := es[..n];
    StepSlot(cfg, TtlRun(cfg, init), es[n], k);
    if Written(cfg, TtlRun(cfg, init), es[n], k).Some? {
      i := n;
    } else {
      i := LatestWrite(cfg, init, k);
      assert forall j :: 0 <= j <= n ==> init[..j] == es[..j];
    }
  }
}
