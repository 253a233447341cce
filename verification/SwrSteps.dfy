/** Every step of the refresh protocol keeps its invariant. */
module SwrSteps {
  import opened CacheModel
  import opened CacheProofs
  import opened CacheInvariant
  import opened CacheRuns
  import opened SwrProtocol

  // ---------- the cache side of a step ----------

  /** `r` follows `c`: no new marker, no revived token, and a marker goes only with its entry. */
  ghost predicate Follows(c: Cache, r: Cache) {
    && c.gen <= r.gen
    && (forall j :: j in c.refreshing ==> c.refreshing[j] <= c.gen)
    && (forall j :: j in r.refreshing ==> j in c.refreshing && r.refreshing[j] == c.refreshing[j])
    && (forall j, v: nat :: LiveToken(r, j, v) && v <= c.gen ==> LiveToken(c, j, v))
    && (forall j :: j in c.refreshing && LiveToken(r, j, c.refreshing[j]) ==> j in r.refreshing)
  }

  lemma FollowsTransitive(a: Cache, b: Cache, c: Cache)
    requires Follows(a, b) && Follows(b, c)
    ensures Follows(a, c)
  {
    forall j | j in a.refreshing && LiveToken(c, j, a.refreshing[j]) ensures j in c.refreshing {
      assert LiveToken(b, j, a.refreshing[j]);
    }
  }

  lemma FollowsSelf(cfg: Config, c: Cache)
    requires Consistent(cfg, c)
    ensures Follows(c, c)
  {
    hide Ordered, Counted;
  }

  lemma FollowsRemove(cfg: Config, c: Cache, k: Key)
    requires Consistent(cfg, c)
    ensures Follows(c, Remove(c, k))
  {
    hide Ordered, Counted, Without;
  }

  lemma {:induction false} FollowsRemoveAll(cfg: Config, c: Cache, ks: seq<Key>)
    requires Consistent(cfg, c)
    ensures Follows(c, RemoveAll(c, ks))
    decreases |ks|
  {
    hide Consistent, Follows, Remove;
    if ks == [] {
      FollowsSelf(cfg, c);
    } else {
      RemoveKeeps(cfg, c, ks[0]);
      FollowsRemove(cfg, c, ks[0]);
      FollowsRemoveAll(cfg, Remove(c, ks[0]), ks[1..]);
      FollowsTransitive(c, Remove(c, ks[0]), RemoveAll(c, ks));
    }
  }

  lemma {:induction false} FollowsDrop(cfg: Config, c: Cache, extra: nat, needSlot: bool)
    requires Consistent(cfg, c)
    ensures Follows(c, DropOldest(cfg, c, extra, needSlot))
    decreases |c.order|
  {
    hide Consistent, Follows, Remove, Over;
    FollowsSelf(cfg, c);
    if c.order != [] && Over(cfg, c, extra, needSlot) && c.order[0] in c.store {
      var d := Remove(c, c.order[0]);
      RemoveKeeps(cfg, c, c.order[0]);
      FollowsRemove(cfg, c, c.order[0]);
      assert |d.order| < |c.order| by { ShorterOrder(c); }
      FollowsDrop(cfg, d, extra, needSlot);
      FollowsTransitive(c, d, DropOldest(cfg, d, extra, needSlot));
    }
  }

  lemma ShorterOrder(c: Cache)
    requires c.order != [] && c.order[0] in c.store
    ensures |Remove(c, c.order[0]).order| < |c.order|
  {
    WithoutShorter(c.order, c.order[0]);
  }

  lemma {:induction false} FollowsEvict(cfg: Config, c: Cache, extra: nat, needSlot: bool, now: real)
    requires Consistent(cfg, c)
    ensures Follows(c, Evict(cfg, c, extra, needSlot, now))
  {
    hide Consistent, Follows, RemoveAll, DropOldest, Over, ExpiredKeys;
    var ks := ExpiredKeys(c.order, c.store, now);
    FollowsSelf(cfg, c);
    FollowsRemoveAll(cfg, c, ks);
    RemoveAllKeeps(cfg, c, ks);
    FollowsDrop(cfg, RemoveAll(c, ks), extra, needSlot);
    FollowsTransitive(c, RemoveAll(c, ks), DropOldest(cfg, RemoveAll(c, ks), extra, needSlot));
  }

  lemma FollowsStored(cfg: Config, d: Cache, k: Key, e: Entry)
    requires Consistent(cfg, d) && k !in d.store && e.gen == d.gen + 1
    ensures Follows(d, Stored(d, k, e))
  {
    hide Ordered, Counted;
  }

  lemma {:induction false} FollowsPut(cfg: Config, c: Cache, k: Key, value: Obj, size: nat, ttl: Ttl, now: real)
    requires Consistent(cfg, c)
    ensures Follows(c, Put(cfg, c, k, value, size, ttl, now).c)
  {
    hide Consistent, Follows, Evict, Remove, Stored;
    FollowsSelf(cfg, c);
    FollowsRemove(cfg, c, k);
    RemoveKeeps(cfg, c, k);
    if ValidTtl(ttl) && !Oversized(cfg, size) {
      var r := Remove(c, k);
      var bytes := Tracked(cfg, size);
      var d := Evict(cfg, r, bytes, true, now);
      EvictKeeps(cfg, r, bytes, true, now);
      FollowsEvict(cfg, r, bytes, true, now);
      FollowsTransitive(c, r, d);
      var e := Entry(value, now + ttl.seconds, now, bytes, d.gen + 1);
      FollowsStored(cfg, d, k, e);
      FollowsTransitive(c, d, Stored(d, k, e));
    }
  }

  lemma FollowsClear(cfg: Config, c: Cache)
    requires Consistent(cfg, c)
    ensures Follows(c, Clear(c))
  {
    hide Ordered, Counted;
  }

  lemma FollowsGet(cfg: Config, c: Cache, k: Key, now: real)
    requires Consistent(cfg, c)
    ensures Follows(c, Get(c, k, now).c)
  {
    hide Ordered, Counted, Without;
  }

  lemma FollowsRefreshed(cfg: Config, d: Cache, k: Key, e: Entry)
    requires Consistent(cfg, d) && k in d.store && e.gen == d.store[k].gen
    ensures Follows(d, Refreshed(d, k, e))
  {
    hide Ordered, Counted, Without;
  }

  /** After its own marker is cleared, completing a refresh follows. */
  lemma {:induction false} FollowsComplete(cfg: Config, c: Cache, k: Key, version: nat,
                                           value: Obj, size: nat, ttl: Ttl, now: real)
    requires Inv(cfg, c) && ValidTtl(ttl)
    ensures Follows(ClearMarker(c, k, version), CompleteRefresh(cfg, c, k, version, value, size, ttl, now).c)
  {
    hide Consistent, Within, Follows, Evict, Refreshed, Remove;
    var d := ClearMarker(c, k, version);
    ClearMarkerKeeps(cfg, c, k, version);
    assert Consistent(cfg, d) by { InvConsistent(cfg, d); }
    FollowsSelf(cfg, d);
    FollowsRemove(cfg, d, k);
    if k in d.store && d.store[k].gen == version && !Oversized(cfg, size) {
      var e := Entry(value, now + ttl.seconds, now, Tracked(cfg, size), version);
      RefreshedKeeps(cfg, d, k, e);
      FollowsRefreshed(cfg, d, k, e);
      FollowsEvict(cfg, Refreshed(d, k, e), 0, false, now);
      FollowsTransitive(d, Refreshed(d, k, e), Evict(cfg, Refreshed(d, k, e), 0, false, now));
    }
  }

  // ---------- the refresh side of a step ----------

  lemma {:induction false} TokensFollows(c: Cache, r: Cache, procs: map<nat, Proc>)
    requires TokensMatch(c, procs) && Follows(c, r) && Marked(c.refreshing, c.store) && Marked(r.refreshing, r.store)
    ensures TokensMatch(r, procs)
  {
    hide LiveToken;
    forall i | i in procs && Open(procs[i]) && LiveToken(r, procs[i].key, procs[i].version)
      ensures procs[i].key in r.refreshing
    {
      var k := procs[i].key;
      assert LiveToken(c, k, procs[i].version);
      LiveMarker(c, k, procs[i].version);
    }
    forall k | k in r.refreshing ensures exists i :: i in procs && Owns(r, procs[i], k) {
      var i :| i in procs && Owns(c, procs[i], k);
      assert Owns(r, procs[i], k);
    }
  }

  lemma LiveMarker(c: Cache, k: Key, version: nat)
    requires Marked(c.refreshing, c.store) && LiveToken(c, k, version) && k in c.refreshing
    ensures c.refreshing[k] == version
  {
  }

  lemma CloseLiveMarked(c: Cache, procs: map<nat, Proc>, pid: nat, x: Proc)
    requires OneEach(procs) && LiveMarked(c, procs) && Marked(c.refreshing, c.store)
    requires pid in procs && Open(procs[pid]) && !Open(x)
    ensures LiveMarked(ClearMarker(c, procs[pid].key, procs[pid].version), procs[pid := x])
  {
    var was := procs[pid];
    var d := ClearMarker(c, was.key, was.version);
    var ps := procs[pid := x];
    forall i | i in ps && Open(ps[i]) && LiveToken(d, ps[i].key, ps[i].version) ensures ps[i].key in d.refreshing {
      assert i != pid && LiveToken(c, ps[i].key, ps[i].version);
      assert !SameToken(procs[i], was);
      LiveMarker(c, ps[i].key, ps[i].version);
    }
  }

  lemma CloseOwned(c: Cache, procs: map<nat, Proc>, pid: nat, x: Proc)
    requires MarkersOwned(c, procs) && pid in procs && Open(procs[pid]) && !Open(x)
    ensures MarkersOwned(ClearMarker(c, procs[pid].key, procs[pid].version), procs[pid := x])
  {
    var d := ClearMarker(c, procs[pid].key, procs[pid].version);
    var ps := procs[pid := x];
    forall j | j in d.refreshing ensures exists i :: i in ps && Owns(d, ps[i], j) {
      var i :| i in procs && Owns(c, procs[i], j);
      assert i != pid;
      assert Owns(d, ps[i], j);
    }
  }

  lemma CloseTokens(gen: nat, procs: map<nat, Proc>, pid: nat, x: Proc)
    requires Issued(gen, procs) && OneEach(procs) && !Open(x)
    ensures Issued(gen, procs[pid := x]) && OneEach(procs[pid := x])
  {
    var ps := procs[pid := x];
    forall i, j | i in ps && j in ps && SameToken(ps[i], ps[j]) ensures i == j {
      assert i != pid && j != pid && SameToken(procs[i], procs[j]);
    }
  }

  /** Closing a refresh clears at most its own marker. */
  lemma TokensClose(c: Cache, procs: map<nat, Proc>, pid: nat, x: Proc)
    requires TokensMatch(c, procs) && Marked(c.refreshing, c.store) && pid in procs && Open(procs[pid]) && !Open(x)
    ensures TokensMatch(ClearMarker(c, procs[pid].key, procs[pid].version), procs[pid := x])
  {
    hide Issued, OneEach, LiveMarked, MarkersOwned, Open, Marked;
    CloseTokens(c.gen, procs, pid, x);
    CloseLiveMarked(c, procs, pid, x);
    CloseOwned(c, procs, pid, x);
  }

  /** A read that is told to refresh opens the one refresh of that entry. */
  lemma {:induction false} TokensOpen(c: Cache, procs: map<nat, Proc>, pid: nat, k: Key)
    requires TokensMatch(c, procs) && Marked(c.refreshing, c.store) && pid !in procs
    requires k in c.store && k !in c.refreshing && c.store[k].gen <= c.gen
    ensures TokensMatch(c.(refreshing := c.refreshing[k := c.store[k].gen]),
                    procs[pid := Proc(k, c.store[k].gen, Flagged, 0)])
  {
    var d := c.(refreshing := c.refreshing[k := c.store[k].gen]);
    var x := Proc(k, c.store[k].gen, Flagged, 0);
    var ps := procs[pid := x];
    forall i | i in procs ensures !SameToken(procs[i], x) {
      if SameToken(procs[i], x) { assert LiveToken(c, k, procs[i].version); }
    }
    forall j | j in d.refreshing ensures exists i :: i in ps && Owns(d, ps[i], j) {
      if j == k {
        assert Owns(d, ps[pid], j);
      } else {
        var i :| i in procs && Owns(c, procs[i], j);
        assert Owns(d, ps[i], j);
      }
    }
  }

  /** Moving an open refresh on, or a closed one, changes no token. */
  lemma {:induction false} TokensMove(c: Cache, procs: map<nat, Proc>, pid: nat, x: Proc)
    requires TokensMatch(c, procs) && pid in procs
    requires x.key == procs[pid].key && x.version == procs[pid].version && Open(x) == Open(procs[pid])
    ensures TokensMatch(c, procs[pid := x])
  {
    var ps := procs[pid := x];
    forall i, j | i in ps && j in ps && SameToken(ps[i], ps[j]) ensures i == j {
      assert SameToken(procs[i], procs[j]);
    }
    forall k | k in c.refreshing ensures exists i :: i in ps && Owns(c, ps[i], k) {
      var i :| i in procs && Owns(c, procs[i], k);
      assert Owns(c, ps[i], k);
    }
  }

  lemma AddOne(others: set<nat>, pid: nat)
    requires pid !in others
    ensures |others + {pid}| == |others| + 1
  {
  }

  lemma {:induction false} HoldersUpdate(procs: map<nat, Proc>, pid: nat, x: Proc)
    ensures var before := pid in procs && HoldsSlot(procs[pid]);
            |Holders(procs[pid := x])| == |Holders(procs)| + (if HoldsSlot(x) then 1 else 0) - (if before then 1 else 0)
  {
    hide HoldsSlot;
    var others := Holders(procs) - {pid};
    AddOne(others, pid);
    if HoldsSlot(x) {
      assert Holders(procs[pid := x]) == others + {pid};
    } else {
      assert Holders(procs[pid := x]) == others;
    }
    if pid in procs && HoldsSlot(procs[pid]) {
      assert Holders(procs) == others + {pid};
    } else {
      assert Holders(procs) == others;
    }
  }

  // ---------- every step is safe ----------

  lemma MarkedOf(cfg: Config, c: Cache)
    requires Inv(cfg, c)
    ensures Consistent(cfg, c) && Marked(c.refreshing, c.store)
    ensures forall k :: k in c.store ==> c.store[k].gen <= c.gen
  {
  }

  lemma {:induction false} CacheStepSafe(p: Params, s: Sys, r: Cache)
    requires Safe(p, s) && Inv(p.cfg, r) && Follows(s.c, r) && (!ValidTtl(p.ttl) ==> r.store == map[])
    ensures Safe(p, s.(c := r))
  {
    hide Inv, Follows, TokensMatch;
    MarkedOf(p.cfg, s.c);
    MarkedOf(p.cfg, r);
    TokensFollows(s.c, r, s.procs);
  }

  lemma {:induction false} WriterSafe(p: Params, s: Sys, a: Act)
    requires ValidConfig(p.cfg) && Safe(p, s) && (a.MissPut? || a.Invalidate? || a.InvalidateAll?)
    ensures Safe(p, Next(p, s, a))
  {
    hide Inv, Consistent, Marked, Follows, Put, Clear;
    MarkedOf(p.cfg, s.c);
    match a
    case MissPut(k, value, size, now) =>
      PutKeeps(p.cfg, s.c, k, value, size, p.ttl, now);
      FollowsPut(p.cfg, s.c, k, value, size, p.ttl, now);
      InvalidTtlPut(p, s.c, k, value, size, now);
      CacheStepSafe(p, s, Put(p.cfg, s.c, k, value, size, p.ttl, now).c);
    case Invalidate(k) =>
      RemoveInv(p.cfg, s.c, k);
      FollowsRemove(p.cfg, s.c, k);
      CacheStepSafe(p, s, Remove(s.c, k));
    case InvalidateAll =>
      ClearKeeps(p.cfg, s.c);
      FollowsClear(p.cfg, s.c);
      ClearEmpties(s.c);
      CacheStepSafe(p, s, Clear(s.c));
  }

  lemma ClearEmpties(c: Cache)
    ensures Clear(c).store == map[]
  {
  }

  lemma InvalidTtlPut(p: Params, c: Cache, k: Key, value: Obj, size: nat, now: real)
    ensures !ValidTtl(p.ttl) ==> Put(p.cfg, c, k, value, size, p.ttl, now).c == c
  {
    hide Evict;
  }

  lemma {:induction false} ReadSafe(p: Params, s: Sys, a: Act)
    requires ValidConfig(p.cfg) && Safe(p, s) && a.Read? && Enabled(s, a)
    ensures Safe(p, Next(p, s, a))
  {
    hide Inv, Consistent, Marked, Follows, Get, TokensMatch;
    MarkedOf(p.cfg, s.c);
    var g := Get(s.c, a.k, a.now).c;
    var r := GetWithSwr(p.cfg, s.c, a.k, Seconds(p.ttl), a.now, a.jitter);
    GetKeeps(p.cfg, s.c, a.k, a.now);
    GetWithSwrKeeps(p.cfg, s.c, a.k, Seconds(p.ttl), a.now, a.jitter);
    FollowsGet(p.cfg, s.c, a.k, a.now);
    GetEffect(s.c, a.k, a.now);
    CacheStepSafe(p, s, g);
    if r.needsRefresh {
      MarkedOf(p.cfg, g);
      TokensOpen(g, s.procs, a.pid, a.k);
      HoldersUpdate(s.procs, a.pid, Proc(a.k, r.version, Flagged, 0));
    }
  }

  lemma GetEffect(c: Cache, k: Key, now: real)
    ensures c.store == map[] ==> Get(c, k, now).c.store == map[]
    ensures var g := Get(c, k, now);
            g.value.Some? ==> k in c.store && g.c.store == c.store && g.c.refreshing == c.refreshing
  {
    hide Without;
  }

  lemma {:induction false} MoveSafe(p: Params, s: Sys, a: Act)
    requires Safe(p, s) && Enabled(s, a)
    requires a.Acquire? || a.CopyFails? || a.Starts? || a.FunctionRaises? || a.FunctionReturns? || a.Release?
    ensures Safe(p, Next(p, s, a))
  {
    hide Inv, TokensMatch;
    var x := Next(p, s, a).procs[a.pid];
    TokensMove(s.c, s.procs, a.pid, x);
    HoldersUpdate(s.procs, a.pid, x);
  }

  lemma {:induction false} CloseSafe(p: Params, s: Sys, pid: nat, pc: Pc, r: Cache)
    requires Safe(p, s) && pid in s.procs && Open(s.procs[pid]) && (pc.Closing? || pc.Finished?)
    requires pc.Closing? <==> HoldsSlot(s.procs[pid])
    requires Inv(p.cfg, r) && Follows(ClearMarker(s.c, s.procs[pid].key, s.procs[pid].version), r)
    ensures Safe(p, s.(c := r, procs := Closed(s, pid, pc)))
  {
    hide Inv, TokensMatch, Follows, ClearMarker;
    var x := s.procs[pid];
    MarkedOf(p.cfg, s.c);
    MarkedOf(p.cfg, r);
    ClearMarkerKeeps(p.cfg, s.c, x.key, x.version);
    MarkedOf(p.cfg, ClearMarker(s.c, x.key, x.version));
    TokensClose(s.c, s.procs, pid, x.(pc := pc, cycles := x.cycles + 1));
    TokensFollows(ClearMarker(s.c, x.key, x.version), r, Closed(s, pid, pc));
    HoldersUpdate(s.procs, pid, x.(pc := pc, cycles := x.cycles + 1));
  }

  lemma {:induction false} CallSafe(p: Params, s: Sys, a: Act)
    requires Safe(p, s) && Enabled(s, a) && (a.CallCancel? || a.CallComplete?)
    ensures Safe(p, Next(p, s, a))
  {
    hide Inv, TokensMatch, Follows, ClearMarker, CompleteRefresh, Consistent;
    var x := s.procs[a.pid];
    if a.CallCancel? {
      ClearMarkerKeeps(p.cfg, s.c, x.key, x.version);
      var d := ClearMarker(s.c, x.key, x.version);
      MarkedOf(p.cfg, d);
      FollowsSelf(p.cfg, d);
      CloseSafe(p, s, a.pid, if x.pc.Raised? then Closing else Finished, d);
    } else {
      CompleteRefreshKeeps(p.cfg, s.c, x.key, x.version, x.pc.value, x.pc.size, p.ttl, a.now);
      FollowsComplete(p.cfg, s.c, x.key, x.version, x.pc.value, x.pc.size, p.ttl, a.now);
      var r := CompleteRefresh(p.cfg, s.c, x.key, x.version, x.pc.value, x.pc.size, p.ttl, a.now).c;
      CloseSafe(p, s, a.pid, Closing, r);
    }
  }

  lemma {:induction false} StepSafe(p: Params, s: Sys, a: Act)
    requires ValidConfig(p.cfg) && Safe(p, s) && Enabled(s, a)
    ensures Safe(p, Next(p, s, a))
  {
    hide Safe, Next, Enabled;
    if a.Read? {
      ReadSafe(p, s, a);
    } else if a.MissPut? || a.Invalidate? || a.InvalidateAll? {
      WriterSafe(p, s, a);
    } else if a.CallCancel? || a.CallComplete? {
      CallSafe(p, s, a);
    } else {
      MoveSafe(p, s, a);
    }
  }
}
