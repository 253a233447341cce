/** What readers are served while refreshes run: in every interleaving the cache holds for a key
  what the latest landed write of that key was given, and a refresh that gets a slot lands what its
  function returned. */
module SwrServes {
  import opened Wrappers
  import opened CacheModel
  import opened CacheInvariant
  import opened CacheRuns
  import opened CacheRecency
  import opened SwrProtocol
  import opened SwrRuns

  // ---------- the history of a refresh ----------

  /** The key and the generation a read found when it asked for a refresh. */
  datatype Ask = Ask(key: Key, version: nat)

  /** What a function returned, and its size. */
  datatype Given = Given(value: Obj, size: nat)

  /** What the latest read under `pid` looked up. */
  function AskOf(p: Params, acts: seq<Act>, pid: nat): Option<Ask> {
    if acts == [] then None
    else
      var init, a := acts[..|acts| - 1], acts[|acts| - 1];
      var s := RunAll(p, init);
      if a.Read? && a.pid == pid && Enabled(s, a)
      then Some(Ask(a.k, if a.k in s.c.store then s.c.store[a.k].gen else 0))
      else AskOf(p, init, pid)
  }

  /** What the function of the refresh `pid` returned. */
  function ReturnOf(p: Params, acts: seq<Act>, pid: nat): Option<Given> {
    if acts == [] then None
    else
      var init, a := acts[..|acts| - 1], acts[|acts| - 1];
      if a.FunctionReturns? && a.pid == pid && Enabled(RunAll(p, init), a) then Some(Given(a.value, a.size))
      else ReturnOf(p, init, pid)
  }

  /** The cache operation behind an act that follows `acts`: a refresh completes with what its own
    function returned, for the entry its own read found. */
  function EventOf(p: Params, acts: seq<Act>, a: Act): Option<Event> {
    if !Enabled(RunAll(p, acts), a) then None
    else
      match a
      case Read(_, k, now, jitter) => Some(LookSwr(k, Seconds(p.ttl), now, jitter))
      case MissPut(k, value, size, now) => Some(Store(k, value, size, p.ttl, now))
      case Invalidate(k) => Some(Delete(k))
      case InvalidateAll => Some(ClearAll)
      case CallCancel(pid) =>
        var asked := AskOf(p, acts, pid);
        if asked.None? then None else Some(Cancel(asked.value.key, asked.value.version))
      case CallComplete(pid, now) =>
        var asked, given := AskOf(p, acts, pid), ReturnOf(p, acts, pid);
        if asked.None? || given.None? then None
        else Some(Complete(asked.value.key, asked.value.version, given.value.value, given.value.size, p.ttl, now))
      case _ => None
  }

  /** The cache operations of an interleaving, in order. */
  function Trace(p: Params, acts: seq<Act>): seq<Event> {
    if acts == [] then []
    else
      var init := acts[..|acts| - 1];
      var e := EventOf(p, init, acts[|acts| - 1]);
      Trace(p, init) + if e.Some? then [e.value] else []
  }

  /** A refresh remembers what its read found and what its function returned. */
  ghost predicate Remembers(p: Params, acts: seq<Act>, pid: nat) {
    var s := RunAll(p, acts);
    pid in s.procs ==>
      && AskOf(p, acts, pid) == Some(Ask(s.procs[pid].key, s.procs[pid].version))
      && (s.procs[pid].pc.Returned? ==>
            ReturnOf(p, acts, pid) == Some(Given(s.procs[pid].pc.value, s.procs[pid].pc.size)))
  }

  lemma ReadVersion(cfg: Config, c: Cache, k: Key, ttl: real, now: real, jitter: real)
    ensures var r := GetWithSwr(cfg, c, k, ttl, now, jitter);
            r.needsRefresh ==> k in c.store && r.version == c.store[k].gen
  {
    hide Without;
  }

  lemma {:induction false} ProcsRemember(p: Params, acts: seq<Act>, pid: nat)
    ensures Remembers(p, acts, pid)
  {
    hide GetWithSwr, Put, Remove, Clear, CancelRefresh, CompleteRefresh;
    if acts != [] {
      var init, a := acts[..|acts| - 1], acts[|acts| - 1];
      ProcsRemember(p, init, pid);
      if a.Read? { ReadVersion(p.cfg, RunAll(p, init).c, a.k, Seconds(p.ttl), a.now, a.jitter); }
    }
  }

  /** One act is one operation of the cache, or none. */
  lemma {:induction false} CacheStep(p: Params, acts: seq<Act>, a: Act)
    ensures var c := RunAll(p, acts).c; var e := EventOf(p, acts, a);
            RunAll(p, acts + [a]).c == if e.Some? then Step(p.cfg, c, e.value) else c
  {
    hide RunAll, AskOf, ReturnOf, GetWithSwr, Put, Remove, Clear, CancelRefresh, CompleteRefresh;
    RunMore(p, acts, a);
    if a.CallCancel? || a.CallComplete? { ProcsRemember(p, acts, a.pid); }
  }

  /** In every interleaving the cache is what its operations, one after the other, make of the empty
    one, with every refresh completing with what its own function returned. */
  lemma {:induction false} CacheIsTrace(p: Params, acts: seq<Act>)
    ensures RunAll(p, acts).c == Run(p.cfg, Trace(p, acts))
  {
    hide Step, EventOf;
    if acts != [] {
      var init, a := acts[..|acts| - 1], acts[|acts| - 1];
      assert acts == init + [a];
      CacheIsTrace(p, init);
      CacheStep(p, init, a);
      if EventOf(p, init, a).Some? {
        assert Trace(p, acts)[..|Trace(p, acts)| - 1] == Trace(p, init);
      } else {
        assert Trace(p, acts) == Trace(p, init);
      }
    }
  }

  // ---------- what a read returns ----------

  /** Act `i` is a put or a completed refresh of `k` that landed. */
  ghost predicate Landing(p: Params, acts: seq<Act>, k: Key, i: nat)
    requires i < |acts|
  {
    var e := EventOf(p, acts[..i], acts[i]);
    e.Some? && LandsOn(p.cfg, RunAll(p, acts[..i]).c, e.value, k)
  }

  /** Act `i` landed on `k`, no later one did, and `k` stayed in the cache since. */
  ghost predicate LatestWriteOf(p: Params, acts: seq<Act>, k: Key, i: nat) {
    && i < |acts| && Landing(p, acts, k, i)
    && (forall j :: i < j < |acts| ==> !Landing(p, acts, k, j))
    && (forall j :: i < j <= |acts| ==> k in RunAll(p, acts[..j]).c.store)
  }

  /** The value of a put, or what the function of the completing refresh returned. */
  ghost function ValueOf(p: Params, acts: seq<Act>, i: nat): Option<Obj>
    requires i < |acts|
  {
    match acts[i]
    case MissPut(_, value, _, _) => Some(value)
    case CallComplete(pid, _) =>
      var given := ReturnOf(p, acts[..i], pid);
      if given.None? then None else Some(given.value.value)
    case _ => None
  }

  /** Every cached entry holds what its latest landed write was given, and when. */
  lemma {:induction false} CachedIsGiven(p: Params, acts: seq<Act>, k: Key) returns (i: nat)
    requires ValidConfig(p.cfg) && k in RunAll(p, acts).c.store
    ensures LatestWriteOf(p, acts, k, i)
    ensures var e := EventOf(p, acts[..i], acts[i]);
            e.Some? && (e.value.Store? || e.value.Complete?) && WrittenBy(RunAll(p, acts).c.store[k], e.value)
  {
    hide RunAll, EventOf, Step, Inv, LandsOn, WrittenBy, Landing;
    NothingCached(p, k);
    assert acts != [];
    var init, a := acts[..|acts| - 1], acts[|acts| - 1];
    assert acts == init + [a];
    CacheStep(p, init, a);
    RunInvariant(p, init);
    var e := EventOf(p, init, a);
    if e.Some? { StepWritten(p.cfg, RunAll(p, init).c, e.value, k); }
    if e.Some? && LandsOn(p.cfg, RunAll(p, init).c, e.value, k) {
      i := |init|;
      WrittenNow(p, acts, k);
      LandingIsAWrite(p.cfg, RunAll(p, init).c, e.value, k);
    } else {
      i := CachedIsGiven(p, init, k);
      WrittenBefore(p, acts, k, i);
      assert init[..i] == acts[..i] && init[i] == acts[i];
    }
  }

  lemma NothingCached(p: Params, k: Key)
    ensures k !in RunAll(p, []).c.store
  {
  }

  lemma RunInvariant(p: Params, acts: seq<Act>)
    requires ValidConfig(p.cfg)
    ensures Inv(p.cfg, RunAll(p, acts).c)
  {
    hide RunAll, Inv;
    RunSafe(p, acts);
  }

  lemma LandingIsAWrite(cfg: Config, c: Cache, e: Event, k: Key)
    requires LandsOn(cfg, c, e, k)
    ensures e.Store? || e.Complete?
  {
  }

  lemma WrittenNow(p: Params, acts: seq<Act>, k: Key)
    requires acts != [] && k in RunAll(p, acts).c.store
    requires var init := acts[..|acts| - 1];
             var e := EventOf(p, init, acts[|acts| - 1]); e.Some? && LandsOn(p.cfg, RunAll(p, init).c, e.value, k)
    ensures LatestWriteOf(p, acts, k, |acts| - 1)
  {
    hide RunAll, EventOf, LandsOn;
    assert acts[..|acts|] == acts;
  }

  lemma WrittenBefore(p: Params, acts: seq<Act>, k: Key, i: nat)
    requires acts != [] && k in RunAll(p, acts).c.store && LatestWriteOf(p, acts[..|acts| - 1], k, i)
    requires var init := acts[..|acts| - 1];
             var e := EventOf(p, init, acts[|acts| - 1]); e.None? || !LandsOn(p.cfg, RunAll(p, init).c, e.value, k)
    ensures LatestWriteOf(p, acts, k, i)
  {
    hide RunAll, EventOf, LandsOn;
    var init := acts[..|acts| - 1];
    assert acts[..|acts|] == acts;
    forall j | 0 <= j < |init| ensures Landing(p, init, k, j) == Landing(p, acts, k, j) {
      assert init[..j] == acts[..j] && init[j] == acts[j];
    }
    forall j | i < j <= |acts| ensures k in RunAll(p, acts[..j]).c.store {
      if j <= |init| { assert init[..j] == acts[..j]; }
    }
  }

  /** In every interleaving a read returns the value of the latest put of its key, or what the
    function of the latest completed refresh of its key returned, whichever landed last, before the
    deadline that this write set; the key stayed in the cache since. */
  lemma {:induction false} ServedIsLatest(p: Params, acts: seq<Act>, k: Key, now: real, jitter: real) returns (i: nat)
    requires ValidConfig(p.cfg)
    requires GetWithSwr(p.cfg, RunAll(p, acts).c, k, Seconds(p.ttl), now, jitter).value.Some?
    ensures LatestWriteOf(p, acts, k, i) && (acts[i].MissPut? || acts[i].CallComplete?)
    ensures GetWithSwr(p.cfg, RunAll(p, acts).c, k, Seconds(p.ttl), now, jitter).value == ValueOf(p, acts, i)
    ensures p.ttl.Finite? && now < acts[i].now + p.ttl.seconds
  {
    hide RunAll, Without, LatestWriteOf, AskOf, ReturnOf;
    i := CachedIsGiven(p, acts, k);
    IndexOf(p, acts, k, i);
  }

  lemma IndexOf(p: Params, acts: seq<Act>, k: Key, i: nat)
    requires LatestWriteOf(p, acts, k, i)
    ensures i < |acts|
  {
  }

  /** The refresh `pid` returned what it is said to have returned. */
  lemma {:induction false} ReturnedAt(p: Params, acts: seq<Act>, pid: nat) returns (j: nat)
    requires ReturnOf(p, acts, pid).Some?
    ensures j < |acts| && Enabled(RunAll(p, acts[..j]), acts[j])
    ensures acts[j] == FunctionReturns(pid, ReturnOf(p, acts, pid).value.value, ReturnOf(p, acts, pid).value.size)
  {
    hide RunAll, Enabled;
    var n := |acts| - 1;
    var init, a := acts[..n], acts[n];
    if a.FunctionReturns? && a.pid == pid && Enabled(RunAll(p, init), a) {
      j := n;
    } else {
      j := ReturnedAt(p, init, pid);
      assert init[..j] == acts[..j];
    }
  }

  // ---------- refreshes that run, and refreshes that do not ----------

  /** With a slot free a flagged refresh can run to its end and then the cache holds what its
    function returned, provided the entry it was started for is still there. */
  lemma {:induction false} RefreshStores(p: Params, acts: seq<Act>, pid: nat, value: Obj, size: nat, now: real)
    requires ValidConfig(p.cfg) && ValidTtl(p.ttl) && !Oversized(p.cfg, size)
    requires var s := RunAll(p, acts);
             At(s, pid, Flagged) && s.free > 0 && LiveToken(s.c, s.procs[pid].key, s.procs[pid].version)
    ensures var s, x := RunAll(p, acts), RunAll(p, acts).procs[pid];
            var t := RunAll(p, acts + [Acquire(pid), Starts(pid), FunctionReturns(pid, value, size),
                                       CallComplete(pid, now), Release(pid)]);
            && OthersKept(s, t, pid) && t.procs[pid].pc.Finished? && t.free == s.free && x.key in t.c.store
            && t.c.store[x.key] == Entry(value, now + p.ttl.seconds, now, Tracked(p.cfg, size), x.version)
  {
    hide RunAll, CompleteRefresh, Inv;
    var s := RunAll(p, acts);
    var x := s.procs[pid];
    var s1 := Goes(p, acts, Acquire(pid));
    var s2 := Goes(p, acts + [Acquire(pid)], Starts(pid));
    var s3 := Goes(p, acts + [Acquire(pid)] + [Starts(pid)], FunctionReturns(pid, value, size));
    var four := acts + [Acquire(pid)] + [Starts(pid)] + [FunctionReturns(pid, value, size)];
    var s4 := Goes(p, four, CallComplete(pid, now));
    var s5 := Goes(p, four + [CallComplete(pid, now)], Release(pid));
    assert acts + [Acquire(pid), Starts(pid), FunctionReturns(pid, value, size),
                   CallComplete(pid, now), Release(pid)] == four + [CallComplete(pid, now)] + [Release(pid)];
    RunInvariant(p, acts);
    assert s3.c == s.c;
    LandsLive(p, s.c, x.key, x.version, value, size, now);
    CompleteRefreshKeeps(p.cfg, s.c, x.key, x.version, value, size, p.ttl, now);
  }

  lemma Goes(p: Params, acts: seq<Act>, a: Act) returns (t: Sys)
    requires Enabled(RunAll(p, acts), a)
    ensures t == RunAll(p, acts + [a]) == Next(p, RunAll(p, acts), a)
  {
    hide RunAll, Next;
    RunMore(p, acts, a);
    t := RunAll(p, acts + [a]);
  }

  lemma LandsLive(p: Params, c: Cache, k: Key, version: nat, value: Obj, size: nat, now: real)
    requires ValidTtl(p.ttl) && LiveToken(c, k, version) && !Oversized(p.cfg, size)
    ensures CompleteRefresh(p.cfg, c, k, version, value, size, p.ttl, now).outcome.Landed?
  {
    hide CompleteRefresh;
    CompleteLands(p.cfg, c, Complete(k, version, value, size, p.ttl, now));
  }

  predicate GivenUp(pc: Pc) {
    pc.MustCancel? || pc.MustRelease? || pc.Raised?
  }

  /** A refresh is cancelled only because all 32 slots were taken when it asked for one, or because
    copying the arguments, starting the thread or the function itself failed. */
  lemma {:induction false} WhyCancelled(p: Params, acts: seq<Act>, pid: nat) returns (j: nat)
    requires ValidConfig(p.cfg) && pid in RunAll(p, acts).procs && GivenUp(RunAll(p, acts).procs[pid].pc)
    ensures j < |acts| && Enabled(RunAll(p, acts[..j]), acts[j])
    ensures || (acts[j] == Acquire(pid) && |Holders(RunAll(p, acts[..j]).procs)| == 32)
            || acts[j] == CopyFails(pid) || acts[j] == FunctionRaises(pid)
  {
    hide GetWithSwr, Put, Remove, Clear, CancelRefresh, CompleteRefresh, Holders;
    var n := |acts| - 1;
    var init, a := acts[..n], acts[n];
    if pid in RunAll(p, init).procs && GivenUp(RunAll(p, init).procs[pid].pc) {
      j := WhyCancelled(p, init, pid);
      assert init[..j] == acts[..j];
    } else {
      j := n;
      SlotsAccounted(p, init);
    }
  }

  lemma SlotsAccounted(p: Params, acts: seq<Act>)
    requires ValidConfig(p.cfg)
    ensures RunAll(p, acts).free + |Holders(RunAll(p, acts).procs)| == 32
  {
    hide RunAll, Inv;
    RunSafe(p, acts);
  }
}
