/** The L1-only stale-while-revalidate protocol: readers, background refreshes, writers and
  deleters over one object cache, one step per locked section or semaphore operation.

  A refresh is a process that starts when a read is told to refresh.  `cycles` counts the
  complete_refresh and cancel_refresh calls it has made. */
module SwrProtocol {
  import opened CacheModel
  import opened CacheRuns

  /** _L1_SWR_MAX_CONCURRENT_REFRESHES. */
  const SLOTS: nat := 32

  datatype Pc =
    | Flagged                             // told to refresh, no slot yet
    | MustCancel                          // holds no slot, will cancel the refresh
    | Copying                             // holds a slot, copies the arguments, starts the thread
    | MustRelease                         // copying or starting failed: release the slot, then cancel
    | Running                             // holds a slot, runs the function
    | Raised                              // the function raised: cancel, then release
    | Returned(value: Obj, size: nat)     // the function returned: complete, then release
    | Closing                             // completed or cancelled, will release the slot
    | Finished

  datatype Proc = Proc(key: Key, version: nat, pc: Pc, cycles: nat)

  datatype Sys = Sys(c: Cache, free: nat, procs: map<nat, Proc>)

  /** One decorated function: its cache configuration and its ttl. */
  datatype Params = Params(cfg: Config, ttl: Ttl)

  datatype Act =
    | Read(pid: nat, k: Key, now: real, jitter: real)
    | MissPut(k: Key, value: Obj, size: nat, now: real)
    | Invalidate(k: Key)
    | InvalidateAll
    | Acquire(pid: nat)
    | CopyFails(pid: nat)
    | Starts(pid: nat)
    | FunctionRaises(pid: nat)
    | FunctionReturns(pid: nat, value: Obj, size: nat)
    | CallCancel(pid: nat)
    | CallComplete(pid: nat, now: real)
    | Release(pid: nat)

  function Seconds(ttl: Ttl): real {
    if ttl.Finite? then ttl.seconds else 0.0
  }

  function To(s: Sys, pid: nat, pc: Pc): map<nat, Proc>
    requires pid in s.procs
  {
    s.procs[pid := s.procs[pid].(pc := pc)]
  }

  /** The process made its complete or cancel call. */
  function Closed(s: Sys, pid: nat, pc: Pc): map<nat, Proc>
    requires pid in s.procs
  {
    s.procs[pid := s.procs[pid].(pc := pc, cycles := s.procs[pid].cycles + 1)]
  }

  predicate At(s: Sys, pid: nat, pc: Pc) {
    pid in s.procs && s.procs[pid].pc == pc
  }

  predicate Enabled(s: Sys, a: Act) {
    match a
    case Read(pid, _, _, _) => pid !in s.procs
    case MissPut(_, _, _, _) => true
    case Invalidate(_) => true
    case InvalidateAll => true
    case Acquire(pid) => At(s, pid, Flagged)
    case CopyFails(pid) => At(s, pid, Copying)
    case Starts(pid) => At(s, pid, Copying)
    case FunctionRaises(pid) => At(s, pid, Running)
    case FunctionReturns(pid, _, _) => At(s, pid, Running)
    case CallCancel(pid) => At(s, pid, MustCancel) || At(s, pid, Raised)
    case CallComplete(pid, _) => pid in s.procs && s.procs[pid].pc.Returned?
    case Release(pid) => At(s, pid, MustRelease) || At(s, pid, Closing)
  }

  function Next(p: Params, s: Sys, a: Act): Sys
    requires Enabled(s, a)
  {
    match a
    case Read(pid, k, now, jitter) =>
      var r := GetWithSwr(p.cfg, s.c, k, Seconds(p.ttl), now, jitter);
      if r.needsRefresh then s.(c := r.c, procs := s.procs[pid := Proc(k, r.version, Flagged, 0)]) else s.(c := r.c)
    case MissPut(k, value, size, now) => s.(c := Put(p.cfg, s.c, k, value, size, p.ttl, now).c)
    case Invalidate(k) => s.(c := Remove(s.c, k))
    case InvalidateAll => s.(c := Clear(s.c))
    case Acquire(pid) =>
      if s.free > 0 then s.(free := s.free - 1, procs := To(s, pid, Copying)) else s.(procs := To(s, pid, MustCancel))
    case CopyFails(pid) => s.(procs := To(s, pid, MustRelease))
    case Starts(pid) => s.(procs := To(s, pid, Running))
    case FunctionRaises(pid) => s.(procs := To(s, pid, Raised))
    case FunctionReturns(pid, value, size) => s.(procs := To(s, pid, Returned(value, size)))
    case CallCancel(pid) =>
      var x := s.procs[pid];
      s.(c := CancelRefresh(s.c, x.key, x.version),
         procs := Closed(s, pid, if x.pc.Raised? then Closing else Finished))
    case CallComplete(pid, now) =>
      var x := s.procs[pid];
      s.(c := CompleteRefresh(p.cfg, s.c, x.key, x.version, x.pc.value, x.pc.size, p.ttl, now).c,
         procs := Closed(s, pid, Closing))
    case Release(pid) =>
      s.(free := s.free + 1, procs := To(s, pid, if At(s, pid, Closing) then Finished else MustCancel))
  }

  const START: Sys := Sys(EMPTY, SLOTS, map[])

  // ---------- the invariant ----------

  /** The refresh has not been completed or cancelled yet. */
  predicate Open(x: Proc) {
    !x.pc.Closing? && !x.pc.Finished?
  }

  predicate HoldsSlot(x: Proc) {
    !x.pc.Flagged? && !x.pc.MustCancel? && !x.pc.Finished?
  }

  function Holders(procs: map<nat, Proc>): set<nat> {
    set pid | pid in procs && HoldsSlot(procs[pid])
  }

  ghost predicate Owns(c: Cache, x: Proc, k: Key) {
    Open(x) && x.key == k && k in c.refreshing && x.version == c.refreshing[k]
  }

  predicate SameToken(x: Proc, y: Proc) {
    Open(x) && Open(y) && x.key == y.key && x.version == y.version
  }

  ghost predicate Issued(gen: nat, procs: map<nat, Proc>) {
    forall i :: i in procs && Open(procs[i]) ==> procs[i].version <= gen
  }

  ghost predicate OneEach(procs: map<nat, Proc>) {
    forall i, j :: i in procs && j in procs && SameToken(procs[i], procs[j]) ==> i == j
  }

  ghost predicate LiveMarked(c: Cache, procs: map<nat, Proc>) {
    forall i :: i in procs && Open(procs[i]) && LiveToken(c, procs[i].key, procs[i].version) ==>
      procs[i].key in c.refreshing
  }

  ghost predicate MarkersOwned(c: Cache, procs: map<nat, Proc>) {
    forall k :: k in c.refreshing ==> exists i :: i in procs && Owns(c, procs[i], k)
  }

  /** Open refreshes have distinct, already issued tokens; the ones whose entry is still live
    are exactly the owners of the markers. */
  ghost predicate TokensMatch(c: Cache, procs: map<nat, Proc>) {
    Issued(c.gen, procs) && OneEach(procs) && LiveMarked(c, procs) && MarkersOwned(c, procs)
  }

  ghost predicate OneCycle(procs: map<nat, Proc>) {
    forall i :: i in procs ==> procs[i].cycles == (if Open(procs[i]) then 0 else 1)
  }

  /** With a ttl that no write accepts nothing is ever cached, so nothing is refreshed. */
  ghost predicate TtlUsable(p: Params, s: Sys) {
    !ValidTtl(p.ttl) ==> s.c.store == map[] && s.procs == map[]
  }

  ghost predicate Safe(p: Params, s: Sys) {
    && Inv(p.cfg, s.c)
    && TtlUsable(p, s)
    && s.free + |Holders(s.procs)| == SLOTS
    && TokensMatch(s.c, s.procs)
    && OneCycle(s.procs)
  }
}
