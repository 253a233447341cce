/** Single flight, no leaks and progress over every interleaving of the refresh protocol. */
module SwrRuns {
  import opened CacheModel
  import opened CacheRuns
  import opened SwrProtocol
  import opened SwrSteps

  // ---------- runs ----------

  /** The state an interleaving leads to; a step that is not enabled does not happen. */
  function RunAll(p: Params, acts: seq<Act>): Sys {
    if acts == [] then START
    else
      var s := RunAll(p, acts[..|acts| - 1]);
      var a := acts[|acts| - 1];
      if Enabled(s, a) then Next(p, s, a) else s
  }

  lemma {:induction false} StartSafe(p: Params)
    requires ValidConfig(p.cfg)
    ensures Safe(p, START)
  {
    assert Holders(START.procs) == {};
  }

  lemma {:induction false} RunSafe(p: Params, acts: seq<Act>)
    requires ValidConfig(p.cfg)
    ensures Safe(p, RunAll(p, acts))
  {
    hide Safe, Next, Enabled;
    if acts == [] {
      StartSafe(p);
    } else {
      RunSafe(p, acts[..|acts| - 1]);
      var s := RunAll(p, acts[..|acts| - 1]);
      if Enabled(s, acts[|acts| - 1]) { StepSafe(p, s, acts[|acts| - 1]); }
    }
  }

  /** In every interleaving a key's marker is present exactly when one open refresh, and only
    one, holds the live entry's generation. */
  lemma {:induction false} SingleFlight(p: Params, acts: seq<Act>, k: Key)
    requires ValidConfig(p.cfg)
    ensures var s := RunAll(p, acts);
            k in s.c.refreshing <==>
              exists i :: i in s.procs && Open(s.procs[i]) && s.procs[i].key == k &&
                          LiveToken(s.c, k, s.procs[i].version)
    ensures var s := RunAll(p, acts);
            forall i, j :: i in s.procs && j in s.procs && SameToken(s.procs[i], s.procs[j]) ==> i == j
  {
    hide RunAll, Consistent, Within;
    RunSafe(p, acts);
    var s := RunAll(p, acts);
    MarkedOf(p.cfg, s.c);
    if k in s.c.refreshing {
      var i :| i in s.procs && Owns(s.c, s.procs[i], k);
      assert LiveToken(s.c, k, s.procs[i].version);
    }
  }

  /** Free slots plus refreshes holding one is always 32; every refresh that is over made exactly
    one complete or cancel call; and when all are over no marker is left and all slots are
    free. */
  lemma {:induction false} NoLeaks(p: Params, acts: seq<Act>)
    requires ValidConfig(p.cfg)
    ensures var s := RunAll(p, acts);
            && s.free + |Holders(s.procs)| == 32
            && (forall i :: i in s.procs ==> s.procs[i].cycles == if Open(s.procs[i]) then 0 else 1)
            && ((forall i :: i in s.procs ==> s.procs[i].pc.Finished?) ==> s.free == 32 && s.c.refreshing == map[])
  {
    hide RunAll, Inv;
    RunSafe(p, acts);
    var s := RunAll(p, acts);
    if forall i :: i in s.procs ==> s.procs[i].pc.Finished? {
      assert Holders(s.procs) == {};
      assert forall k :: k !in s.c.refreshing;
      assert s.c.refreshing.Keys == {};
    }
  }

  // ---------- every refresh can be driven to its end ----------

  function StepsLeft(pc: Pc): nat {
    match pc
    case Flagged => 6
    case Copying => 5
    case MustRelease => 3
    case Running => 4
    case Raised => 3
    case Returned(_, _) => 3
    case MustCancel => 2
    case Closing => 1
    case Finished => 0
  }

  /** A step the refresh `pid` itself can take now. */
  function OwnStep(s: Sys, pid: nat, value: Obj, size: nat, now: real): Act
    requires pid in s.procs && !s.procs[pid].pc.Finished?
  {
    match s.procs[pid].pc
    case Flagged => Acquire(pid)
    case Copying => Starts(pid)
    case Running => FunctionReturns(pid, value, size)
    case Raised => CallCancel(pid)
    case MustCancel => CallCancel(pid)
    case Returned(_, _) => CallComplete(pid, now)
    case _ => Release(pid)
  }

  predicate OfRefresh(a: Act) {
    !a.Read? && !a.MissPut? && !a.Invalidate? && !a.InvalidateAll?
  }

  predicate ByRefresh(a: Act, pid: nat) {
    OfRefresh(a) && a.pid == pid
  }

  /** A refresh that is not over always has a step to take, and each of its steps, whichever it
    is, brings it closer to the end. */
  lemma Progress(p: Params, s: Sys, pid: nat, value: Obj, size: nat, now: real)
    requires pid in s.procs
    ensures !s.procs[pid].pc.Finished? ==>
              var a := OwnStep(s, pid, value, size, now); Enabled(s, a) && ByRefresh(a, pid)
    ensures forall a :: Enabled(s, a) && ByRefresh(a, pid) ==>
      pid in Next(p, s, a).procs && StepsLeft(Next(p, s, a).procs[pid].pc) < StepsLeft(s.procs[pid].pc)
    ensures forall a :: Enabled(s, a) && !ByRefresh(a, pid) ==>
      pid in Next(p, s, a).procs && Next(p, s, a).procs[pid] == s.procs[pid]
  {
    hide GetWithSwr, Put, Remove, Clear, CancelRefresh, CompleteRefresh;
  }

  lemma RunMore(p: Params, acts: seq<Act>, a: Act)
    ensures RunAll(p, acts + [a]) == (var s := RunAll(p, acts); if Enabled(s, a) then Next(p, s, a) else s)
  {
    hide Next, Enabled;
    assert (acts + [a])[..|acts|] == acts;
  }

  /** Only the refresh itself changes where it stands. */
  ghost predicate OthersKept(s: Sys, t: Sys, pid: nat) {
    t.procs.Keys == s.procs.Keys && forall i :: i in s.procs && i != pid ==> t.procs[i] == s.procs[i]
  }

  lemma OwnStepKeeps(p: Params, s: Sys, a: Act)
    requires Enabled(s, a) && OfRefresh(a)
    ensures OthersKept(s, Next(p, s, a), a.pid)
  {
    hide CancelRefresh, CompleteRefresh;
  }

  /** One refresh can be brought to its end by its own steps, whatever the others do not do. */
  lemma {:induction false} FinishOne(p: Params, acts: seq<Act>, pid: nat) returns (more: seq<Act>)
    requires pid in RunAll(p, acts).procs
    ensures forall i :: 0 <= i < |more| ==> OfRefresh(more[i])
    ensures var s, t := RunAll(p, acts), RunAll(p, acts + more);
            OthersKept(s, t, pid) && t.procs[pid].pc.Finished?
    decreases StepsLeft(RunAll(p, acts).procs[pid].pc)
  {
    hide RunAll, Next, Enabled, OwnStep, StepsLeft;
    var s := RunAll(p, acts);
    if s.procs[pid].pc.Finished? {
      more := [];
      assert acts + more == acts;
    } else {
      var a := OwnStep(s, pid, 0, 0, 0.0);
      Progress(p, s, pid, 0, 0, 0.0);
      OwnStepKeeps(p, s, a);
      RunMore(p, acts, a);
      var later := FinishOne(p, acts + [a], pid);
      more := [a] + later;
      assert acts + more == acts + [a] + later;
    }
  }

  function Unfinished(s: Sys): set<nat> {
    set i | i in s.procs && !s.procs[i].pc.Finished?
  }

  lemma {:induction false} FinishAll(p: Params, acts: seq<Act>) returns (more: seq<Act>)
    ensures forall i :: 0 <= i < |more| ==> OfRefresh(more[i])
    ensures var t := RunAll(p, acts + more);
            t.procs.Keys == RunAll(p, acts).procs.Keys && forall i :: i in t.procs ==> t.procs[i].pc.Finished?
    decreases |Unfinished(RunAll(p, acts))|
  {
    hide RunAll;
    var s := RunAll(p, acts);
    if pid :| pid in Unfinished(s) {
      var first := FinishOne(p, acts, pid);
      assert Unfinished(RunAll(p, acts + first)) == Unfinished(s) - {pid};
      var later := FinishAll(p, acts + first);
      more := first + later;
      assert acts + more == acts + first + later;
    } else {
      more := [];
      assert acts + more == acts;
      assert forall i :: i in s.procs && !s.procs[i].pc.Finished? ==> i in Unfinished(s);
    }
  }

  /** From every reachable state the refreshes' own steps, and no others, bring every flagged
    refresh to its end: then all 32 slots are free and no marker is left. */
  lemma {:induction false} AllEnd(p: Params, acts: seq<Act>) returns (more: seq<Act>)
    requires ValidConfig(p.cfg)
    ensures forall i :: 0 <= i < |more| ==> OfRefresh(more[i])
    ensures var s, t := RunAll(p, acts), RunAll(p, acts + more);
            && t.procs.Keys == s.procs.Keys && (forall i :: i in t.procs ==> t.procs[i].pc.Finished?)
            && t.free == 32 && t.c.refreshing == map[]
  {
    hide RunAll;
    more := FinishAll(p, acts);
    NoLeaks(p, acts + more);
  }
}
