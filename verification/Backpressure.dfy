/** Backpressure admission over any number of threads.

  A step is one section under the controller's lock, one semaphore operation, or the end of a
  protected body.  A thread that is not in the map is not inside `acquire`. */
module Backpressure {

  datatype Limits = Limits(maxConcurrent: nat, queueSize: nat)

  /** The controller's own fields and the semaphore's value. */
  datatype Shared = Shared(depth: int, rejected: nat, permits: nat)

  // ---------- the sections of acquire ----------

  predicate Full(l: Limits, x: Shared) {
    x.depth >= l.queueSize
  }

  function Join(l: Limits, x: Shared): Shared {
    if Full(l, x) then x.(rejected := x.rejected + 1) else x.(depth := x.depth + 1)
  }

  function CountRejection(x: Shared): Shared {
    x.(rejected := x.rejected + 1)
  }

  function Leave(x: Shared): Shared {
    x.(depth := x.depth - 1)
  }

  function Take(x: Shared): Shared
    requires x.permits > 0
  {
    x.(permits := x.permits - 1)
  }

  function Give(x: Shared): Shared {
    x.(permits := x.permits + 1)
  }

  function ClearRejections(x: Shared): Shared {
    x.(rejected := 0)
  }

  /** The controller: each method is one of those sections. */
  class BackpressureController {
    const limits: Limits
    var semaphore: nat
    var queueDepth: int
    var rejectedCount: nat

    function State(): Shared
      reads this
    {
      Shared(queueDepth, rejectedCount, semaphore)
    }

    constructor (limits: Limits)
      ensures this.limits == limits && State() == Shared(0, 0, limits.maxConcurrent)
    {
      this.limits := limits;
      semaphore, queueDepth, rejectedCount := limits.maxConcurrent, 0, 0;
    }

    /** Phase 1: join the queue, or count a rejection and fail. */
    method JoinQueue() returns (admitted: bool)
      modifies this
      ensures State() == Join(limits, old(State())) && admitted == !Full(limits, old(State()))
    {
      if queueDepth >= limits.queueSize {
        rejectedCount := rejectedCount + 1;
        return false;
      }
      queueDepth := queueDepth + 1;
      admitted := true;
    }

    /** Phase 2: the semaphore, which may time out. */
    method TryPermit(timedOut: bool) returns (acquired: bool)
      modifies this
      ensures acquired == (!timedOut && old(semaphore) > 0)
      ensures State() == if acquired then Take(old(State())) else old(State())
    {
      acquired := !timedOut && semaphore > 0;
      if acquired { semaphore := semaphore - 1; }
    }

    method CountTimeout()
      modifies this
      ensures State() == CountRejection(old(State()))
    {
      rejectedCount := rejectedCount + 1;
    }

    method LeaveQueue()
      modifies this
      ensures State() == Leave(old(State()))
    {
      queueDepth := queueDepth - 1;
    }

    method ReleasePermit()
      modifies this
      ensures State() == Give(old(State()))
    {
      semaphore := semaphore + 1;
    }

    method ResetStats()
      modifies this
      ensures State() == ClearRejections(old(State()))
    {
      rejectedCount := 0;
    }
  }

  // ---------- threads ----------

  datatype Pc =
    | Queued      // admitted, waits for a permit
    | TimedOut    // got no permit, will count the rejection
    | Failing     // counted, will leave the queue while raising
    | Permitted   // has a permit, will leave the queue
    | InBody      // runs the protected operation
    | Leaving     // the body returned or raised, will release the permit

  datatype Sys = Sys(x: Shared, threads: map<nat, Pc>)

  datatype Act =
    | Enter(t: nat)
    | GetPermit(t: nat)
    | Timeout(t: nat)
    | Count(t: nat)
    | Fail(t: nat)
    | Proceed(t: nat)
    | BodyEnds(t: nat)
    | Release(t: nat)
    | ResetStats

  predicate At(s: Sys, t: nat, pc: Pc) {
    t in s.threads && s.threads[t] == pc
  }

  predicate Enabled(s: Sys, a: Act) {
    match a
    case Enter(t) => t !in s.threads
    case GetPermit(t) => At(s, t, Queued) && s.x.permits > 0
    case Timeout(t) => At(s, t, Queued)
    case Count(t) => At(s, t, TimedOut)
    case Fail(t) => At(s, t, Failing)
    case Proceed(t) => At(s, t, Permitted)
    case BodyEnds(t) => At(s, t, InBody)
    case Release(t) => At(s, t, Leaving)
    case ResetStats => true
  }

  function Next(l: Limits, s: Sys, a: Act): Sys
    requires Enabled(s, a)
  {
    match a
    case Enter(t) => Sys(Join(l, s.x), if Full(l, s.x) then s.threads else s.threads[t := Queued])
    case GetPermit(t) => Sys(Take(s.x), s.threads[t := Permitted])
    case Timeout(t) => Sys(s.x, s.threads[t := TimedOut])
    case Count(t) => Sys(CountRejection(s.x), s.threads[t := Failing])
    case Fail(t) => Sys(Leave(s.x), s.threads - {t})
    case Proceed(t) => Sys(Leave(s.x), s.threads[t := InBody])
    case BodyEnds(t) => Sys(s.x, s.threads[t := Leaving])
    case Release(t) => Sys(Give(s.x), s.threads - {t})
    case ResetStats => s.(x := ClearRejections(s.x))
  }

  /** The state an interleaving leads to; a step that is not enabled does not happen. */
  function Run(l: Limits, acts: seq<Act>): Sys {
    if acts == [] then Sys(Shared(0, 0, l.maxConcurrent), map[])
    else
      var s := Run(l, acts[..|acts| - 1]);
      var a := acts[|acts| - 1];
      if Enabled(s, a) then Next(l, s, a) else s
  }

  // ---------- the accounting ----------

  /** Admitted and not yet out of the queue. */
  predicate Waiting(pc: Pc) {
    pc.Queued? || pc.TimedOut? || pc.Failing? || pc.Permitted?
  }

  predicate Holding(pc: Pc) {
    pc.Permitted? || pc.InBody? || pc.Leaving?
  }

  function WaitingThreads(threads: map<nat, Pc>): set<nat> {
    set t | t in threads && Waiting(threads[t])
  }

  function HoldingThreads(threads: map<nat, Pc>): set<nat> {
    set t | t in threads && Holding(threads[t])
  }

  /** A request is turned away: the queue is full, or it got no permit in time. */
  predicate Rejects(l: Limits, s: Sys, a: Act) {
    Enabled(s, a) && ((a.Enter? && Full(l, s.x)) || a.Count?)
  }

  /** Rejections since the last reset_stats. */
  function Rejections(l: Limits, acts: seq<Act>): nat {
    if acts == [] then 0
    else if acts[|acts| - 1].ResetStats? then 0
    else
      var init := acts[..|acts| - 1];
      Rejections(l, init) + if Rejects(l, Run(l, init), acts[|acts| - 1]) then 1 else 0
  }

  ghost predicate Balanced(l: Limits, s: Sys) {
    && s.x.permits + |HoldingThreads(s.threads)| == l.maxConcurrent
    && s.x.depth == |WaitingThreads(s.threads)|
    && s.x.depth <= l.queueSize
  }

  lemma SetSizes(others: set<nat>, t: nat)
    requires t !in others
    ensures |others + {t}| == |others| + 1
  {
  }

  lemma {:induction false} MoveCounts(threads: map<nat, Pc>, t: nat, pc: Pc)
    ensures |WaitingThreads(threads[t := pc])| == |WaitingThreads(threads - {t})| + (if Waiting(pc) then 1 else 0)
    ensures |HoldingThreads(threads[t := pc])| == |HoldingThreads(threads - {t})| + (if Holding(pc) then 1 else 0)
  {
    hide Waiting, Holding;
    var w, h := WaitingThreads(threads - {t}), HoldingThreads(threads - {t});
    SetSizes(w, t);
    SetSizes(h, t);
    assert WaitingThreads(threads[t := pc]) == if Waiting(pc) then w + {t} else w;
    assert HoldingThreads(threads[t := pc]) == if Holding(pc) then h + {t} else h;
  }

  lemma SameThreads(threads: map<nat, Pc>, t: nat)
    requires t in threads
    ensures threads == threads[t := threads[t]]
  {
  }

  lemma {:induction false} StepBalanced(l: Limits, s: Sys, a: Act)
    requires Balanced(l, s) && Enabled(s, a)
    ensures Balanced(l, Next(l, s, a))
  {
    hide WaitingThreads, HoldingThreads;
    if !a.ResetStats? {
      if a.t in s.threads {
        SameThreads(s.threads, a.t);
        MoveCounts(s.threads, a.t, s.threads[a.t]);
      } else {
        assert s.threads - {a.t} == s.threads;
      }
      if a.t in Next(l, s, a).threads {
        MoveCounts(s.threads, a.t, Next(l, s, a).threads[a.t]);
      }
    }
  }

  /** Over any number of threads and every interleaving: permits are conserved, the queue depth
    is the number of admitted requests still in the queue and never passes `queueSize`, and the
    rejection counter is exact since the last reset. */
  lemma {:induction false} AdmissionAccounts(l: Limits, acts: seq<Act>)
    ensures Balanced(l, Run(l, acts))
    ensures Run(l, acts).x.rejected == Rejections(l, acts)
  {
    if acts == [] {
      assert HoldingThreads(map[]) == {} && WaitingThreads(map[]) == {};
    } else {
      hide Balanced;
      var init := acts[..|acts| - 1];
      AdmissionAccounts(l, init);
      if Enabled(Run(l, init), acts[|acts| - 1]) { StepBalanced(l, Run(l, init), acts[|acts| - 1]); }
    }
  }

  /** With no request in progress nothing is left behind, however the bodies ended. */
  lemma QuietIsClean(l: Limits, acts: seq<Act>)
    requires Run(l, acts).threads == map[]
    ensures Run(l, acts).x.depth == 0 && Run(l, acts).x.permits == l.maxConcurrent
  {
    hide Run;
    AdmissionAccounts(l, acts);
    assert HoldingThreads(map[]) == {} && WaitingThreads(map[]) == {};
  }

  function Bodies(threads: map<nat, Pc>): set<nat> {
    set t | t in threads && threads[t].InBody?
  }

  /** At most `maxConcurrent` bodies run at a time. */
  lemma BodiesBounded(l: Limits, acts: seq<Act>)
    ensures |Bodies(Run(l, acts).threads)| <= l.maxConcurrent
  {
    hide Run;
    AdmissionAccounts(l, acts);
    var threads := Run(l, acts).threads;
    var bodies := Bodies(threads);
    assert HoldingThreads(threads) == bodies + (HoldingThreads(threads) - bodies);
  }

  function StepsLeft(pc: Pc): nat {
    match pc
    case Queued => 4
    case TimedOut => 3
    case Failing => 1
    case Permitted => 3
    case InBody => 2
    case Leaving => 1
  }

  /** Every request inside `acquire` has a next step and is closer to its end after it. */
  lemma RequestsFinish(l: Limits, s: Sys, t: nat)
    requires t in s.threads
    ensures exists a :: Enabled(s, a) && !a.ResetStats? && a.t == t
    ensures forall a :: Enabled(s, a) && !a.ResetStats? && a.t == t && t in Next(l, s, a).threads ==>
      StepsLeft(Next(l, s, a).threads[t]) < StepsLeft(s.threads[t])
  {
    assert Enabled(s, OwnStep(s, t));
  }

  // ---------- every request can be driven to its end ----------

  predicate OfRequest(a: Act) {
    !a.Enter? && !a.ResetStats?
  }

  /** A step the request of thread `t` can take now, whatever the permits. */
  function OwnStep(s: Sys, t: nat): (a: Act)
    requires t in s.threads
    ensures Enabled(s, a) && OfRequest(a) && a.t == t
  {
    match s.threads[t]
    case Queued => Timeout(t)
    case TimedOut => Count(t)
    case Failing => Fail(t)
    case Permitted => Proceed(t)
    case InBody => BodyEnds(t)
    case Leaving => Release(t)
  }

  lemma RunMore(l: Limits, acts: seq<Act>, a: Act)
    ensures Run(l, acts + [a]) == (var s := Run(l, acts); if Enabled(s, a) then Next(l, s, a) else s)
  {
    hide Next, Enabled;
    assert (acts + [a])[..|acts|] == acts;
  }

  /** Thread `t` leaves `acquire` by its own steps; the other threads stay where they are. */
  lemma {:induction false} FinishOne(l: Limits, acts: seq<Act>, t: nat) returns (more: seq<Act>)
    requires t in Run(l, acts).threads
    ensures forall i :: 0 <= i < |more| ==> OfRequest(more[i])
    ensures Run(l, acts + more).threads == Run(l, acts).threads - {t}
    decreases StepsLeft(Run(l, acts).threads[t])
  {
    hide Run, OwnStep;
    var s := Run(l, acts);
    var a := OwnStep(s, t);
    var next := Next(l, s, a);
    RunMore(l, acts, a);
    if t in next.threads {
      var later := FinishOne(l, acts + [a], t);
      more := [a] + later;
      assert acts + more == acts + [a] + later;
      assert next.threads - {t} == s.threads - {t};
    } else {
      more := [a];
      assert next.threads == s.threads - {t};
    }
  }

  lemma {:induction false} FinishAll(l: Limits, acts: seq<Act>) returns (more: seq<Act>)
    ensures forall i :: 0 <= i < |more| ==> OfRequest(more[i])
    ensures Run(l, acts + more).threads == map[]
    decreases |Run(l, acts).threads|
  {
    hide Run;
    var threads := Run(l, acts).threads;
    if t :| t in threads {
      var first := FinishOne(l, acts, t);
      assert threads == (threads - {t})[t := threads[t]];
      var later := FinishAll(l, acts + first);
      more := first + later;
      assert acts + more == acts + first + later;
    } else {
      more := [];
      assert acts + more == acts;
      assert threads.Keys == {};
    }
  }

  /** From every reachable state the requests' own steps, and no others, bring all of them out of
    `acquire`: then the depth is 0 and all permits are back. */
  lemma {:induction false} AllLeave(l: Limits, acts: seq<Act>) returns (more: seq<Act>)
    ensures forall i :: 0 <= i < |more| ==> OfRequest(more[i])
    ensures var s := Run(l, acts + more); s.threads == map[] && s.x.depth == 0 && s.x.permits == l.maxConcurrent
  {
    hide Run;
    more := FinishAll(l, acts);
    QuietIsClean(l, acts + more);
  }

  // ---------- who gets in ----------

  /** A request is admitted to the queue exactly when fewer than `queueSize` requests are in it;
    otherwise it is turned away and counted, and nothing else changes. */
  lemma EntersIff(l: Limits, acts: seq<Act>, t: nat)
    requires t !in Run(l, acts).threads
    ensures var s, r := Run(l, acts), Run(l, acts + [Enter(t)]);
            if |WaitingThreads(s.threads)| < l.queueSize
            then r == Sys(s.x.(depth := s.x.depth + 1), s.threads[t := Queued])
            else r == s.(x := s.x.(rejected := s.x.rejected + 1))
  {
    hide Run, WaitingThreads, HoldingThreads;
    AdmissionAccounts(l, acts);
    RunMore(l, acts, Enter(t));
  }

  /** A queued request can take a permit exactly when fewer than `maxConcurrent` requests hold one, and
    then runs its body: it is out of the queue and keeps the permit. */
  lemma GetsIn(l: Limits, acts: seq<Act>, t: nat)
    requires At(Run(l, acts), t, Queued)
    ensures var s, r := Run(l, acts), Run(l, acts + [GetPermit(t), Proceed(t)]);
            if |HoldingThreads(s.threads)| < l.maxConcurrent
            then r.threads == s.threads[t := InBody] && r.x.permits + 1 == s.x.permits &&
                 r.x.depth == s.x.depth - 1 && r.x.rejected == s.x.rejected
            else r == s
  {
    hide Run, WaitingThreads, HoldingThreads;
    AdmissionAccounts(l, acts);
    RunMore(l, acts, GetPermit(t));
    RunMore(l, acts + [GetPermit(t)], Proceed(t));
    assert acts + [GetPermit(t), Proceed(t)] == acts + [GetPermit(t)] + [Proceed(t)];
    var s := Run(l, acts);
    assert s.threads[t := Permitted][t := InBody] == s.threads[t := InBody];
  }

  /** An admitted request gives up only after its own wait for a permit timed out. */
  lemma {:induction false} GivesUpAfterTimeout(l: Limits, acts: seq<Act>, t: nat) returns (j: nat)
    requires t in Run(l, acts).threads
    requires var pc := Run(l, acts).threads[t]; pc.TimedOut? || pc.Failing?
    ensures j < |acts| && acts[j] == Timeout(t) && At(Run(l, acts[..j]), t, Queued)
  {
    var n := |acts| - 1;
    var init := acts[..n];
    if t in Run(l, init).threads && (At(Run(l, init), t, TimedOut) || At(Run(l, init), t, Failing)) {
      j := GivesUpAfterTimeout(l, init, t);
      assert init[..j] == acts[..j];
    } else {
      j := n;
    }
  }
}
