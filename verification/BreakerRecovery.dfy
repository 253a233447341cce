/** When a half-open breaker closes again, if every outcome belongs to a call of its cycle. */
module BreakerRecovery {
  import opened CircuitBreaker

  // ---------- outcomes of admitted calls ----------

  /** Calls admitted in the current cycle whose outcome has not been reported. */
  function Outstanding(cfg: Config, es: seq<Event>): int {
    var c := CycleOf(cfg, es);
    c.admitted - c.succeeded - c.failed - c.excluded
  }

  /** Every outcome reported while half-open belongs to a call admitted in that cycle. */
  predicate Attributed(cfg: Config, es: seq<Event>) {
    es != [] ==>
      Attributed(cfg, es[..|es| - 1]) &&
      (Run(cfg, es[..|es| - 1]).state.HALF_OPEN? && (es[|es| - 1].Success? || es[|es| - 1].Failure?) ==>
        Outstanding(cfg, es[..|es| - 1]) > 0)
  }

  /** Then permits plus successes equal attempts throughout the cycle. */
  lemma {:induction false} PermitsBalance(cfg: Config, es: seq<Event>)
    requires ValidConfig(cfg) && Attributed(cfg, es)
    ensures var b := Run(cfg, es);
            b.state.HALF_OPEN? ==>
              b.permits + b.successes == b.attempts && b.permits == Outstanding(cfg, es) + CycleOf(cfg, es).excluded &&
              Outstanding(cfg, es) >= 0
  {
    if es != [] {
      PermitsBalance(cfg, es[..|es| - 1]);
      RunInv(cfg, es[..|es| - 1]);
      RunInv(cfg, es);
    }
  }

  /** The breaker returned from half-open to closed on its own. */
  predicate Recovers(cfg: Config, es: seq<Event>) {
    && es != [] && Run(cfg, es[..|es| - 1]).state.HALF_OPEN?
    && !es[|es| - 1].ManualReset? && Run(cfg, es).state.CLOSED?
  }

  lemma RecoveryNeedsRequests(cfg: Config, es: seq<Event>)
    requires ValidConfig(cfg) && Attributed(cfg, es) && Recovers(cfg, es)
    ensures cfg.successThreshold <= cfg.halfOpenRequests
  {
    var init := es[..|es| - 1];
    assert es == init + [es[|es| - 1]];
    ClosesBySuccesses(cfg, init, es[|es| - 1]);
    PermitsBalance(cfg, init);
    RunInv(cfg, init);
  }

  // ---------- when a cycle can still close ----------

  /** `more` plays out inside the cycle `es` is in. */
  ghost predicate InCycle(cfg: Config, es: seq<Event>, more: seq<Event>) {
    forall k :: 0 <= k < |more| ==> Run(cfg, es + more[..k]).state.HALF_OPEN? && !more[k].ManualReset?
  }

  ghost predicate ClosesWith(cfg: Config, es: seq<Event>, more: seq<Event>) {
    Attributed(cfg, es + more) && InCycle(cfg, es, more) && Run(cfg, es + more).state.CLOSED?
  }

  /** Calls the cycle may still count as successes: an excluded failure uses up a trial too. */
  function Budget(cfg: Config, es: seq<Event>): int {
    cfg.halfOpenRequests - CycleOf(cfg, es).excluded
  }

  lemma {:induction false} BudgetShrinks(cfg: Config, es: seq<Event>, more: seq<Event>)
    requires InCycle(cfg, es, more)
    ensures Budget(cfg, es + more) <= Budget(cfg, es)
  {
    hide Run, Attributed, CycleOf, Admits;
    if more == [] {
      assert es + more == es;
    } else {
      var n := |more| - 1;
      assert forall k :: 0 <= k < n ==> more[..n][..k] == more[..k];
      BudgetShrinks(cfg, es, more[..n]);
      assert Run(cfg, es + more[..n]).state.HALF_OPEN?;
      CycleGoesOn(cfg, es + more[..n], more[n]);
      assert es + more == es + more[..n] + [more[n]];
    }
  }

  /** What an event inside a cycle adds to it. */
  lemma CycleGoesOn(cfg: Config, es: seq<Event>, e: Event)
    requires Run(cfg, es).state.HALF_OPEN?
    ensures Run(cfg, es + [e]) == Step(cfg, Run(cfg, es), e)
    ensures var c, d, b := CycleOf(cfg, es), CycleOf(cfg, es + [e]), Run(cfg, es);
            && d.admitted == c.admitted + (if Admits(cfg, b, e) then 1 else 0)
            && d.succeeded == c.succeeded + (if e.Success? then 1 else 0)
            && d.failed == c.failed + (if Counted(e) then 1 else 0)
            && d.excluded == c.excluded + (if e.Failure? && e.excluded then 1 else 0)
    ensures Attributed(cfg, es + [e]) <==>
            Attributed(cfg, es) && (e.Success? || e.Failure? ==> Outstanding(cfg, es) > 0)
  {
    assert (es + [e])[..|es|] == es;
  }

  lemma ClosingNeedsBudget(cfg: Config, es: seq<Event>, more: seq<Event>)
    requires ValidConfig(cfg) && Run(cfg, es).state.HALF_OPEN? && ClosesWith(cfg, es, more)
    ensures Budget(cfg, es) >= cfg.successThreshold
  {
    hide Run, Attributed, CycleOf;
    assert more == [] ==> es + more == es;
    var n := |more| - 1;
    var init, e := es + more[..n], more[n];
    assert es + more == init + [e] && Run(cfg, init).state.HALF_OPEN?;
    assert InCycle(cfg, es, more[..n]) by {
      assert forall k :: 0 <= k < n ==> more[..n][..k] == more[..k];
    }
    BudgetShrinks(cfg, es, more[..n]);
    CycleGoesOn(cfg, init, e);
    ClosesBySuccesses(cfg, init, e);
    RunInv(cfg, init);
  }

  lemma ClosesLater(cfg: Config, es: seq<Event>, e: Event, later: seq<Event>)
    requires Run(cfg, es).state.HALF_OPEN? && !e.ManualReset? && ClosesWith(cfg, es + [e], later)
    ensures ClosesWith(cfg, es, [e] + later)
  {
    hide Run, Attributed;
    var more := [e] + later;
    assert es + more == es + [e] + later;
    forall k | 0 <= k < |more| ensures Run(cfg, es + more[..k]).state.HALF_OPEN? && !more[k].ManualReset? {
      if k == 0 {
        assert es + more[..0] == es;
      } else {
        assert es + more[..k] == es + [e] + later[..k - 1];
      }
    }
  }

  lemma {:induction false} CloseFrom(cfg: Config, es: seq<Event>) returns (more: seq<Event>)
    requires ValidConfig(cfg) && Attributed(cfg, es) && Run(cfg, es).state.HALF_OPEN?
    requires Budget(cfg, es) >= cfg.successThreshold
    ensures ClosesWith(cfg, es, more)
    decreases cfg.successThreshold - CycleOf(cfg, es).succeeded, if Outstanding(cfg, es) > 0 then 0 else 1
  {
    hide Run, Attributed, CycleOf, ClosesWith, InCycle;
    RunInv(cfg, es);
    PermitsBalance(cfg, es);
    var e := if Outstanding(cfg, es) > 0 then Success else Ask(0.0);
    CycleGoesOn(cfg, es, e);
    if Run(cfg, es + [e]).state.CLOSED? {
      more := [e];
      ClosesNow(cfg, es, e);
    } else {
      var later := CloseFrom(cfg, es + [e]);
      ClosesLater(cfg, es, e, later);
      more := [e] + later;
    }
  }

  lemma ClosesNow(cfg: Config, es: seq<Event>, e: Event)
    requires Run(cfg, es).state.HALF_OPEN? && !e.ManualReset?
    requires Attributed(cfg, es + [e]) && Run(cfg, es + [e]).state.CLOSED?
    ensures ClosesWith(cfg, es, [e])
  {
    hide Run, Attributed;
    assert es + [e][..0] == es;
  }

  /** A half-open cycle can still close, without a reset, exactly when its request budget less the
    trials lost to excluded failures covers the success threshold. */
  lemma CycleClosesIff(cfg: Config, es: seq<Event>)
    requires ValidConfig(cfg) && Attributed(cfg, es) && Run(cfg, es).state.HALF_OPEN?
    ensures (exists more :: ClosesWith(cfg, es, more)) <==>
            cfg.halfOpenRequests - CycleOf(cfg, es).excluded >= cfg.successThreshold
  {
    hide Run, Attributed, CycleOf, ClosesWith;
    if Budget(cfg, es) >= cfg.successThreshold {
      var more := CloseFrom(cfg, es);
    } else {
      forall more | ClosesWith(cfg, es, more) ensures false {
        ClosingNeedsBudget(cfg, es, more);
      }
    }
  }

  // ---------- a cycle that is used up ----------

  /** All trials are spent and every outcome is in. */
  predicate UsedUp(cfg: Config, es: seq<Event>) {
    var b := Run(cfg, es);
    b.state.HALF_OPEN? && b.attempts == cfg.halfOpenRequests && Outstanding(cfg, es) <= 0
  }

  /** From then on, short of a reset, the breaker never changes again and admits nothing. */
  lemma {:induction false} UsedUpForEver(cfg: Config, es: seq<Event>, more: seq<Event>)
    requires UsedUp(cfg, es) && Attributed(cfg, es + more) && forall k :: 0 <= k < |more| ==> !more[k].ManualReset?
    ensures Run(cfg, es + more) == Run(cfg, es) && UsedUp(cfg, es + more)
    ensures forall k :: 0 <= k < |more| ==> !Admits(cfg, Run(cfg, es + more[..k]), more[k])
  {
    hide Run, Attributed, CycleOf;
    if more == [] {
      assert es + more == es;
    } else {
      var n := |more| - 1;
      var init, e := es + more[..n], more[n];
      assert es + more == init + [e];
      AttributedPrefix(cfg, init, e);
      UsedUpForEver(cfg, es, more[..n]);
      CycleGoesOn(cfg, init, e);
      forall k | 0 <= k < |more| ensures !Admits(cfg, Run(cfg, es + more[..k]), more[k]) {
        if k < n { assert more[..n][..k] == more[..k]; }
      }
    }
  }

  lemma AttributedPrefix(cfg: Config, es: seq<Event>, e: Event)
    requires Attributed(cfg, es + [e])
    ensures Attributed(cfg, es)
  {
    assert (es + [e])[..|es|] == es;
  }

  lemma {:induction false} TrialsAdmitted(cfg: Config, es: seq<Event>)
    requires ValidConfig(cfg) && Run(cfg, es).state.HALF_OPEN?
    ensures 1 <= Run(cfg, es).attempts <= cfg.halfOpenRequests
  {
    if es != [] && Run(cfg, es[..|es| - 1]).state.HALF_OPEN? { TrialsAdmitted(cfg, es[..|es| - 1]); }
  }

  /** With the default configuration a half-open breaker whose one trial has its outcome, even a
    success, rejects every later call until it is reset. */
  lemma DefaultsRejectForEver(es: seq<Event>, more: seq<Event>)
    requires Run(DEFAULTS, es).state.HALF_OPEN? && Outstanding(DEFAULTS, es) <= 0
    requires Attributed(DEFAULTS, es + more) && forall k :: 0 <= k < |more| ==> !more[k].ManualReset?
    ensures Run(DEFAULTS, es + more) == Run(DEFAULTS, es)
    ensures forall k :: 0 <= k < |more| ==> !Admits(DEFAULTS, Run(DEFAULTS, es + more[..k]), more[k])
  {
    hide Run, Attributed, CycleOf;
    TrialsAdmitted(DEFAULTS, es);
    UsedUpForEver(DEFAULTS, es, more);
  }

  // ---------- recovery ----------

  function Failures(n: nat): seq<Event> {
    if n == 0 then [] else Failures(n - 1) + [Failure(0.0, false)]
  }

  lemma {:induction false} FailuresOpen(cfg: Config, n: nat)
    requires ValidConfig(cfg) && n <= cfg.failureThreshold
    ensures var b := Run(cfg, Failures(n));
            b == if n == 0 then INITIAL
                 else Breaker(if n < cfg.failureThreshold then CLOSED else OPEN, n, 0, 0.0, 0, 0)
    ensures Attributed(cfg, Failures(n))
  {
    hide Run, Attributed, CycleOf;
    if n == 0 {
      NothingYet(cfg);
    } else {
      FailuresOpen(cfg, n - 1);
      GoesOn(cfg, Failures(n - 1), Failure(0.0, false));
    }
  }

  lemma NothingYet(cfg: Config)
    ensures Run(cfg, []) == INITIAL && Attributed(cfg, [])
  {
  }

  lemma GoesOn(cfg: Config, es: seq<Event>, e: Event)
    ensures Run(cfg, es + [e]) == Step(cfg, Run(cfg, es), e)
    ensures !Run(cfg, es).state.HALF_OPEN? && Attributed(cfg, es) ==> Attributed(cfg, es + [e])
  {
    hide CycleOf;
    assert (es + [e])[..|es|] == es;
  }

  /** The breaker opens, the timeout passes and the first trial is admitted. */
  function FirstTrial(cfg: Config): seq<Event> {
    Failures(cfg.failureThreshold) + [Ask(cfg.timeout + 1.0)]
  }

  lemma TrialStart(cfg: Config)
    requires ValidConfig(cfg)
    ensures Run(cfg, FirstTrial(cfg)).state.HALF_OPEN? && Attributed(cfg, FirstTrial(cfg))
    ensures CycleOf(cfg, FirstTrial(cfg)).excluded == 0 && Outstanding(cfg, FirstTrial(cfg)) == 1
  {
    var es, ask := Failures(cfg.failureThreshold), Ask(cfg.timeout + 1.0);
    FailuresOpen(cfg, cfg.failureThreshold);
    assert (es + [ask])[..|es|] == es;
  }

  /** One successful trial is enough to get there. */
  lemma DefaultsUseUp()
    ensures var es := FirstTrial(DEFAULTS) + [Success]; UsedUp(DEFAULTS, es) && Attributed(DEFAULTS, es)
  {
    hide Run, Attributed, CycleOf, FirstTrial;
    var first := FirstTrial(DEFAULTS);
    TrialStart(DEFAULTS);
    CycleGoesOn(DEFAULTS, first, Success);
    TrialsAdmitted(DEFAULTS, first);
    RunInv(DEFAULTS, first);
  }

  lemma RecoveryPossible(cfg: Config) returns (es: seq<Event>)
    requires ValidConfig(cfg) && cfg.successThreshold <= cfg.halfOpenRequests
    ensures Attributed(cfg, es) && Recovers(cfg, es)
  {
    hide Run, Attributed, CycleOf, FirstTrial;
    var first := FirstTrial(cfg);
    TrialStart(cfg);
    var more := CloseFrom(cfg, first);
    es := first + more;
    assert more == [] ==> es == first;
    var n := |more| - 1;
    assert es[..|es| - 1] == first + more[..n] && es[|es| - 1] == more[n];
  }

  /** The breaker can recover on its own exactly when its half-open budget admits as many calls as
    it wants successes. */
  lemma RecoversIff(cfg: Config)
    requires ValidConfig(cfg)
    ensures (exists es :: Attributed(cfg, es) && Recovers(cfg, es)) <==> cfg.successThreshold <= cfg.halfOpenRequests
  {
    hide Attributed, Recovers;
    if cfg.successThreshold <= cfg.halfOpenRequests {
      var es := RecoveryPossible(cfg);
    } else {
      forall es | Attributed(cfg, es) && Recovers(cfg, es) ensures false {
        RecoveryNeedsRequests(cfg, es);
      }
    }
  }

  /** With the default configuration it never does. */
  lemma DefaultsNeverRecover(es: seq<Event>)
    requires Attributed(DEFAULTS, es)
    ensures !Recovers(DEFAULTS, es)
  {
    if Recovers(DEFAULTS, es) { RecoveryNeedsRequests(DEFAULTS, es); }
  }
}
