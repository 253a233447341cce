/** The documented opening rule, consecutive failures, against the one the breaker follows. */
module BreakerFailures {
  import opened CircuitBreaker

  /** The last event opened the breaker. */
  predicate Opens(cfg: Config, es: seq<Event>) {
    es != [] && Run(cfg, es[..|es| - 1]).state.CLOSED? && Run(cfg, es).state.OPEN?
  }

  /** Counted failures since the latest success or reset; the breaker closes on nothing else. */
  function Consecutive(es: seq<Event>): nat {
    if es == [] || es[|es| - 1].Success? || es[|es| - 1].ManualReset? then 0
    else Consecutive(es[..|es| - 1]) + if Counted(es[|es| - 1]) then 1 else 0
  }

  /** Since the breaker last closed, a success came after a counted failure. */
  predicate Interrupted(cfg: Config, es: seq<Event>) {
    if es == [] then false
    else
      var init := es[..|es| - 1];
      var b, e := Run(cfg, init), es[|es| - 1];
      if e.ManualReset? || (b.state.HALF_OPEN? && Step(cfg, b, e).state.CLOSED?) then false
      else Interrupted(cfg, init) || (e.Success? && FailuresSinceClosed(cfg, init) > 0)
  }

  lemma {:induction false} ConsecutiveCount(cfg: Config, es: seq<Event>)
    ensures Consecutive(es) <= FailuresSinceClosed(cfg, es)
    ensures Consecutive(es) == FailuresSinceClosed(cfg, es) <==> !Interrupted(cfg, es)
  {
    if es != [] {
      hide Run;
      var init, e := es[..|es| - 1], es[|es| - 1];
      ConsecutiveCount(cfg, init);
      ClosesOnSuccess(cfg, Run(cfg, init), e);
    }
  }

  lemma ClosesOnSuccess(cfg: Config, b: Breaker, e: Event)
    ensures b.state.HALF_OPEN? && Step(cfg, b, e).state.CLOSED? ==> e.Success? || e.ManualReset?
  {
  }

  /** An opening is by `failure_threshold` consecutive failures exactly when no success came
    between the failures it counted. */
  lemma OpensConsecutivelyIff(cfg: Config, es: seq<Event>)
    requires ValidConfig(cfg) && Opens(cfg, es)
    ensures Consecutive(es) >= cfg.failureThreshold <==> !Interrupted(cfg, es)
  {
    hide Run, Consecutive, Interrupted, FailuresSinceClosed;
    var init, e := es[..|es| - 1], es[|es| - 1];
    assert es == init + [e];
    OpensByFailures(cfg, init, e);
    ConsecutiveCount(cfg, es);
  }

  /** One failure, one success, then n failures. */
  function Split(n: nat): seq<Event> {
    if n == 0 then [Failure(0.0, false), Success] else Split(n - 1) + [Failure(0.0, false)]
  }

  lemma {:induction false} SplitState(cfg: Config, n: nat)
    requires ValidConfig(cfg) && n < cfg.failureThreshold && cfg.failureThreshold > 1
    ensures var b := Run(cfg, Split(n));
            b.failures == n + 1 && b.state == if n + 1 < cfg.failureThreshold then CLOSED else OPEN
    ensures Consecutive(Split(n)) == n
  {
    if n == 0 {
      assert Split(0)[..1] == [Failure(0.0, false)] && [Failure(0.0, false)][..0] == [];
      assert Run(cfg, [Failure(0.0, false)]) == Step(cfg, INITIAL, Failure(0.0, false));
    } else {
      SplitState(cfg, n - 1);
      assert Split(n)[..|Split(n)| - 1] == Split(n - 1);
    }
  }

  /** The documented rule, that every opening is by `failure_threshold` consecutive failures,
    holds exactly for a threshold of 1. */
  lemma ConsecutiveRuleIff(cfg: Config)
    requires ValidConfig(cfg)
    ensures (forall es :: Opens(cfg, es) ==> Consecutive(es) >= cfg.failureThreshold) <==> cfg.failureThreshold == 1
  {
    hide Run, Opens;
    if cfg.failureThreshold == 1 {
      forall es | Opens(cfg, es) ensures Consecutive(es) >= cfg.failureThreshold {
        LastFailureCounts(cfg, es);
      }
    } else {
      var n := cfg.failureThreshold - 1;
      SplitOpens(cfg, n);
    }
  }

  lemma LastFailureCounts(cfg: Config, es: seq<Event>)
    requires ValidConfig(cfg) && Opens(cfg, es)
    ensures Consecutive(es) >= 1
  {
    hide Run;
    assert es == es[..|es| - 1] + [es[|es| - 1]];
    OpensByFailures(cfg, es[..|es| - 1], es[|es| - 1]);
  }

  /** For every larger threshold a run with a success in between opens the breaker. */
  lemma SplitOpens(cfg: Config, n: nat)
    requires ValidConfig(cfg) && n + 1 == cfg.failureThreshold && n > 0
    ensures Opens(cfg, Split(n)) && Consecutive(Split(n)) < cfg.failureThreshold
  {
    hide Run, Consecutive;
    SplitState(cfg, n);
    SplitState(cfg, n - 1);
    assert Split(n)[..|Split(n)| - 1] == Split(n - 1);
  }
}
