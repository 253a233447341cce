/** The circuit breaker: its methods, and what holds over whole runs of it. */
module CircuitBreaker {
  import opened Wrappers

  datatype CircuitState = CLOSED | OPEN | HALF_OPEN

  datatype Config = Config(failureThreshold: nat, successThreshold: nat, timeout: real, halfOpenRequests: nat)

  /** What `__post_init__` accepts. */
  predicate ValidConfig(cfg: Config) {
    cfg.failureThreshold > 0 && cfg.successThreshold > 0 && cfg.timeout >= 0.0 && cfg.halfOpenRequests > 0
  }

  const DEFAULTS: Config := Config(5, 3, 30.0, 1)

  datatype Breaker = Breaker(
    state: CircuitState,
    failures: nat,
    successes: nat,
    lastFailure: real,
    permits: nat,
    attempts: nat)

  const INITIAL: Breaker := Breaker(CLOSED, 0, 0, 0.0, 0, 0)

  // ---------- transitions and operations ----------

  function ToClosed(b: Breaker): Breaker {
    b.(state := CLOSED, failures := 0, successes := 0, permits := 0, attempts := 0)
  }

  function ToOpen(b: Breaker): Breaker {
    b.(state := OPEN, successes := 0)
  }

  function ToHalfOpen(b: Breaker): Breaker {
    b.(state := HALF_OPEN, successes := 0, permits := 0, attempts := 0)
  }

  datatype Answer = Answer(b: Breaker, allowed: bool)

  function AllowHalfOpen(cfg: Config, b: Breaker): Answer {
    if b.attempts < cfg.halfOpenRequests
    then Answer(b.(permits := b.permits + 1, attempts := b.attempts + 1), true)
    else Answer(b, false)
  }

  predicate Elapsed(cfg: Config, b: Breaker, now: real) {
    now - b.lastFailure > cfg.timeout
  }

  function AllowRequest(cfg: Config, b: Breaker, now: real): Answer {
    match b.state
    case CLOSED => Answer(b, true)
    case OPEN => if Elapsed(cfg, b, now) then AllowHalfOpen(cfg, ToHalfOpen(b)) else Answer(b, false)
    case HALF_OPEN => AllowHalfOpen(cfg, b)
  }

  function ReleasePermit(b: Breaker): Breaker {
    if b.permits > 0 then b.(permits := b.permits - 1) else b
  }

  function OnSuccess(cfg: Config, b: Breaker): Breaker {
    if !b.state.HALF_OPEN? then b
    else
      var c := ReleasePermit(b).(successes := b.successes + 1);
      if c.successes >= cfg.successThreshold then ToClosed(c) else c
  }

  /** `excluded`: the error's type is in `excluded_error_types`. */
  function OnFailure(cfg: Config, b: Breaker, now: real, excluded: bool): Breaker {
    if excluded then b
    else
      var c := (if b.state.HALF_OPEN? then ReleasePermit(b) else b).(failures := b.failures + 1, lastFailure := now);
      match b.state
      case CLOSED => if c.failures >= cfg.failureThreshold then ToOpen(c) else c
      case HALF_OPEN => ToOpen(c)
      case OPEN => c
  }

  class CircuitBreaker {
    const config: Config
    var state: CircuitState
    var failureCount: nat
    var successCount: nat
    var lastFailureTime: real
    var halfOpenPermits: nat
    var halfOpenTotalAttempts: nat

    function Model(): Breaker
      reads this
    {
      Breaker(state, failureCount, successCount, lastFailureTime, halfOpenPermits, halfOpenTotalAttempts)
    }

    constructor (config: Config)
      requires ValidConfig(config)
      ensures this.config == config && Model() == INITIAL
    {
      this.config := config;
      state, failureCount, successCount, lastFailureTime := CLOSED, 0, 0, 0.0;
      halfOpenPermits, halfOpenTotalAttempts := 0, 0;
    }

    method Allow(now: real) returns (allowed: bool)
      modifies this
      ensures Answer(Model(), allowed) == AllowRequest(config, old(Model()), now)
    {
      if state == CLOSED { return true; }
      if state == OPEN {
        if now - lastFailureTime > config.timeout {
          TransitionToHalfOpen();
          allowed := AllowHalfOpenRequest();
          return;
        }
        return false;
      }
      allowed := AllowHalfOpenRequest();
    }

    method AllowHalfOpenRequest() returns (allowed: bool)
      modifies this
      ensures Answer(Model(), allowed) == AllowHalfOpen(config, old(Model()))
    {
      if halfOpenTotalAttempts < config.halfOpenRequests {
        halfOpenPermits := halfOpenPermits + 1;
        halfOpenTotalAttempts := halfOpenTotalAttempts + 1;
        return true;
      }
      allowed := false;
    }

    method RecordSuccess()
      modifies this
      ensures Model() == OnSuccess(config, old(Model()))
    {
      if state == HALF_OPEN {
        halfOpenPermits := if halfOpenPermits >= 1 then halfOpenPermits - 1 else 0;
        successCount := successCount + 1;
        if successCount >= config.successThreshold {
          TransitionToClosed();
        }
      }
    }

    method RecordFailure(now: real, excluded: bool)
      modifies this
      ensures Model() == OnFailure(config, old(Model()), now, excluded)
    {
      if excluded { return; }
      if state == HALF_OPEN {
        halfOpenPermits := if halfOpenPermits >= 1 then halfOpenPermits - 1 else 0;
      }
      failureCount := failureCount + 1;
      lastFailureTime := now;
      if state == CLOSED {
        if failureCount >= config.failureThreshold {
          TransitionToOpen();
        }
      } else if state == HALF_OPEN {
        TransitionToOpen();
      }
    }

    method TransitionToClosed()
      modifies this
      ensures Model() == ToClosed(old(Model()))
    {
      state := CLOSED;
      failureCount, successCount := 0, 0;
      halfOpenPermits, halfOpenTotalAttempts := 0, 0;
    }

    method TransitionToOpen()
      modifies this
      ensures Model() == ToOpen(old(Model()))
    {
      state := OPEN;
      successCount := 0;
    }

    method TransitionToHalfOpen()
      modifies this
      ensures Model() == ToHalfOpen(old(Model()))
    {
      state := HALF_OPEN;
      successCount, halfOpenPermits, halfOpenTotalAttempts := 0, 0, 0;
    }

    method Reset()
      modifies this
      ensures Model() == ToClosed(old(Model()))
    {
      TransitionToClosed();
    }
  }

  // ---------- runs ----------

  datatype Event = Ask(now: real) | Success | Failure(now: real, excluded: bool) | ManualReset

  function Step(cfg: Config, b: Breaker, e: Event): Breaker {
    match e
    case Ask(now) => AllowRequest(cfg, b, now).b
    case Success => OnSuccess(cfg, b)
    case Failure(now, excluded) => OnFailure(cfg, b, now, excluded)
    case ManualReset => ToClosed(b)
  }

  function Run(cfg: Config, es: seq<Event>): Breaker {
    if es == [] then INITIAL else Step(cfg, Run(cfg, es[..|es| - 1]), es[|es| - 1])
  }

  predicate Admits(cfg: Config, b: Breaker, e: Event) {
    e.Ask? && AllowRequest(cfg, b, e.now).allowed
  }

  predicate Counted(e: Event) {
    e.Failure? && !e.excluded
  }

  /** A recovery cycle begins: the timeout is over and the breaker goes half-open. */
  predicate Begins(cfg: Config, b: Breaker, e: Event) {
    b.state.OPEN? && e.Ask? && Elapsed(cfg, b, e.now)
  }

  /** What happened since the latest cycle began, while half-open. */
  datatype Cycle = Cycle(admitted: nat, succeeded: nat, failed: nat, excluded: nat)

  function CycleOf(cfg: Config, es: seq<Event>): Cycle {
    if es == [] then Cycle(0, 0, 0, 0)
    else
      var init := es[..|es| - 1];
      var b, e := Run(cfg, init), es[|es| - 1];
      var before := if Begins(cfg, b, e) then Cycle(0, 0, 0, 0) else CycleOf(cfg, init);
      var inCycle := b.state.HALF_OPEN? || Begins(cfg, b, e);
      Cycle(before.admitted + (if inCycle && Admits(cfg, b, e) then 1 else 0),
            before.succeeded + (if inCycle && e.Success? then 1 else 0),
            before.failed + (if inCycle && Counted(e) then 1 else 0),
            before.excluded + (if inCycle && e.Failure? && e.excluded then 1 else 0))
  }

  /** The time of the latest failure that counted. */
  function LastCounted(es: seq<Event>): (t: Option<real>) {
    if es == [] then None
    else if Counted(es[|es| - 1]) then Some(es[|es| - 1].now)
    else LastCounted(es[..|es| - 1])
  }

  /** Counted failures since the breaker last became closed. */
  function FailuresSinceClosed(cfg: Config, es: seq<Event>): nat {
    if es == [] then 0
    else
      var init := es[..|es| - 1];
      var b, e := Run(cfg, init), es[|es| - 1];
      if e.ManualReset? || (b.state.HALF_OPEN? && Step(cfg, b, e).state.CLOSED?) then 0
      else FailuresSinceClosed(cfg, init) + if Counted(e) then 1 else 0
  }

  ghost predicate Inv(cfg: Config, es: seq<Event>) {
    var b, c := Run(cfg, es), CycleOf(cfg, es);
    && b.failures == FailuresSinceClosed(cfg, es)
    && (b.state.CLOSED? ==> b.failures < cfg.failureThreshold)
    && (!b.state.CLOSED? ==> LastCounted(es) == Some(b.lastFailure))
    && (b.state.HALF_OPEN? ==>
         b.attempts == c.admitted <= cfg.halfOpenRequests &&
         b.successes == c.succeeded < cfg.successThreshold && c.failed == 0)
    && (b.state.OPEN? || b.state.CLOSED? ==> c.admitted <= cfg.halfOpenRequests)
  }

  lemma {:induction false} RunInv(cfg: Config, es: seq<Event>)
    requires ValidConfig(cfg)
    ensures Inv(cfg, es)
  {
    if es != [] {
      RunInv(cfg, es[..|es| - 1]);
    }
  }

  /** While open, a call is admitted only after the timeout since the latest counted failure. */
  lemma OpenWaits(cfg: Config, es: seq<Event>, now: real)
    requires ValidConfig(cfg) && Run(cfg, es).state.OPEN? && Admits(cfg, Run(cfg, es), Ask(now))
    ensures LastCounted(es).Some? && now > LastCounted(es).value + cfg.timeout
  {
    RunInv(cfg, es);
  }

  /** A recovery cycle admits at most `half_open_requests` calls. */
  lemma CycleBounded(cfg: Config, es: seq<Event>)
    requires ValidConfig(cfg)
    ensures CycleOf(cfg, es).admitted <= cfg.halfOpenRequests
  {
    RunInv(cfg, es);
  }

  /** Without a manual reset the breaker closes only by the `success_threshold`th success of a
    cycle in which no failure counted. */
  lemma ClosesBySuccesses(cfg: Config, es: seq<Event>, e: Event)
    requires ValidConfig(cfg) && !Run(cfg, es).state.CLOSED? && !e.ManualReset? && Run(cfg, es + [e]).state.CLOSED?
    ensures e.Success? && Run(cfg, es).state.HALF_OPEN?
    ensures CycleOf(cfg, es + [e]).succeeded == cfg.successThreshold && CycleOf(cfg, es + [e]).failed == 0
  {
    RunInv(cfg, es);
    assert (es + [e])[..|es|] == es;
  }

  /** From closed the breaker opens exactly on the `failure_threshold`th counted failure since
    it closed; successes in between do not matter. */
  lemma OpensByFailures(cfg: Config, es: seq<Event>, e: Event)
    requires ValidConfig(cfg) && Run(cfg, es).state.CLOSED?
    ensures Run(cfg, es + [e]).state.OPEN? <==>
            Counted(e) && FailuresSinceClosed(cfg, es + [e]) == cfg.failureThreshold
  {
    RunInv(cfg, es);
    assert (es + [e])[..|es|] == es;
  }

  // ---------- which calls are admitted, and where every event leads ----------

  /** A call is admitted exactly when the breaker is closed, or open with the timeout since the
    latest counted failure over, or half-open with a trial of the cycle left. */
  lemma AdmitsIff(cfg: Config, es: seq<Event>, now: real)
    requires ValidConfig(cfg)
    ensures Admits(cfg, Run(cfg, es), Ask(now)) <==>
            match Run(cfg, es).state
            case CLOSED => true
            case OPEN => LastCounted(es).Some? && now > LastCounted(es).value + cfg.timeout
            case HALF_OPEN => CycleOf(cfg, es).admitted < cfg.halfOpenRequests
  {
    RunInv(cfg, es);
  }

  /** Where each event leads, from each state, by what happened before it. */
  lemma NextState(cfg: Config, es: seq<Event>, e: Event)
    requires ValidConfig(cfg)
    ensures Run(cfg, es + [e]).state ==
            match Run(cfg, es).state
            case CLOSED =>
              if Counted(e) && FailuresSinceClosed(cfg, es) + 1 >= cfg.failureThreshold then OPEN else CLOSED
            case OPEN =>
              if e.ManualReset? then CLOSED
              else if e.Ask? && LastCounted(es).Some? && e.now > LastCounted(es).value + cfg.timeout then HALF_OPEN
              else OPEN
            case HALF_OPEN =>
              if e.ManualReset? then CLOSED
              else if Counted(e) then OPEN
              else if e.Success? && CycleOf(cfg, es).succeeded + 1 >= cfg.successThreshold then CLOSED
              else HALF_OPEN
  {
    RunInv(cfg, es);
    assert (es + [e])[..|es|] == es;
  }
}
