/** Resource governance for evaluation loops: a budget of tokens, calls and time, and a circuit
    breaker whose whole life the governor keeps as a log of events. */
module Governance {
  import opened CircuitBreakers

  /** A limit that may be infinite, as `float("inf")` is in the source. */
  datatype Limit = Unlimited | AtMost(value: real)

  predicate Reached(used: real, limit: Limit) {
    match limit
    case Unlimited => false
    case AtMost(value) => used >= value
  }

  /** A limit is reached from its value on, an unlimited one never. */
  lemma ReachedMeans(used: real, limit: Limit)
    ensures Reached(used, limit) <==> limit.AtMost? && limit.value <= used
  {
  }

  class TokenBudget {
    const clock: Clock
    const maxTokens: Limit
    const maxCalls: int
    const maxElapsed: Limit
    var tokensUsed: real
    var callsUsed: int
    var startTime: real

    constructor (clock: Clock, maxTokens: Limit := Unlimited, maxCalls: int := 10000, maxElapsed: Limit := Unlimited)
      modifies clock
      ensures this.clock == clock && this.maxTokens == maxTokens && this.maxCalls == maxCalls && this.maxElapsed == maxElapsed
      ensures tokensUsed == 0.0 && callsUsed == 0 && startTime == clock.reading(old(clock.ticks))
    {
      this.clock := clock;
      this.maxTokens := maxTokens;
      this.maxCalls := maxCalls;
      this.maxElapsed := maxElapsed;
      tokensUsed := 0.0;
      callsUsed := 0;
      var now := clock.Now();
      startTime := now;
    }

    function RemainingCalls(): (r: int)
      reads this
      ensures callsUsed + r == maxCalls
    {
      maxCalls - callsUsed
    }

    method Consume(tokens: real := 0.0, calls: int := 1)
      modifies this`tokensUsed, this`callsUsed
      ensures tokensUsed == old(tokensUsed) + tokens && callsUsed == old(callsUsed) + calls
    {
      tokensUsed := tokensUsed + tokens;
      callsUsed := callsUsed + calls;
    }

    /** The clock is read only when neither of the other limits has been reached. */
    method Exceeded() returns (exceeded: bool)
      modifies clock
      ensures exceeded <==>
              || Reached(tokensUsed, maxTokens)
              || callsUsed > maxCalls
              || Reached(clock.reading(old(clock.ticks)) - startTime, maxElapsed)
      ensures clock.ticks == old(clock.ticks) + if Reached(tokensUsed, maxTokens) || callsUsed > maxCalls then 0 else 1
    {
      if Reached(tokensUsed, maxTokens) || callsUsed > maxCalls {
        return true;
      }
      var now := clock.Now();
      return Reached(now - startTime, maxElapsed);
    }
  }

  /** The breaker every governor starts with: three failures, thirty seconds, two probes. */
  const NEW_BREAKER: Breaker := Fresh(3, 30, 2)

  class ResourceGovernor {
    const clock: Clock
    const budget: TokenBudget
    const circuitBreaker: CircuitBreaker
    var tripped: bool
    /** Everything the breaker has been through since the governor was made. */
    ghost var log: seq<Event>

    /** The breaker is where its log puts it, and the `tripped` flag says whether it is open. */
    ghost predicate Valid()
      reads this, circuitBreaker
    {
      && budget.clock == clock && circuitBreaker.clock == clock
      && circuitBreaker.View() == Run(NEW_BREAKER, log)
      && (tripped <==> circuitBreaker.state == OPEN)
    }

    constructor (clock: Clock, budget: TokenBudget)
      requires budget.clock == clock
      ensures Valid() && this.clock == clock && this.budget == budget && log == [] && fresh(circuitBreaker)
    {
      this.clock := clock;
      this.budget := budget;
      circuitBreaker := new CircuitBreaker(clock);
      tripped := false;
      log := [];
    }

    /** True exactly when calls remain and the breaker, after any due cooldown, is not open;
        `spent` tells whether it was the budget that refused. The budget takes one reading of the
        clock and the cooldown of an open breaker is checked at the next one. */
    method Check() returns (ok: bool, ghost spent: bool)
      requires Valid()
      modifies this`tripped, this`log, clock, circuitBreaker
      ensures Valid()
      ensures ok <==> !spent && circuitBreaker.state != OPEN
      ensures spent <==>
              || Reached(budget.tokensUsed, budget.maxTokens)
              || budget.RemainingCalls() <= 0
              || Reached(clock.reading(old(clock.ticks)) - budget.startTime, budget.maxElapsed)
      ensures spent || old(circuitBreaker.state) != OPEN ==> log == old(log)
      ensures !spent && old(circuitBreaker.state) == OPEN ==>
                && old(clock.ticks) + 2 <= clock.ticks
                && log == old(log) + [Checked(clock.reading(old(clock.ticks) + 1), clock.reading(old(clock.ticks) + 2))]
      ensures old(circuitBreaker.state) != OPEN ==> circuitBreaker.state == old(circuitBreaker.state)
      ensures spent ==> Reached(budget.tokensUsed, budget.maxTokens) || budget.RemainingCalls() < 0 || clock.ticks == old(clock.ticks) + 1
      ensures old(clock.ticks) <= clock.ticks && (!spent ==> old(clock.ticks) < clock.ticks)
    {
      var exceeded := budget.Exceeded();
      spent := exceeded || budget.RemainingCalls() <= 0;
      if exceeded || budget.RemainingCalls() <= 0 {
        return false, spent;
      }
      if tripped {
        ghost var e := Checked(clock.reading(clock.ticks), clock.reading(clock.ticks + 1));
        var due := circuitBreaker.CheckCooldown();
        assert (log + [e])[..|log|] == log;
        log := log + [e];
        if due {
          tripped := false;
        } else {
          return false, spent;
        }
      }
      return circuitBreaker.state != OPEN, spent;
    }

    method Consume(tokens: real := 0.0, calls: int := 1)
      requires Valid()
      modifies budget`tokensUsed, budget`callsUsed
      ensures Valid()
      ensures budget.tokensUsed == old(budget.tokensUsed) + tokens && budget.callsUsed == old(budget.callsUsed) + calls
    {
      budget.Consume(tokens, calls);
    }

    method RecordFailure()
      requires Valid()
      modifies this`tripped, this`log, clock, circuitBreaker
      ensures Valid()
      ensures log == old(log) + [Failed(clock.reading(old(clock.ticks)), clock.reading(old(clock.ticks) + 1))]
      ensures clock.ticks == old(clock.ticks) + if old(circuitBreaker.state) != OPEN && circuitBreaker.state == OPEN then 2 else 1
    {
      ghost var e := Failed(clock.reading(clock.ticks), clock.reading(clock.ticks + 1));
      var justTripped := circuitBreaker.RecordFailure();
      assert (log + [e])[..|log|] == log;
      log := log + [e];
      if circuitBreaker.state == OPEN {
        tripped := true;
      }
    }

    method RecordSuccess()
      requires Valid()
      modifies this`log, clock, circuitBreaker
      ensures Valid()
      ensures log == old(log) + [Succeeded(clock.reading(old(clock.ticks)))]
      ensures circuitBreaker.state == OPEN <==> old(circuitBreaker.state) == OPEN
      ensures old(clock.ticks) <= clock.ticks
    {
      ghost var e := Succeeded(clock.reading(clock.ticks));
      var closed := circuitBreaker.RecordSuccess();
      assert (log + [e])[..|log|] == log;
      log := log + [e];
    }
  }

  // ---- What a log of governed calls can look like --------------------------------

  ghost function StateAfter(log: seq<Event>): State {
    Run(NEW_BREAKER, log).state
  }

  /** If event `k` is a call, it was made with the breaker not open. */
  ghost predicate HeldBackAt(log: seq<Event>, k: nat)
    requires k < |log|
  {
    !log[k].Checked? ==> StateAfter(log[..k]) != OPEN
  }

  /** If event `k` is a cooldown check, it came less than a cooldown after the latest failure. */
  ghost predicate QuickAt(log: seq<Event>, k: nat)
    requires k < |log|
  {
    log[k].Checked? ==> log[k].at - Run(NEW_BREAKER, log[..k]).lastFailureTime < NEW_BREAKER.cooldownSeconds as real
  }

  ghost predicate CallsHeldBack(log: seq<Event>, from: nat) {
    forall k :: from <= k < |log| ==> HeldBackAt(log, k)
  }

  ghost predicate ChecksAreQuick(log: seq<Event>, from: nat) {
    forall k :: from <= k < |log| ==> QuickAt(log, k)
  }

  lemma {:induction false} FailuresCoverRow(log: seq<Event>)
    ensures Row(log) <= Run(NEW_BREAKER, log).consecutiveFailures
    ensures Run(NEW_BREAKER, log).failureThreshold == 3 && Run(NEW_BREAKER, log).cooldownSeconds == 30
  {
    if log != [] {
      FailuresCoverRow(log[..|log| - 1]);
      StateMeansEvents(3, 30, 2, log[..|log| - 1]);
    }
  }

  lemma {:induction false} OpenEndsTheCalls(log: seq<Event>, from: nat, k: nat)
    requires from <= k <= |log| && CallsHeldBack(log, from) && ChecksAreQuick(log, from)
    requires StateAfter(log[..k]) == OPEN
    ensures StateAfter(log) == OPEN && forall m :: k <= m < |log| ==> log[m].Checked?
    decreases |log| - k
  {
    if k == |log| {
      assert log[..k] == log;
    } else {
      assert log[..k + 1][..k] == log[..k];
      assert HeldBackAt(log, k) && QuickAt(log, k);
      FailuresCoverRow(log[..k]);
      OpenEndsTheCalls(log, from, k + 1);
    }
  }

  lemma {:induction false} ClosedUntilTheThird(log: seq<Event>, from: nat, k: nat)
    requires from <= k <= |log| && CallsHeldBack(log, from) && ChecksAreQuick(log, from)
    requires StateAfter(log[..from]) == CLOSED
    ensures StateAfter(log[..k]) != HALF_OPEN
    ensures Run(NEW_BREAKER, log[..k]).consecutiveFailures <= 3
    decreases k
  {
    StateMeansEvents(3, 30, 2, log[..k]);
    if k > from {
      ClosedUntilTheThird(log, from, k - 1);
      StateMeansEvents(3, 30, 2, log[..k - 1]);
      FailuresCoverRow(log[..k - 1]);
      assert log[..k][..k - 1] == log[..k - 1];
      assert HeldBackAt(log, k - 1) && QuickAt(log, k - 1);
    }
  }

  /** Starting closed and with every check quick, failing calls in a row never exceed the threshold
      of three, and a row of three is the end of the calls: the breaker opens and stays open. */
  lemma FailingCallsAreCapped(log: seq<Event>, from: nat, k: nat)
    requires from <= k <= |log| && CallsHeldBack(log, from) && ChecksAreQuick(log, from)
    requires StateAfter(log[..from]) == CLOSED
    ensures Row(log[..k]) <= 3
    ensures Row(log[..k]) == 3 ==> StateAfter(log) == OPEN && forall m :: k <= m < |log| ==> log[m].Checked?
  {
    ClosedUntilTheThird(log, from, k);
    FailuresCoverRow(log[..k]);
    StateMeansEvents(3, 30, 2, log[..k]);
    if Row(log[..k]) == 3 {
      OpenEndsTheCalls(log, from, k);
    }
  }

  // ---- When the events of a log happened -----------------------------------------

  ghost predicate TakenAt(at: real, reading: nat -> real, t: nat) {
    at == reading(t)
  }

  ghost predicate TakenWithin(at: real, reading: nat -> real, a: nat, b: nat) {
    exists t: nat :: a <= t < b && TakenAt(at, reading, t)
  }

  /** The check was made three readings after the failure: the time of the transition entry and the
      look at the budget come between. */
  ghost predicate RightAfter(failed: real, checked: real, reading: nat -> real, a: nat, b: nat) {
    exists t: nat :: a <= t && t + 3 < b && TakenAt(failed, reading, t) && TakenAt(checked, reading, t + 3)
  }

  /** Event `k`, if it is a failure or a check, happened at one of the readings from `a` up to but not
      including `b`. A check finds the breaker open and, unless it is the first event, comes right
      after a failure. */
  ghost predicate TimedAt(log: seq<Event>, from: nat, k: nat, reading: nat -> real, a: nat, b: nat)
    requires from <= k < |log|
  {
    match log[k]
    case Failed(at, _) => TakenWithin(at, reading, a, b)
    case Succeeded(_) => true
    case Checked(at, _) =>
      && StateAfter(log[..k]) == OPEN
      && if k == from then TakenWithin(at, reading, a, b)
         else log[k - 1].Failed? && RightAfter(log[k - 1].at, at, reading, a, b)
  }

  ghost predicate Timed(log: seq<Event>, from: nat, reading: nat -> real, a: nat, b: nat) {
    forall k :: from <= k < |log| ==> TimedAt(log, from, k, reading, a, b)
  }

  lemma TimedWidens(log: seq<Event>, from: nat, reading: nat -> real, a: nat, b: nat, c: nat)
    requires Timed(log, from, reading, a, b) && b <= c
    ensures Timed(log, from, reading, a, c)
  {
    forall k | from <= k < |log|
      ensures TimedAt(log, from, k, reading, a, c)
    {
      assert TimedAt(log, from, k, reading, a, b);
    }
  }

  lemma TimedGrows(log: seq<Event>, from: nat, reading: nat -> real, a: nat, b: nat, e: Event)
    requires from <= |log| && Timed(log, from, reading, a, b)
    requires TimedAt(log + [e], from, |log|, reading, a, b)
    ensures Timed(log + [e], from, reading, a, b)
  {
    var longer := log + [e];
    forall k | from <= k < |longer|
      ensures TimedAt(longer, from, k, reading, a, b)
    {
      if k < |log| {
        assert TimedAt(log, from, k, reading, a, b) && longer[..k] == log[..k];
      }
    }
  }

  /** Between any of these readings and the third after it, less than a cooldown passes. */
  ghost predicate QuickReadings(reading: nat -> real, a: nat, b: nat) {
    forall t: nat :: a <= t && t + 3 < b ==> reading(t + 3) - reading(t) < NEW_BREAKER.cooldownSeconds as real
  }

  /** Quick readings make quick checks, in a log that starts from a closed breaker. */
  lemma QuickReadingsQuickChecks(log: seq<Event>, from: nat, reading: nat -> real, a: nat, b: nat)
    requires from <= |log| && Timed(log, from, reading, a, b) && QuickReadings(reading, a, b)
    requires StateAfter(log[..from]) == CLOSED
    ensures ChecksAreQuick(log, from)
  {
    forall k | from <= k < |log|
      ensures QuickAt(log, k)
    {
      assert TimedAt(log, from, k, reading, a, b);
      if log[k].Checked? {
        assert log[..k][..k - 1] == log[..k - 1];
        assert Run(NEW_BREAKER, log[..k]).lastFailureTime == log[k - 1].at;
      }
    }
  }
}
