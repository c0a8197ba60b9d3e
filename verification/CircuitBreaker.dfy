/** The three-state governance `CircuitBreaker`, the clock it reads, and a description of every
    run of it by the events alone. */
module CircuitBreakers {

  // ---- The clock ------------------------------------------------------------

  /** The clock never runs backwards. Results that need this say so. */
  ghost predicate Monotone(reading: nat -> real) {
    forall m: nat, n: nat :: m <= n ==> reading(m) <= reading(n)
  }

  /** Successive readings of the system clock: each call returns the next one. */
  class Clock {
    const reading: nat -> real
    var ticks: nat

    constructor (reading: nat -> real)
      ensures this.reading == reading && ticks == 0
    {
      this.reading := reading;
      ticks := 0;
    }

    method Now() returns (t: real)
      modifies this
      ensures t == reading(old(ticks)) && ticks == old(ticks) + 1
    {
      t := reading(ticks);
      ticks := ticks + 1;
    }
  }

  // ---- Breaker values ---------------------------------------------------------

  datatype State = CLOSED | OPEN | HALF_OPEN

  datatype Transition = Transition(from: State, to: State, at: real)

  datatype Breaker = Breaker(
    failureThreshold: int,
    cooldownSeconds: int,
    halfOpenProbes: int,
    state: State,
    consecutiveFailures: int,
    lastFailureTime: real,
    halfOpenSuccesses: int,
    recursionDepth: int,
    transitionHistory: seq<Transition>)

  function Fresh(failureThreshold: int, cooldownSeconds: int, halfOpenProbes: int): Breaker {
    Breaker(failureThreshold, cooldownSeconds, halfOpenProbes, CLOSED, 0, 0.0, 0, 0, [])
  }

  function ChangeState(b: Breaker, to: State, stamp: real): Breaker {
    b.(state := to, transitionHistory := b.transitionHistory + [Transition(b.state, to, stamp)])
  }

  function OnFailure(b: Breaker, at: real, stamp: real): Breaker {
    var counted := b.(consecutiveFailures := b.consecutiveFailures + 1, lastFailureTime := at);
    if counted.consecutiveFailures >= b.failureThreshold && b.state != OPEN then ChangeState(counted, OPEN, stamp)
    else counted
  }

  function OnSuccess(b: Breaker, stamp: real): Breaker {
    match b.state
    case HALF_OPEN =>
      if b.halfOpenSuccesses + 1 >= b.halfOpenProbes
      then ChangeState(b.(consecutiveFailures := 0, halfOpenSuccesses := 0), CLOSED, stamp)
      else b.(halfOpenSuccesses := b.halfOpenSuccesses + 1)
    case CLOSED => b.(consecutiveFailures := 0)
    case OPEN => b
  }

  function OnCheck(b: Breaker, at: real, stamp: real): Breaker {
    if b.state == OPEN && at - b.lastFailureTime >= b.cooldownSeconds as real
    then ChangeState(b, HALF_OPEN, stamp).(halfOpenSuccesses := 0)
    else b
  }

  function OnDepth(b: Breaker, stamp: real): Breaker {
    var deeper := b.(recursionDepth := b.recursionDepth + 1);
    if deeper.recursionDepth > 3 then ChangeState(deeper, OPEN, stamp) else deeper
  }

  function OnReset(b: Breaker): Breaker {
    b.(state := CLOSED, consecutiveFailures := 0, halfOpenSuccesses := 0, recursionDepth := 0)
  }

  class CircuitBreaker {
    const clock: Clock
    const failureThreshold: int
    const cooldownSeconds: int
    const halfOpenProbes: int
    var state: State
    var consecutiveFailures: int
    var lastFailureTime: real
    var halfOpenSuccesses: int
    var recursionDepth: int
    var transitionHistory: seq<Transition>

    ghost function View(): Breaker
      reads this
    {
      Breaker(failureThreshold, cooldownSeconds, halfOpenProbes, state, consecutiveFailures, lastFailureTime,
              halfOpenSuccesses, recursionDepth, transitionHistory)
    }

    constructor (clock: Clock, failureThreshold: int := 3, cooldownSeconds: int := 30, halfOpenProbes: int := 2)
      ensures this.clock == clock
      ensures View() == Fresh(failureThreshold, cooldownSeconds, halfOpenProbes)
    {
      this.clock := clock;
      this.failureThreshold := failureThreshold;
      this.cooldownSeconds := cooldownSeconds;
      this.halfOpenProbes := halfOpenProbes;
      state := CLOSED;
      consecutiveFailures := 0;
      lastFailureTime := 0.0;
      halfOpenSuccesses := 0;
      recursionDepth := 0;
      transitionHistory := [];
    }

    method MoveTo(newState: State)
      modifies this`state, this`transitionHistory, clock
      ensures View() == ChangeState(old(View()), newState, clock.reading(old(clock.ticks)))
      ensures clock.ticks == old(clock.ticks) + 1
    {
      var t := clock.Now();
      transitionHistory := transitionHistory + [Transition(state, newState, t)];
      state := newState;
    }

    method RecordFailure() returns (tripped: bool)
      modifies this, clock
      ensures View() == OnFailure(old(View()), clock.reading(old(clock.ticks)), clock.reading(old(clock.ticks) + 1))
      ensures tripped <==> old(state) != OPEN && state == OPEN
      ensures clock.ticks == old(clock.ticks) + if tripped then 2 else 1
    {
      consecutiveFailures := consecutiveFailures + 1;
      lastFailureTime := clock.Now();
      if consecutiveFailures >= failureThreshold && state != OPEN {
        MoveTo(OPEN);
        return true;
      }
      return false;
    }

    /** `closed` stands for the source's answer "CLOSED", its absence for None. */
    method RecordSuccess() returns (closed: bool)
      modifies this, clock
      ensures View() == OnSuccess(old(View()), clock.reading(old(clock.ticks)))
      ensures closed <==> old(state) == HALF_OPEN && state == CLOSED
      ensures clock.ticks == old(clock.ticks) + if closed then 1 else 0
    {
      if state == HALF_OPEN {
        halfOpenSuccesses := halfOpenSuccesses + 1;
        if halfOpenSuccesses >= halfOpenProbes {
          consecutiveFailures := 0;
          halfOpenSuccesses := 0;
          MoveTo(CLOSED);
          return true;
        }
      } else if state == CLOSED {
        consecutiveFailures := 0;
      }
      return false;
    }

    method CheckCooldown() returns (reopened: bool)
      modifies this, clock
      ensures View() == OnCheck(old(View()), clock.reading(old(clock.ticks)), clock.reading(old(clock.ticks) + 1))
      ensures reopened <==> old(state) == OPEN && state == HALF_OPEN
      ensures clock.ticks == old(clock.ticks) + if reopened then 2 else if old(state) == OPEN then 1 else 0
    {
      if state == OPEN {
        var now := clock.Now();
        var elapsed := now - lastFailureTime;
        if elapsed >= cooldownSeconds as real {
          MoveTo(HALF_OPEN);
          halfOpenSuccesses := 0;
          return true;
        }
      }
      return false;
    }

    method IncrementDepth() returns (tripped: bool)
      modifies this, clock
      ensures View() == OnDepth(old(View()), clock.reading(old(clock.ticks)))
      ensures tripped <==> old(recursionDepth) >= 3
    {
      recursionDepth := recursionDepth + 1;
      if recursionDepth > 3 {
        MoveTo(OPEN);
        return true;
      }
      return false;
    }

    method ResetDepth()
      modifies this`recursionDepth
      ensures View() == old(View()).(recursionDepth := 0)
    {
      recursionDepth := 0;
    }

    method Reset()
      modifies this
      ensures View() == OnReset(old(View()))
    {
      state := CLOSED;
      consecutiveFailures := 0;
      halfOpenSuccesses := 0;
      recursionDepth := 0;
    }
  }

  // ---- Runs of failures, successes and cooldown checks ------------------------

  /** What happened, with the clock readings it took: `at` when it happened, `stamp` for the entry
      of the transition history, should there be one. */
  datatype Event = Failed(at: real, stamp: real) | Succeeded(stamp: real) | Checked(at: real, stamp: real)

  function Step(b: Breaker, e: Event): Breaker {
    match e
    case Failed(at, stamp) => OnFailure(b, at, stamp)
    case Succeeded(stamp) => OnSuccess(b, stamp)
    case Checked(at, stamp) => OnCheck(b, at, stamp)
  }

  ghost function Run(b: Breaker, events: seq<Event>): Breaker {
    if events == [] then b else Step(Run(b, events[..|events| - 1]), events[|events| - 1])
  }

  /** The events since the breaker last changed state. */
  ghost function Episode(b: Breaker, events: seq<Event>): seq<Event> {
    if events == [] then []
    else
      var front, last := events[..|events| - 1], events[|events| - 1];
      if Run(b, events).state != Run(b, front).state then [] else Episode(b, front) + [last]
  }

  /** Failures in a row at the end of `events`; cooldown checks do not interrupt the row. */
  ghost function Row(events: seq<Event>): nat {
    if events == [] then 0
    else
      var front := events[..|events| - 1];
      match events[|events| - 1]
      case Failed(_, _) => Row(front) + 1
      case Succeeded(_) => 0
      case Checked(_, _) => Row(front)
  }

  ghost function Successes(events: seq<Event>): nat {
    if events == [] then 0
    else Successes(events[..|events| - 1]) + if events[|events| - 1].Succeeded? then 1 else 0
  }

  ghost predicate AnyFailure(events: seq<Event>) {
    exists k :: 0 <= k < |events| && events[k].Failed?
  }

  /** When the latest failure of all happened. */
  ghost function LatestFailure(events: seq<Event>): real
    requires AnyFailure(events)
  {
    var last := events[|events| - 1];
    if last.Failed? then last.at else LatestFailure(events[..|events| - 1])
  }

  /** Each state of a run means something about the events: CLOSED counts the current row of
      failures, OPEN remembers the latest failure, HALF_OPEN counts successes with no failure since. */
  lemma {:induction false} StateMeansEvents(threshold: int, cooldown: int, probes: int, events: seq<Event>)
    requires threshold >= 1
    ensures var b := Run(Fresh(threshold, cooldown, probes), events);
            var episode := Episode(Fresh(threshold, cooldown, probes), events);
            && (b.failureThreshold, b.cooldownSeconds, b.halfOpenProbes) == (threshold, cooldown, probes)
            && (b.state == CLOSED <==> b.consecutiveFailures < threshold)
            && (b.state == CLOSED ==> b.consecutiveFailures == Row(episode))
            && (b.state == HALF_OPEN ==> !AnyFailure(episode) && b.halfOpenSuccesses == Successes(episode))
            && (b.state != CLOSED ==> AnyFailure(events))
            && (AnyFailure(events) ==> b.lastFailureTime == LatestFailure(events))
  {
    if events != [] {
      var front := events[..|events| - 1];
      var last := events[|events| - 1];
      StateMeansEvents(threshold, cooldown, probes, front);
      AnyFailureGrows(events);
      var before := Episode(Fresh(threshold, cooldown, probes), front);
      assert (before + [last])[..|before|] == before;
      AnyFailureGrows(before + [last]);
    }
  }

  lemma AnyFailureGrows(events: seq<Event>)
    requires events != []
    ensures AnyFailure(events) <==> AnyFailure(events[..|events| - 1]) || events[|events| - 1].Failed?
  {
    var front := events[..|events| - 1];
    if AnyFailure(front) {
      var k :| 0 <= k < |front| && front[k].Failed?;
      assert events[k].Failed?;
    }
    if AnyFailure(events) && !events[|events| - 1].Failed? {
      var k :| 0 <= k < |events| && events[k].Failed?;
      assert front[k].Failed?;
    }
  }

  /** The next state, read off the events so far: these are all the moves there are. */
  ghost function NextState(threshold: int, cooldown: int, probes: int, events: seq<Event>, e: Event): State {
    var start := Fresh(threshold, cooldown, probes);
    var episode := Episode(start, events);
    match Run(start, events).state
    case CLOSED => if e.Failed? && Row(episode) + 1 >= threshold then OPEN else CLOSED
    case OPEN =>
      if e.Checked? && AnyFailure(events) && e.at - LatestFailure(events) >= cooldown as real then HALF_OPEN else OPEN
    case HALF_OPEN =>
      if e.Failed? then OPEN
      else if e.Succeeded? && Successes(episode) + 1 >= probes then CLOSED
      else HALF_OPEN
  }

  /** A row of `threshold` failures opens the breaker and nothing else does; it half-opens only at a
      check a full cooldown after the latest failure; one failure reopens it; enough successes, with
      no failure since it half-opened, close it. */
  lemma MovesAreExact(threshold: int, cooldown: int, probes: int, events: seq<Event>, e: Event)
    requires threshold >= 1
    ensures Run(Fresh(threshold, cooldown, probes), events + [e]).state == NextState(threshold, cooldown, probes, events, e)
  {
    assert (events + [e])[..|events|] == events;
    StateMeansEvents(threshold, cooldown, probes, events);
  }

  /** After `events`, CLOSED can be read off the failure count. */
  ghost predicate ClosedReads(threshold: int, cooldown: int, probes: int, events: seq<Event>) {
    var b := Run(Fresh(threshold, cooldown, probes), events);
    b.state == CLOSED <==> b.consecutiveFailures < threshold
  }

  /** The reading holds in every run exactly for thresholds of at least one: below that a new
      breaker is CLOSED although its count is not below the threshold. */
  lemma ClosedReadingNeedsThreshold(threshold: int, cooldown: int, probes: int)
    ensures (forall events :: ClosedReads(threshold, cooldown, probes, events)) <==> threshold >= 1
  {
    if threshold >= 1 {
      forall events
        ensures ClosedReads(threshold, cooldown, probes, events)
      {
        StateMeansEvents(threshold, cooldown, probes, events);
      }
    } else {
      assert !ClosedReads(threshold, cooldown, probes, []);
    }
  }

  // ---- The transition history ----------------------------------------------------

  /** Each entry starts where the one before it ended, from CLOSED to the state `current`. */
  ghost predicate Chain(history: seq<Transition>, current: State) {
    if history == [] then current == CLOSED
    else
      var last := history[|history| - 1];
      last.to == current && Chain(history[..|history| - 1], last.from)
  }

  /** Everything that can be done to a breaker: besides the events above, the recursion depth
      grows or is cleared, and the whole breaker may be reset. */
  datatype Operation = Noted(event: Event) | Deepened(stamp: real) | DepthCleared | Reset

  function Apply(b: Breaker, op: Operation): Breaker {
    match op
    case Noted(e) => Step(b, e)
    case Deepened(stamp) => OnDepth(b, stamp)
    case DepthCleared => b.(recursionDepth := 0)
    case Reset => OnReset(b)
  }

  ghost function After(b: Breaker, ops: seq<Operation>): Breaker {
    if ops == [] then b else Apply(After(b, ops[..|ops| - 1]), ops[|ops| - 1])
  }

  lemma ChainExtends(history: seq<Transition>, current: State, to: State, stamp: real)
    ensures Chain(history + [Transition(current, to, stamp)], to) <==> Chain(history, current)
    ensures Chain(history + [Transition(current, to, stamp)], CLOSED) ==> to == CLOSED
  {
    assert (history + [Transition(current, to, stamp)])[..|history|] == history;
  }

  /** Every operation but a reset keeps a chain a chain and leaves a broken one broken; a reset does
      so only at a closed breaker and breaks the chain at any other. */
  lemma ApplyAndChain(b: Breaker, op: Operation)
    requires Chain(b.transitionHistory, CLOSED) ==> b.state == CLOSED
    ensures var after := Apply(b, op);
            && (Chain(after.transitionHistory, CLOSED) ==> after.state == CLOSED)
            && (Chain(after.transitionHistory, after.state) <==>
                Chain(b.transitionHistory, b.state) && (op == Reset ==> b.state == CLOSED))
  {
    var after := Apply(b, op);
    if after.transitionHistory != b.transitionHistory {
      ChainExtends(b.transitionHistory, b.state, after.state, after.transitionHistory[|b.transitionHistory|].at);
    }
  }

  /** If operation `k` is a reset, it met a closed breaker. */
  ghost predicate ResetMeetsClosed(b: Breaker, ops: seq<Operation>, k: nat)
    requires k < |ops|
  {
    ops[k] == Reset ==> After(b, ops[..k]).state == CLOSED
  }

  ghost predicate ResetsMeetClosed(b: Breaker, ops: seq<Operation>) {
    forall k :: 0 <= k < |ops| ==> ResetMeetsClosed(b, ops, k)
  }

  lemma ResetsGrow(b: Breaker, ops: seq<Operation>)
    requires ops != []
    ensures ResetsMeetClosed(b, ops) <==>
            ResetsMeetClosed(b, ops[..|ops| - 1]) && ResetMeetsClosed(b, ops, |ops| - 1)
  {
    var front := ops[..|ops| - 1];
    forall k | 0 <= k < |front|
      ensures ResetMeetsClosed(b, ops, k) <==> ResetMeetsClosed(b, front, k)
    {
      assert front[..k] == ops[..k];
    }
    assert forall k :: 0 <= k < |front| ==> (ResetMeetsClosed(b, ops, k) <==> ResetMeetsClosed(b, front, k));
  }

  /** A reset writes no entry. In any run of all six operations the history is one connected chain
      from CLOSED to the current state if and only if every reset met a closed breaker. */
  lemma {:induction false} ChainIffResetsMeetClosed(threshold: int, cooldown: int, probes: int, ops: seq<Operation>)
    ensures var b := After(Fresh(threshold, cooldown, probes), ops);
            && (Chain(b.transitionHistory, b.state) <==> ResetsMeetClosed(Fresh(threshold, cooldown, probes), ops))
            && (Chain(b.transitionHistory, CLOSED) ==> b.state == CLOSED)
  {
    if ops != [] {
      var start := Fresh(threshold, cooldown, probes);
      var front := ops[..|ops| - 1];
      ChainIffResetsMeetClosed(threshold, cooldown, probes, front);
      ApplyAndChain(After(start, front), ops[|ops| - 1]);
      ResetsGrow(start, ops);
    }
  }

  /** So without resets it always is. */
  lemma HistoryIsAChain(threshold: int, cooldown: int, probes: int, ops: seq<Operation>)
    requires forall k :: 0 <= k < |ops| ==> ops[k] != Reset
    ensures var b := After(Fresh(threshold, cooldown, probes), ops);
            Chain(b.transitionHistory, b.state)
  {
    ChainIffResetsMeetClosed(threshold, cooldown, probes, ops);
  }

  // ---- Recursion depth -------------------------------------------------------------

  /** After the first `n` operations, CLOSED can be read off the failure count. */
  ghost predicate ReadsAfter(start: Breaker, ops: seq<Operation>, n: nat)
    requires n <= |ops|
  {
    var b := After(start, ops[..n]);
    b.state == CLOSED <==> b.consecutiveFailures < b.failureThreshold
  }

  /** Operation `k` is the fourth level of recursion or deeper, and finds the breaker closed. */
  ghost predicate DepthTrips(start: Breaker, ops: seq<Operation>, k: nat)
    requires k < |ops|
  {
    var b := After(start, ops[..k]);
    ops[k].Deepened? && b.state == CLOSED && b.recursionDepth >= 3
  }

  lemma {:induction false} ReadsWithoutDepthTrips(threshold: int, cooldown: int, probes: int, ops: seq<Operation>, n: nat)
    requires threshold >= 1 && n <= |ops|
    requires forall k :: 0 <= k < n ==> !DepthTrips(Fresh(threshold, cooldown, probes), ops, k)
    ensures ReadsAfter(Fresh(threshold, cooldown, probes), ops, n)
    ensures After(Fresh(threshold, cooldown, probes), ops[..n]).failureThreshold == threshold
  {
    if n > 0 {
      ReadsWithoutDepthTrips(threshold, cooldown, probes, ops, n - 1);
      assert ops[..n][..n - 1] == ops[..n - 1];
      assert !DepthTrips(Fresh(threshold, cooldown, probes), ops, n - 1);
    }
  }

  /** Recursion depth opens the breaker without counting a failure: throughout a run CLOSED can be
      read off the failure count if and only if depth never opened a closed breaker. */
  lemma ReadingNeedsNoDepthTrip(threshold: int, cooldown: int, probes: int, ops: seq<Operation>)
    requires threshold >= 1
    ensures (forall n :: 0 <= n <= |ops| ==> ReadsAfter(Fresh(threshold, cooldown, probes), ops, n)) <==>
            (forall k :: 0 <= k < |ops| ==> !DepthTrips(Fresh(threshold, cooldown, probes), ops, k))
  {
    var start := Fresh(threshold, cooldown, probes);
    if forall k :: 0 <= k < |ops| ==> !DepthTrips(start, ops, k) {
      forall n | 0 <= n <= |ops|
        ensures ReadsAfter(start, ops, n)
      {
        ReadsWithoutDepthTrips(threshold, cooldown, probes, ops, n);
      }
    } else {
      var k :| 0 <= k < |ops| && DepthTrips(start, ops, k);
      assert ops[..k + 1][..k] == ops[..k];
      assert ReadsAfter(start, ops, k) ==> !ReadsAfter(start, ops, k + 1);
    }
  }

  /** And it does happen: four levels open a new breaker, and the first check half-opens it at once
      when the clock already exceeds the cooldown. */
  lemma DepthOpensWithoutFailures(s: real, at: real)
    ensures var ops := [Deepened(s), Deepened(s), Deepened(s), Deepened(s)];
            var b := After(Fresh(3, 30, 2), ops);
            && b.state == OPEN && b.consecutiveFailures == 0 && DepthTrips(Fresh(3, 30, 2), ops, 3)
            && (OnCheck(b, at, s).state == HALF_OPEN <==> at >= 30.0)
  {
    var start := Fresh(3, 30, 2);
    var d := Deepened(s);
    assert [d, d, d, d][..3] == [d, d, d] && [d, d, d][..2] == [d, d] && [d, d][..1] == [d] && [d][..0] == [];
    assert After(start, [d]) == OnDepth(start, s);
    assert After(start, [d, d]) == OnDepth(OnDepth(start, s), s);
  }

  /** The recursion depth is the number of levels entered since it was last cleared, be it by itself or
      by a reset of the whole breaker. */
  ghost function LevelsOf(ops: seq<Operation>): nat {
    if ops == [] then 0
    else
      match ops[|ops| - 1]
      case Deepened(_) => LevelsOf(ops[..|ops| - 1]) + 1
      case DepthCleared => 0
      case Reset => 0
      case Noted(_) => LevelsOf(ops[..|ops| - 1])
  }

  /** On a new breaker; and there are no half-open successes on record while it is closed. */
  lemma {:induction false} LevelsAndProbes(threshold: int, cooldown: int, probes: int, ops: seq<Operation>)
    ensures var b := After(Fresh(threshold, cooldown, probes), ops);
            b.recursionDepth == LevelsOf(ops) && (b.state == CLOSED ==> b.halfOpenSuccesses == 0)
  {
    if ops != [] {
      LevelsAndProbes(threshold, cooldown, probes, ops[..|ops| - 1]);
    }
  }

  // ---- Starting over ---------------------------------------------------------------

  /** Alike in everything later operations turn on: the time of the last failure counts only until the
      breaker is closed. */
  ghost predicate Alike(b: Breaker, c: Breaker) {
    && b.failureThreshold == c.failureThreshold && b.cooldownSeconds == c.cooldownSeconds && b.halfOpenProbes == c.halfOpenProbes
    && b.state == c.state && b.consecutiveFailures == c.consecutiveFailures
    && b.halfOpenSuccesses == c.halfOpenSuccesses && b.recursionDepth == c.recursionDepth
    && (b.state != CLOSED ==> b.lastFailureTime == c.lastFailureTime)
  }

  /** A step keeps two breakers alike, unless depth opens them and they differ in the time of the last failure. */
  lemma StepAlike(b: Breaker, c: Breaker, op: Operation)
    requires Alike(b, c)
    requires op.Deepened? && c.state == CLOSED && c.recursionDepth >= 3 ==> b.lastFailureTime == c.lastFailureTime
    ensures Alike(Apply(b, op), Apply(c, op))
    ensures b.lastFailureTime == c.lastFailureTime ==> Apply(b, op).lastFailureTime == Apply(c, op).lastFailureTime
  {
  }

  lemma {:induction false} StaysAlike(b: Breaker, c: Breaker, ops: seq<Operation>, n: nat)
    requires Alike(b, c) && n <= |ops|
    requires b.lastFailureTime == c.lastFailureTime || forall k :: 0 <= k < n ==> !DepthTrips(c, ops, k)
    ensures Alike(After(b, ops[..n]), After(c, ops[..n]))
    ensures b.lastFailureTime == c.lastFailureTime ==> After(b, ops[..n]).lastFailureTime == After(c, ops[..n]).lastFailureTime
  {
    if n > 0 {
      StaysAlike(b, c, ops, n - 1);
      assert ops[..n][..n - 1] == ops[..n - 1];
      assert b.lastFailureTime == c.lastFailureTime || !DepthTrips(c, ops, n - 1);
      StepAlike(After(b, ops[..n - 1]), After(c, ops[..n - 1]), ops[n - 1]);
    }
  }

  /** A reset starts over: whatever the breaker went through before, from then on it is in the same state,
      with the same counts, as a new one taken through the same operations, as long as depth trips neither. */
  lemma ResetStartsOver(b: Breaker, ops: seq<Operation>)
    ensures var start := Fresh(b.failureThreshold, b.cooldownSeconds, b.halfOpenProbes);
            (forall k :: 0 <= k < |ops| ==> !DepthTrips(start, ops, k)) ==>
              Alike(After(OnReset(b), ops), After(start, ops))
  {
    var start := Fresh(b.failureThreshold, b.cooldownSeconds, b.halfOpenProbes);
    if forall k :: 0 <= k < |ops| ==> !DepthTrips(start, ops, k) {
      StaysAlike(OnReset(b), start, ops, |ops|);
      assert ops[..|ops|] == ops;
    }
  }

  /** The breaker after a reset is, after the operations, in the state of a new one. */
  ghost predicate AsIfNew(b: Breaker, ops: seq<Operation>) {
    After(OnReset(b), ops).state == After(Fresh(b.failureThreshold, b.cooldownSeconds, b.halfOpenProbes), ops).state
  }

  /** The time of the last failure survives a reset, and a breaker that depth opens cools down from it. So a
      reset breaker passes for a new one in every run, depth trips included, exactly if that time is still
      the initial one. */
  lemma NewIffNoFailureTime(b: Breaker)
    ensures (forall ops :: AsIfNew(b, ops)) <==> b.lastFailureTime == 0.0
  {
    var start := Fresh(b.failureThreshold, b.cooldownSeconds, b.halfOpenProbes);
    if b.lastFailureTime == 0.0 {
      forall ops
        ensures AsIfNew(b, ops)
      {
        StaysAlike(OnReset(b), start, ops, |ops|);
        assert ops[..|ops|] == ops;
      }
    } else {
      var d := Deepened(0.0);
      var earlier := if b.lastFailureTime > 0.0 then 0.0 else b.lastFailureTime;
      var ops := [d, d, d, d, Noted(Checked(earlier + b.cooldownSeconds as real, 0.0))];
      assert ops[..4] == [d, d, d, d];
      FourLevels(start, 0.0);
      FourLevels(OnReset(b), 0.0);
      assert !AsIfNew(b, ops);
    }
  }

  lemma FourLevels(b: Breaker, s: real)
    requires b.recursionDepth == 0
    ensures var d := Deepened(s);
            var after := After(b, [d, d, d, d]);
            after.state == OPEN && after.lastFailureTime == b.lastFailureTime && after.cooldownSeconds == b.cooldownSeconds
  {
    var d := Deepened(s);
    assert [d, d, d, d][..3] == [d, d, d] && [d, d, d][..2] == [d, d] && [d, d][..1] == [d] && [d][..0] == [];
    assert After(b, [d]) == OnDepth(b, s);
    assert After(b, [d, d]) == OnDepth(OnDepth(b, s), s);
  }
}
