/** `ConvergenceLoop.run`: re-runs an evaluation until its scores settle or regress, a limit is hit
    or the governor steps in. The runner is any function from attempt numbers to outcomes. */
module ConvergenceLoops {
  import opened Options
  import opened CircuitBreakers
  import opened Governance

  /** What one call of the runner does: raise, or return a result whose keys may be missing. */
  datatype RunnerOutcome = Raised | Returned(
    score: Option<real>,
    findings: Option<seq<string>>,
    domainScores: Option<map<string, real>>)

  datatype Entry = Entry(
    iteration: nat,
    score: real,
    findings: seq<string>,
    domainScores: map<string, real>,
    elapsed: real)

  datatype StopReason = MAX_ITERATIONS | TIMEOUT | CIRCUIT_OPEN | RESOURCE_EXHAUSTED | REGRESSION | CONVERGED

  /** How long a run may take, and until when its budget lasts. */
  datatype Deadlines = Deadlines(timeout: real, budgetStart: real, maxElapsed: Limit)

  /** Where the governor's log, its budget and the clock stood when a run began. */
  datatype Origin = Origin(log: seq<Event>, calls: int, tokens: real, ticks: nat, deadlines: Deadlines)

  datatype Report = Report(
    finalScore: real,
    iterations: nat,
    converged: bool,
    stopReason: StopReason,
    scoreTrajectory: seq<real>,
    history: seq<Entry>,
    findings: seq<string>)

  /** How one pass through the loop body ends. */
  datatype Pass = Continue | Stop(reason: StopReason) | Raise

  /** Without a governor an exception of the runner passes through. */
  datatype LoopOutcome = Finished(report: Report) | RunnerRaised

  // ---- Stopping criteria ------------------------------------------------------

  function Abs(x: real): real {
    if x < 0.0 then -x else x
  }

  function Scores(history: seq<Entry>): seq<real> {
    seq(|history|, k requires 0 <= k < |history| => history[k].score)
  }

  /** One of the last two changes of score is below the regression threshold. */
  predicate Regressed(scores: seq<real>, threshold: real) {
    var n := |scores|;
    n >= 3 && (scores[n - 2] - scores[n - 3] < threshold || scores[n - 1] - scores[n - 2] < threshold)
  }

  /** Both of the last two changes of score are smaller than `delta`. */
  predicate Settled(scores: seq<real>, delta: real) {
    var n := |scores|;
    n >= 3 && Abs(scores[n - 2] - scores[n - 3]) < delta && Abs(scores[n - 1] - scores[n - 2]) < delta
  }

  predicate Fires(scores: seq<real>, threshold: real, delta: real) {
    Regressed(scores, threshold) || Settled(scores, delta)
  }

  ghost predicate QuietAt(scores: seq<real>, n: nat, threshold: real, delta: real)
    requires n <= |scores|
  {
    !Fires(scores[..n], threshold, delta)
  }

  /** No proper prefix of the scores met a criterion. */
  ghost predicate QuietBefore(scores: seq<real>, threshold: real, delta: real) {
    forall n :: 0 <= n < |scores| ==> QuietAt(scores, n, threshold, delta)
  }

  // ---- What the criteria mean for a trajectory -------------------------------------

  predicate SmallStep(s: seq<real>, k: nat, delta: real)
    requires 0 < k < |s|
  {
    -delta < s[k] - s[k - 1] < delta
  }

  predicate Drop(s: seq<real>, k: nat, threshold: real)
    requires 0 < k < |s|
  {
    s[k] - s[k - 1] < threshold
  }

  /** A converged run ends in three scores that lie close together, after two small steps neither of
      which is a drop; and a run that ends so has converged. */
  ghost predicate ConvergedRightly(s: seq<real>, reason: StopReason, threshold: real, delta: real) {
    var n := |s|;
    && (reason == CONVERGED <==>
        n >= 3 && SmallStep(s, n - 2, delta) && SmallStep(s, n - 1, delta) && !Drop(s, n - 2, threshold) && !Drop(s, n - 1, threshold))
    && (reason == CONVERGED ==> forall i, j :: n - 3 <= i < n && n - 3 <= j < n ==> s[i] - s[j] < 2.0 * delta)
  }

  predicate TwoSmallSteps(s: seq<real>, k: nat, delta: real)
    requires 1 < k < |s|
  {
    SmallStep(s, k - 1, delta) && SmallStep(s, k, delta)
  }

  /** Before the last score there are no two small steps in a row. */
  ghost predicate NotSettledBefore(s: seq<real>, delta: real) {
    forall k :: 2 <= k < |s| - 1 ==> !TwoSmallSteps(s, k, delta)
  }

  /** With three scores or more, a drop is the last step, or the first of exactly two, and it is why
      the run stopped; and a run stops for regression only after a drop. */
  ghost predicate RegressedRightly(s: seq<real>, reason: StopReason, threshold: real) {
    var n := |s|;
    && (n >= 3 ==> forall k :: 1 <= k < n && Drop(s, k, threshold) ==> (k == n - 1 || (k == 1 && n == 3)) && reason == REGRESSION)
    && (reason == REGRESSION ==> n >= 3 && (Drop(s, n - 1, threshold) || Drop(s, n - 2, threshold)))
  }

  /** What a run that stopped for `reason` says about its trajectory. */
  ghost predicate Explained(s: seq<real>, reason: StopReason, threshold: real, delta: real) {
    ConvergedRightly(s, reason, threshold, delta) && NotSettledBefore(s, delta) && RegressedRightly(s, reason, threshold)
  }

  lemma PrefixesAreQuiet(s: seq<real>, threshold: real, delta: real, k: nat)
    requires QuietBefore(s, threshold, delta) && 2 <= k < |s| - 1
    ensures !Drop(s, k - 1, threshold) && !Drop(s, k, threshold)
    ensures !TwoSmallSteps(s, k, delta)
  {
    assert QuietAt(s, k + 1, threshold, delta);
    var front := s[..k + 1];
    assert front[k] == s[k] && front[k - 1] == s[k - 1] && front[k - 2] == s[k - 2];
  }

  /** The criteria, checked after every score in turn, amount to that. */
  lemma CriteriaExplain(s: seq<real>, reason: StopReason, threshold: real, delta: real)
    requires QuietBefore(s, threshold, delta)
    requires reason == REGRESSION <==> Regressed(s, threshold)
    requires reason == CONVERGED <==> !Regressed(s, threshold) && Settled(s, delta)
    ensures Explained(s, reason, threshold, delta)
  {
    var n := |s|;
    forall k | 2 <= k < n - 1
      ensures !TwoSmallSteps(s, k, delta)
    {
      PrefixesAreQuiet(s, threshold, delta, k);
    }
    forall k | 1 <= k < n && n >= 3 && Drop(s, k, threshold)
      ensures (k == n - 1 || (k == 1 && n == 3)) && reason == REGRESSION
    {
      if n > 3 {
        PrefixesAreQuiet(s, threshold, delta, 2);
      }
      if 2 <= k < n - 1 {
        PrefixesAreQuiet(s, threshold, delta, k);
      }
    }
  }

  // ---- What history and log say about the runner --------------------------------

  /** The entry for attempt `iteration` is what the runner returned, with what it left out filled in. */
  ghost predicate Notes(e: Entry, iteration: nat, result: RunnerOutcome) {
    && result.Returned?
    && e.iteration == iteration
    && e.score == result.score.GetOr(0.0)
    && e.findings == result.findings.GetOr([])
    && e.domainScores == result.domainScores.GetOr(map[])
  }

  /** `history` records exactly those of the first `attempts` runner calls that returned, in order. */
  ghost predicate FollowsRunner(history: seq<Entry>, runner: nat -> RunnerOutcome, attempts: nat) {
    if attempts == 0 then history == []
    else
      match runner(attempts)
      case Raised => FollowsRunner(history, runner, attempts - 1)
      case Returned(_, _, _) =>
        && history != []
        && Notes(history[|history| - 1], attempts, runner(attempts))
        && FollowsRunner(history[..|history| - 1], runner, attempts - 1)
  }

  /** So every entry is about a call that returned, later than the one before it, and holds what that call
      returned: no score counts as zero, no findings as none, no domain scores as none. */
  lemma {:induction false} EntriesAreReturns(history: seq<Entry>, runner: nat -> RunnerOutcome, attempts: nat, k: nat)
    requires FollowsRunner(history, runner, attempts) && k < |history|
    ensures var e := history[k];
            && 1 <= e.iteration <= attempts && runner(e.iteration).Returned?
            && (k > 0 ==> history[k - 1].iteration < e.iteration)
            && var result := runner(e.iteration);
               && (result.score == Some(e.score) || (result.score == None && e.score == 0.0))
               && (result.findings == Some(e.findings) || (result.findings == None && e.findings == []))
               && (result.domainScores == Some(e.domainScores) || (result.domainScores == None && e.domainScores == map[]))
  {
    if runner(attempts).Raised? {
      EntriesAreReturns(history, runner, attempts - 1, k);
    } else if k < |history| - 1 {
      EntriesAreReturns(history[..|history| - 1], runner, attempts - 1, k);
    } else if k > 0 {
      EntriesAreReturns(history[..|history| - 1], runner, attempts - 1, k - 1);
    }
  }

  /** And every call that returned has an entry. */
  lemma {:induction false} ReturnsHaveEntries(history: seq<Entry>, runner: nat -> RunnerOutcome, attempts: nat, i: nat)
    returns (k: nat)
    requires FollowsRunner(history, runner, attempts) && 1 <= i <= attempts && runner(i).Returned?
    ensures k < |history| && history[k].iteration == i
  {
    if runner(attempts).Raised? {
      k := ReturnsHaveEntries(history, runner, attempts - 1, i);
    } else if i < attempts {
      k := ReturnsHaveEntries(history[..|history| - 1], runner, attempts - 1, i);
    } else {
      k := |history| - 1;
    }
  }

  /** From position `from` on, the calls in the governor's log are the first `attempts` runner
      calls in order: a failure for each one that raised, a success for each that returned. */
  ghost predicate LogFollows(log: seq<Event>, from: nat, runner: nat -> RunnerOutcome, attempts: nat) {
    if |log| <= from then attempts == 0
    else
      match log[|log| - 1]
      case Checked(_, _) => LogFollows(log[..|log| - 1], from, runner, attempts)
      case Failed(_, _) => attempts > 0 && runner(attempts).Raised? && LogFollows(log[..|log| - 1], from, runner, attempts - 1)
      case Succeeded(_) => attempts > 0 && runner(attempts).Returned? && LogFollows(log[..|log| - 1], from, runner, attempts - 1)
  }

  ghost function AllFindings(history: seq<Entry>): seq<string> {
    if history == [] then [] else AllFindings(history[..|history| - 1]) + history[|history| - 1].findings
  }

  ghost function ReportOn(history: seq<Entry>, reason: StopReason): Report {
    Report(if history == [] then 0.0 else history[|history| - 1].score, |history|, reason == CONVERGED, reason,
           Scores(history), history, AllFindings(history))
  }

  /** A report repeats the history: the final score is the last one, the trajectory holds every score. */
  lemma ReportMeans(history: seq<Entry>, reason: StopReason)
    ensures var r := ReportOn(history, reason);
            && r.history == history && r.stopReason == reason && (r.converged <==> reason == CONVERGED)
            && r.iterations == |r.scoreTrajectory| == |history|
            && (forall k :: 0 <= k < |history| ==> r.scoreTrajectory[k] == history[k].score)
            && r.finalScore == if history == [] then 0.0 else history[|history| - 1].score
  {
  }

  lemma {:induction false} FindingsConcat(a: seq<Entry>, b: seq<Entry>)
    ensures AllFindings(a + b) == AllFindings(a) + AllFindings(b)
  {
    if b == [] {
      assert a + b == a;
    } else {
      var n := |b| - 1;
      assert (a + b)[..|a + b| - 1] == a + b[..n];
      FindingsConcat(a, b[..n]);
      assert AllFindings(a) + (AllFindings(b[..n]) + b[n].findings) == (AllFindings(a) + AllFindings(b[..n])) + b[n].findings;
    }
  }

  /** The findings of every entry are there, in their place between those of the others. */
  lemma FindingsInOrder(before: seq<Entry>, e: Entry, after: seq<Entry>)
    ensures AllFindings(before + [e] + after) == AllFindings(before) + e.findings + AllFindings(after)
  {
    FindingsConcat(before + [e], after);
    assert (before + [e])[..|before|] == before;
  }

  /** How the log of a governed run grows by one event. */
  lemma LogGrows(log: seq<Event>, from: nat, runner: nat -> RunnerOutcome, attempts: nat, e: Event)
    requires from <= |log| && LogFollows(log, from, runner, attempts) && CallsHeldBack(log, from)
    requires !e.Checked? ==> StateAfter(log) != OPEN
    requires e.Failed? ==> runner(attempts + 1).Raised?
    requires e.Succeeded? ==> runner(attempts + 1).Returned?
    ensures LogFollows(log + [e], from, runner, if e.Checked? then attempts else attempts + 1)
    ensures CallsHeldBack(log + [e], from)
    ensures log <= log + [e] && (log + [e])[..|log|] == log
  {
    var longer := log + [e];
    assert longer[..|log|] == log;
    forall k | from <= k < |longer|
      ensures HeldBackAt(longer, k)
    {
      if k < |log| {
        assert HeldBackAt(log, k) && longer[..k] == log[..k];
      }
    }
  }

  /** A check right after a failure, or first of all. */
  lemma LogChecked(log: seq<Event>, from: nat, runner: nat -> RunnerOutcome, attempts: nat, reading: nat -> real, a: nat, b: nat, c: nat)
    requires from <= |log| && LogFollows(log, from, runner, attempts) && CallsHeldBack(log, from)
    requires Timed(log, from, reading, a, c) && StateAfter(log) == OPEN && a <= b && b + 2 <= c
    requires |log| > from ==>
               log[|log| - 1].Failed? && a + 2 <= b && TakenAt(log[|log| - 1].at, reading, b - 2)
    ensures var longer := log + [Checked(reading(b + 1), reading(b + 2))];
            LogFollows(longer, from, runner, attempts) && CallsHeldBack(longer, from) && Timed(longer, from, reading, a, c)
  {
    var e := Checked(reading(b + 1), reading(b + 2));
    LogGrows(log, from, runner, attempts, e);
    assert TakenAt(e.at, reading, b + 1);
    if |log| > from {
      assert RightAfter(log[|log| - 1].at, e.at, reading, a, c) by {
        var t: nat := b - 2;
        assert TakenAt(e.at, reading, t + 3);
      }
    }
    TimedGrows(log, from, reading, a, c, e);
  }

  lemma LogFailed(log: seq<Event>, from: nat, runner: nat -> RunnerOutcome, attempts: nat, reading: nat -> real, a: nat, b: nat, c: nat)
    requires from <= |log| && LogFollows(log, from, runner, attempts) && CallsHeldBack(log, from)
    requires Timed(log, from, reading, a, b) && StateAfter(log) != OPEN && runner(attempts + 1).Raised? && a <= b < c
    ensures var longer := log + [Failed(reading(b), reading(b + 1))];
            LogFollows(longer, from, runner, attempts + 1) && CallsHeldBack(longer, from) && Timed(longer, from, reading, a, c)
  {
    var e := Failed(reading(b), reading(b + 1));
    LogGrows(log, from, runner, attempts, e);
    TimedWidens(log, from, reading, a, b, c);
    assert TakenAt(e.at, reading, b);
    TimedGrows(log, from, reading, a, c, e);
  }

  lemma LogSucceeded(log: seq<Event>, from: nat, runner: nat -> RunnerOutcome, attempts: nat, reading: nat -> real, a: nat, b: nat, c: nat)
    requires from <= |log| && LogFollows(log, from, runner, attempts) && CallsHeldBack(log, from)
    requires Timed(log, from, reading, a, b) && StateAfter(log) != OPEN && runner(attempts + 1).Returned? && b <= c
    ensures var longer := log + [Succeeded(reading(b))];
            LogFollows(longer, from, runner, attempts + 1) && CallsHeldBack(longer, from) && Timed(longer, from, reading, a, c)
  {
    LogGrows(log, from, runner, attempts, Succeeded(reading(b)));
    TimedWidens(log, from, reading, a, b, c);
    TimedGrows(log, from, reading, a, c, Succeeded(reading(b)));
  }

  /** The readings of the clock that belong to a runner call: the check of the budget and the look at
      the clock before it, and the time of its entry, if it has one. */
  datatype Times = Times(check: nat, look: nat, stamp: nat)

  /** The check found time left in the budget and the look found the run, begun at reading `a`, in time. */
  ghost predicate LetThrough(t: Times, reading: nat -> real, a: nat, d: Deadlines) {
    && a < t.check <= t.look
    && !Reached(reading(t.check) - d.budgetStart, d.maxElapsed)
    && reading(t.look) - reading(a) <= d.timeout
  }

  /** The two thresholds of the stopping criteria. */
  datatype Criteria = Criteria(threshold: real, delta: real)

  /** All that the history says of the first `|times|` runner calls, made between readings `a` and `b`.
      Every call, raised or returned, was let through after the one before it was over. One that raised
      left nothing behind; one that returned has its entry, which notes what was returned and was timed at a
      reading after the call, and no criterion was met before it. */
  ghost predicate Tells(history: seq<Entry>, times: seq<Times>, runner: nat -> RunnerOutcome, c: Criteria,
                        reading: nat -> real, a: nat, b: nat, d: Deadlines) {
    if times == [] then history == []
    else
      var n, m := |times| - 1, |history| - 1;
      && LetThrough(times[n], reading, a, d) && times[n].look < b
      && if runner(n + 1).Raised? then Tells(history, times[..n], runner, c, reading, a, times[n].check, d)
         else
           && history != [] && Notes(history[m], n + 1, runner(n + 1))
           && times[n].look < times[n].stamp < b && history[m].elapsed == reading(times[n].stamp) - reading(a)
           && !Fires(Scores(history[..m]), c.threshold, c.delta)
           && Tells(history[..m], times[..n], runner, c, reading, a, times[n].check, d)
  }

  lemma TellsLater(history: seq<Entry>, times: seq<Times>, runner: nat -> RunnerOutcome, c: Criteria,
                   reading: nat -> real, a: nat, b: nat, b': nat, d: Deadlines)
    requires Tells(history, times, runner, c, reading, a, b, d) && b <= b'
    ensures Tells(history, times, runner, c, reading, a, b', d)
  {
  }

  /** One more call, which raised. */
  lemma TellsRaised(history: seq<Entry>, times: seq<Times>, runner: nat -> RunnerOutcome, c: Criteria,
                    reading: nat -> real, a: nat, b: nat, d: Deadlines, t: Times)
    requires Tells(history, times, runner, c, reading, a, t.check, d) && LetThrough(t, reading, a, d)
    requires runner(|times| + 1).Raised? && t.look < b
    ensures Tells(history, times + [t], runner, c, reading, a, b, d)
  {
    assert (times + [t])[..|times|] == times;
  }

  /** One more call, which returned. */
  lemma TellsReturned(history: seq<Entry>, times: seq<Times>, runner: nat -> RunnerOutcome, c: Criteria,
                      reading: nat -> real, a: nat, b: nat, d: Deadlines, e: Entry, t: Times)
    requires Tells(history, times, runner, c, reading, a, t.check, d) && LetThrough(t, reading, a, d)
    requires !Fires(Scores(history), c.threshold, c.delta) && Notes(e, |times| + 1, runner(|times| + 1))
    requires t.look < t.stamp < b && e.elapsed == reading(t.stamp) - reading(a)
    ensures Tells(history + [e], times + [t], runner, c, reading, a, b, d)
  {
    assert (times + [t])[..|times|] == times && (history + [e])[..|history|] == history;
  }

  /** In particular the history is what the runner returned, and no proper prefix of it met a criterion. */
  lemma {:induction false} TellsAll(history: seq<Entry>, times: seq<Times>, runner: nat -> RunnerOutcome, c: Criteria,
                                    reading: nat -> real, a: nat, b: nat, d: Deadlines)
    requires Tells(history, times, runner, c, reading, a, b, d)
    ensures FollowsRunner(history, runner, |times|) && |history| <= |times|
    ensures QuietBefore(Scores(history), c.threshold, c.delta)
    decreases |times|
  {
    if times != [] {
      var n, m := |times| - 1, |history| - 1;
      if runner(n + 1).Raised? {
        TellsAll(history, times[..n], runner, c, reading, a, times[n].check, d);
      } else {
        var front := history[..m];
        TellsAll(front, times[..n], runner, c, reading, a, times[n].check, d);
        assert history == front + [history[m]];
        ScoresGrow(front, history[m]);
        QuietGrows(Scores(front), c.threshold, c.delta, history[m].score);
      }
    }
  }

  lemma ScoresGrow(history: seq<Entry>, e: Entry)
    ensures Scores(history + [e]) == Scores(history) + [e.score]
  {
  }

  lemma QuietGrows(scores: seq<real>, threshold: real, delta: real, score: real)
    requires QuietBefore(scores, threshold, delta) && !Fires(scores, threshold, delta)
    ensures QuietBefore(scores + [score], threshold, delta)
  {
    var longer := scores + [score];
    forall n | 0 <= n < |longer|
      ensures QuietAt(longer, n, threshold, delta)
    {
      assert longer[..n] == scores[..n];
      assert scores[..|scores|] == scores;
      assert n < |scores| ==> QuietAt(scores, n, threshold, delta);
    }
  }

  // ---- The loop -----------------------------------------------------------------

  class ConvergenceLoop {
    const clock: Clock
    const maxIterations: int
    const convergenceDelta: real
    const regressionThreshold: real
    const timeoutSeconds: real
    const governor: ResourceGovernor?
    var history: seq<Entry>
    ghost var times: seq<Times>

    constructor (clock: Clock, governor: ResourceGovernor?, maxIterations: int := 5, convergenceDelta: real := 0.5,
                 regressionThreshold: real := -20.0, timeoutSeconds: real := 3600.0)
      ensures this.clock == clock && this.governor == governor && this.maxIterations == maxIterations
      ensures this.convergenceDelta == convergenceDelta && this.regressionThreshold == regressionThreshold
      ensures this.timeoutSeconds == timeoutSeconds && history == []
    {
      this.clock := clock;
      this.governor := governor;
      this.maxIterations := maxIterations;
      this.convergenceDelta := convergenceDelta;
      this.regressionThreshold := regressionThreshold;
      this.timeoutSeconds := timeoutSeconds;
      history, times := [], [];
    }

    ghost predicate Ready()
      reads governor, if governor != null then {governor.circuitBreaker} else {}
    {
      governor != null ==> governor.Valid() && governor.clock == clock
    }

    ghost function Footprint(): set<object> {
      {clock, this} + if governor != null then {governor, governor.budget, governor.circuitBreaker} else {}
    }

    method GovernorStopReason() returns (reason: StopReason)
      ensures reason == if governor != null && governor.circuitBreaker.state == OPEN then CIRCUIT_OPEN else RESOURCE_EXHAUSTED
    {
      if governor != null && governor.circuitBreaker.state == OPEN {
        return CIRCUIT_OPEN;
      }
      return RESOURCE_EXHAUSTED;
    }

    ghost function Limits(): Criteria {
      Criteria(regressionThreshold, convergenceDelta)
    }

    /** The scores so far meet neither criterion. */
    ghost predicate Quiet()
      reads this
    {
      !Fires(Scores(history), regressionThreshold, convergenceDelta)
    }

    /** What the governor's log has recorded since the run began, at readings before `until`. */
    ghost predicate Follows(origin: Origin, runner: nat -> RunnerOutcome, attempts: nat, until: nat)
      requires governor != null
      reads governor
    {
      && origin.log <= governor.log
      && LogFollows(governor.log, |origin.log|, runner, attempts)
      && CallsHeldBack(governor.log, |origin.log|)
      && Timed(governor.log, |origin.log|, clock.reading, origin.ticks, until)
    }

    /** Log and budget together. */
    ghost predicate Governed(origin: Origin, runner: nat -> RunnerOutcome, attempts: nat)
      requires governor != null
      reads this, clock, governor, governor.budget
    {
      && Follows(origin, runner, attempts, clock.ticks)
      && governor.budget.callsUsed == origin.calls + |history|
      && governor.budget.tokensUsed == origin.tokens
      && governor.budget.startTime == origin.deadlines.budgetStart
      && governor.budget.maxElapsed == origin.deadlines.maxElapsed
      && (attempts > 0 ==> Afforded(origin, runner, attempts))
    }

    /** When the last call was made, and so at every call before, there were calls and tokens left. */
    ghost predicate Afforded(origin: Origin, runner: nat -> RunnerOutcome, attempts: nat)
      requires governor != null
      reads governor, governor.budget
    {
      && governor.budget.callsUsed - (if runner(attempts).Returned? then 1 else 0) < governor.budget.maxCalls
      && !Reached(origin.tokens, governor.budget.maxTokens)
    }

    /** Everything known between two steps of the loop, after `attempts` runner calls. */
    ghost predicate Running(origin: Origin, runner: nat -> RunnerOutcome, attempts: nat)
      reads this, clock, governor, if governor != null then {governor.budget, governor.circuitBreaker} else {}
    {
      && Ready()
      && origin.ticks < clock.ticks
      && |times| == attempts && origin.deadlines.timeout == timeoutSeconds
      && Tells(history, times, runner, Limits(), clock.reading, origin.ticks, clock.ticks, origin.deadlines)
      && (governor != null ==> Governed(origin, runner, attempts))
      && (governor == null ==> origin.deadlines.maxElapsed == Unlimited && forall k :: 1 <= k <= attempts ==> runner(k).Returned?)
    }

    /** At reading `check` the governor, if there is one, had nothing against another call. */
    ghost predicate Cleared(origin: Origin, runner: nat -> RunnerOutcome, check: nat)
      reads this, clock, governor, if governor != null then {governor.budget, governor.circuitBreaker} else {}
    {
      && !Open()
      && origin.ticks < check <= clock.ticks
      && Tells(history, times, runner, Limits(), clock.reading, origin.ticks, check, origin.deadlines)
      && !Reached(clock.reading(check) - origin.deadlines.budgetStart, origin.deadlines.maxElapsed)
      && (governor != null ==>
          governor.budget.RemainingCalls() > 0 && !Reached(governor.budget.tokensUsed, governor.budget.maxTokens))
    }

    /** And the latest reading, after that, was a look at the clock that found the run in time. */
    ghost predicate InTime(origin: Origin, runner: nat -> RunnerOutcome, check: nat)
      reads this, clock, governor, if governor != null then {governor.budget, governor.circuitBreaker} else {}
    {
      && Cleared(origin, runner, check) && check < clock.ticks
      && clock.reading(clock.ticks - 1) - clock.reading(origin.ticks) <= timeoutSeconds
    }

    ghost predicate Open()
      reads governor, if governor != null then {governor.circuitBreaker} else {}
    {
      governor != null && governor.circuitBreaker.state == OPEN
    }

    /** If the breaker is open, that is news of the last two readings or older than the run. */
    ghost predicate OpenIsNews(origin: Origin)
      reads this, clock, governor, if governor != null then {governor.circuitBreaker} else {}
    {
      Open() ==>
        var n := |governor.log|;
        n == |origin.log| ||
        (n > |origin.log| && governor.log[n - 1].Failed? && origin.ticks + 2 <= clock.ticks &&
         TakenAt(governor.log[n - 1].at, clock.reading, clock.ticks - 2))
    }

    /** A limit of the budget has been reached: by the tokens, by the calls, or by the latest reading
        of the clock. */
    ghost predicate BudgetSpent()
      requires governor != null
      reads this, clock, governor, governor.budget
    {
      || Reached(governor.budget.tokensUsed, governor.budget.maxTokens)
      || governor.budget.RemainingCalls() <= 0
      || (clock.ticks > 0 && Reached(clock.reading(clock.ticks - 1) - governor.budget.startTime, governor.budget.maxElapsed))
    }

    /** The source's `if governor is not None and not governor.check()`, which it makes before every
        attempt and after every failure. */
    method Gate(ghost origin: Origin, ghost runner: nat -> RunnerOutcome, ghost attempts: nat)
      returns (stop: Option<StopReason>, ghost check: nat)
      requires Running(origin, runner, attempts) && OpenIsNews(origin)
      modifies Footprint() - {this}
      ensures Running(origin, runner, attempts)
      ensures stop == None ==> Cleared(origin, runner, check)
      ensures stop.Some? ==> governor != null && stop.value == if Open() then CIRCUIT_OPEN else RESOURCE_EXHAUSTED
      ensures stop == Some(RESOURCE_EXHAUSTED) ==> BudgetSpent()
      ensures Open() ==> old(Open())
      ensures old(clock.ticks) <= clock.ticks
    {
      if governor == null {
        return None, clock.ticks;
      }
      var ok;
      ok, check := Consult(origin, runner, attempts);
      if ok {
        return None, check;
      }
      var reason := GovernorStopReason();
      return Some(reason), check;
    }

    /** Asks the governor, and notes in its log what the answer took. */
    method Consult(ghost origin: Origin, ghost runner: nat -> RunnerOutcome, ghost attempts: nat) returns (ok: bool, ghost check: nat)
      requires Running(origin, runner, attempts) && OpenIsNews(origin) && governor != null
      modifies Footprint() - {this}
      ensures Running(origin, runner, attempts)
      ensures ok ==> Cleared(origin, runner, check)
      ensures !ok && !Open() ==> BudgetSpent()
      ensures Open() ==> old(Open())
      ensures old(clock.ticks) <= clock.ticks
    {
      ghost var log := governor.log;
      check := clock.ticks;
      ghost var spent;
      ok, spent := governor.Check();
      TellsLater(history, times, runner, Limits(), clock.reading, origin.ticks, check, clock.ticks, origin.deadlines);
      TimedWidens(log, |origin.log|, clock.reading, origin.ticks, check, clock.ticks);
      if governor.log != log {
        LogChecked(log, |origin.log|, runner, attempts, clock.reading, origin.ticks, check, clock.ticks);
      }
    }

    /** Everything known once the governor has heard of a call that raised, except that its times are
        still to be noted; `check` and `look` are the readings at which the call was let through. */
    ghost predicate FailureReported(origin: Origin, runner: nat -> RunnerOutcome, attempts: nat, check: nat, look: nat)
      requires governor != null
      reads this, clock, governor, governor.budget, governor.circuitBreaker
    {
      && Ready()
      && look < clock.ticks && LetThrough(Times(check, look, 0), clock.reading, origin.ticks, origin.deadlines)
      && |times| == attempts && origin.deadlines.timeout == timeoutSeconds
      && Tells(history, times, runner, Limits(), clock.reading, origin.ticks, check, origin.deadlines)
      && Governed(origin, runner, attempts + 1)
    }

    /** The governor hears of a call that raised. */
    method ReportFailure(ghost origin: Origin, ghost runner: nat -> RunnerOutcome, ghost attempts: nat, ghost check: nat)
      requires Running(origin, runner, attempts) && governor != null && InTime(origin, runner, check)
      requires runner(attempts + 1).Raised?
      modifies Footprint() - {this}
      ensures FailureReported(origin, runner, attempts, check, old(clock.ticks) - 1) && OpenIsNews(origin)
      ensures old(clock.ticks) <= clock.ticks
    {
      ghost var log, tick := governor.log, clock.ticks;
      governor.RecordFailure();
      LogFailed(log, |origin.log|, runner, attempts, clock.reading, origin.ticks, tick, clock.ticks);
    }

    ghost method NoteFailure(origin: Origin, runner: nat -> RunnerOutcome, attempts: nat, check: nat, look: nat)
      requires governor != null && FailureReported(origin, runner, attempts, check, look) && OpenIsNews(origin)
      requires runner(attempts + 1).Raised?
      modifies this`times
      ensures Running(origin, runner, attempts + 1) && OpenIsNews(origin)
    {
      var t := Times(check, look, 0);
      TellsRaised(history, times, runner, Limits(), clock.reading, origin.ticks, clock.ticks, origin.deadlines, t);
      times := times + [t];
    }

    /** The runner raised: one more failure for the breaker, and the governor may stop the loop. */
    method HandleFailure(ghost origin: Origin, ghost runner: nat -> RunnerOutcome, ghost attempts: nat, ghost check: nat)
      returns (stop: Option<StopReason>)
      requires Running(origin, runner, attempts) && governor != null && InTime(origin, runner, check)
      requires runner(attempts + 1).Raised?
      modifies Footprint() - {this}, this`times
      ensures Running(origin, runner, attempts + 1)
      ensures stop == None ==> !Open()
      ensures stop.Some? ==> stop.value == if Open() then CIRCUIT_OPEN else RESOURCE_EXHAUSTED
      ensures stop == Some(RESOURCE_EXHAUSTED) ==> BudgetSpent()
      ensures old(clock.ticks) <= clock.ticks
    {
      ghost var look := clock.ticks - 1;
      ReportFailure(origin, runner, attempts, check);
      NoteFailure(origin, runner, attempts, check, look);
      ghost var next;
      stop, next := Gate(origin, runner, attempts + 1);
    }

    /** Everything known once the governor has heard of a call that returned, whose entry is still to
        be made; `check` and `look` are the readings at which the call was let through. */
    ghost predicate Reported(origin: Origin, runner: nat -> RunnerOutcome, attempts: nat, check: nat, look: nat)
      reads this, clock, governor, if governor != null then {governor.budget, governor.circuitBreaker} else {}
    {
      && Ready() && !Open()
      && look < clock.ticks && LetThrough(Times(check, look, look + 1), clock.reading, origin.ticks, origin.deadlines)
      && |times| == attempts && origin.deadlines.timeout == timeoutSeconds
      && Tells(history, times, runner, Limits(), clock.reading, origin.ticks, check, origin.deadlines)
      && (governor != null ==>
          && Follows(origin, runner, attempts + 1, clock.ticks + 1)
          && governor.budget.callsUsed == origin.calls + |history| + 1 <= governor.budget.maxCalls
          && governor.budget.tokensUsed == origin.tokens && !Reached(origin.tokens, governor.budget.maxTokens)
          && governor.budget.startTime == origin.deadlines.budgetStart
          && governor.budget.maxElapsed == origin.deadlines.maxElapsed)
      && (governor == null ==>
          origin.deadlines.maxElapsed == Unlimited && forall k :: 1 <= k <= attempts + 1 ==> runner(k).Returned?)
    }

    /** The governor hears of a call that returned. */
    method ReportSuccess(ghost origin: Origin, ghost runner: nat -> RunnerOutcome, ghost attempts: nat, ghost check: nat)
      requires Running(origin, runner, attempts) && InTime(origin, runner, check) && runner(attempts + 1).Returned?
      modifies Footprint() - {this}
      ensures Reported(origin, runner, attempts, check, old(clock.ticks) - 1)
    {
      if governor != null {
        ghost var log, tick := governor.log, clock.ticks;
        governor.Consume(0.0, 1);
        governor.RecordSuccess();
        LogSucceeded(log, |origin.log|, runner, attempts, clock.reading, origin.ticks, tick, clock.ticks + 1);
      }
    }

    /** The entry for a call that returned. */
    method AddEntry(ghost origin: Origin, ghost runner: nat -> RunnerOutcome, iteration: nat, result: RunnerOutcome,
                    startTime: real, ghost check: nat, ghost look: nat)
      requires iteration >= 1 && Reported(origin, runner, iteration - 1, check, look) && Quiet()
      requires result == runner(iteration) && result.Returned? && startTime == clock.reading(origin.ticks)
      modifies this`history, this`times, clock
      ensures Running(origin, runner, iteration) && !Open()
      ensures old(clock.ticks) <= clock.ticks
    {
      ghost var t := Times(check, look, clock.ticks);
      var now := clock.Now();
      var e := Entry(iteration, result.score.GetOr(0.0), result.findings.GetOr([]), result.domainScores.GetOr(map[]), now - startTime);
      TellsReturned(history, times, runner, Limits(), clock.reading, origin.ticks, clock.ticks, origin.deadlines, e, t);
      history, times := history + [e], times + [t];
    }

    /** What the reason of a stop says about the scores, the breaker, the budget and the clock. The
        readings it speaks of are the latest one taken and the one taken when the run began. */
    ghost predicate Justified(reason: StopReason, start: real)
      reads this, clock, governor, if governor != null then {governor.budget, governor.circuitBreaker} else {}
    {
      && (reason == REGRESSION <==> Regressed(Scores(history), regressionThreshold))
      && (reason == CONVERGED <==>
          !Regressed(Scores(history), regressionThreshold) && Settled(Scores(history), convergenceDelta))
      && (reason == TIMEOUT ==> clock.ticks > 0 && clock.reading(clock.ticks - 1) - start > timeoutSeconds)
      && (reason == CIRCUIT_OPEN <==> Open())
      && (reason == RESOURCE_EXHAUSTED ==> governor != null && BudgetSpent())
    }

    /** The two stopping criteria, regression first. */
    method Judge() returns (pass: Pass)
      ensures pass == Continue <==> !Fires(Scores(history), regressionThreshold, convergenceDelta)
      ensures pass == Stop(REGRESSION) <==> Regressed(Scores(history), regressionThreshold)
      ensures pass == Continue || pass == Stop(REGRESSION) || pass == Stop(CONVERGED)
    {
      var scores := Scores(history);
      if Regressed(scores, regressionThreshold) {
        return Stop(REGRESSION);
      }
      if Settled(scores, convergenceDelta) {
        return Stop(CONVERGED);
      }
      return Continue;
    }

    /** The runner returned: one call used, one success for the breaker, one entry of history; then the
        criteria decide. */
    method TakeResult(ghost origin: Origin, ghost runner: nat -> RunnerOutcome, iteration: nat, result: RunnerOutcome, startTime: real,
                      ghost check: nat)
      returns (pass: Pass)
      requires iteration >= 1 && Running(origin, runner, iteration - 1) && Quiet() && InTime(origin, runner, check)
      requires result == runner(iteration) && result.Returned? && startTime == clock.reading(origin.ticks)
      modifies Footprint()
      ensures Running(origin, runner, iteration) && !Open()
      ensures pass == Continue <==> !Fires(Scores(history), regressionThreshold, convergenceDelta)
      ensures pass == Stop(REGRESSION) <==> Regressed(Scores(history), regressionThreshold)
      ensures pass == Continue || pass == Stop(REGRESSION) || pass == Stop(CONVERGED)
      ensures old(clock.ticks) <= clock.ticks
    {
      ghost var look := clock.ticks - 1;
      ReportSuccess(origin, runner, iteration - 1, check);
      AddEntry(origin, runner, iteration, result, startTime, check, look);
      pass := Judge();
    }

    /** One runner call, once the governor and the clock have let it through. */
    method Attempt(ghost origin: Origin, runner: nat -> RunnerOutcome, iteration: nat, startTime: real, ghost check: nat)
      returns (pass: Pass)
      requires iteration >= 1 && Running(origin, runner, iteration - 1) && Quiet() && InTime(origin, runner, check)
      requires startTime == clock.reading(origin.ticks)
      modifies Footprint()
      ensures pass != Raise ==> Running(origin, runner, iteration)
      ensures pass == Continue ==> Quiet() && !Open()
      ensures pass.Stop? ==> pass.reason !in {MAX_ITERATIONS, TIMEOUT} && Justified(pass.reason, startTime)
      ensures pass == Raise ==>
                && governor == null && runner(iteration).Raised?
                && Running(origin, runner, iteration - 1) && history == old(history)
                && clock.reading(clock.ticks - 1) - startTime <= timeoutSeconds
      ensures old(clock.ticks) <= clock.ticks
    {
      var result := runner(iteration);
      if result.Returned? {
        pass := TakeResult(origin, runner, iteration, result, startTime, check);
      } else if governor != null {
        var stop := HandleFailure(origin, runner, iteration - 1, check);
        pass := if stop.Some? then Stop(stop.value) else Continue;
      } else {
        pass := Raise;
      }
    }

    /** Has the run lasted longer than the timeout? */
    method LookAtClock(ghost origin: Origin, ghost runner: nat -> RunnerOutcome, ghost attempts: nat, startTime: real, ghost check: nat)
      returns (late: bool)
      requires Running(origin, runner, attempts) && Cleared(origin, runner, check) && startTime == clock.reading(origin.ticks)
      modifies clock
      ensures Running(origin, runner, attempts)
      ensures clock.ticks == old(clock.ticks) + 1 && (late <==> clock.reading(clock.ticks - 1) - startTime > timeoutSeconds)
      ensures !late ==> InTime(origin, runner, check)
    {
      ghost var tick := clock.ticks;
      var now := clock.Now();
      TellsLater(history, times, runner, Limits(), clock.reading, origin.ticks, tick, clock.ticks, origin.deadlines);
      if governor != null {
        TimedWidens(governor.log, |origin.log|, clock.reading, origin.ticks, tick, clock.ticks);
      }
      late := now - startTime > timeoutSeconds;
    }

    /** The body of the loop: at most one runner call. */
    method OnePass(ghost origin: Origin, runner: nat -> RunnerOutcome, iteration: nat, startTime: real)
      returns (pass: Pass, ghost attempts: nat)
      requires iteration >= 1 && Running(origin, runner, iteration - 1) && Quiet() && OpenIsNews(origin)
      requires startTime == clock.reading(origin.ticks)
      modifies Footprint()
      ensures iteration - 1 <= attempts <= iteration
      ensures pass != Raise ==> Running(origin, runner, attempts)
      ensures pass == Continue ==> attempts == iteration && Quiet() && !Open()
      ensures pass.Stop? ==> pass.reason != MAX_ITERATIONS && Justified(pass.reason, startTime)
      ensures pass == Raise ==>
                && governor == null && attempts == iteration && runner(iteration).Raised?
                && Running(origin, runner, iteration - 1) && history == old(history)
                && clock.reading(clock.ticks - 1) - startTime <= timeoutSeconds
      ensures old(clock.ticks) <= clock.ticks
    {
      attempts := iteration - 1;
      var stop;
      ghost var check;
      stop, check := Gate(origin, runner, attempts);
      if stop.Some? {
        pass := Stop(stop.value);
      } else {
        pass, attempts := Proceed(origin, runner, iteration, startTime, check);
      }
    }

    /** The governor has nothing against the next call: unless it is too late, it is made. */
    method Proceed(ghost origin: Origin, runner: nat -> RunnerOutcome, iteration: nat, startTime: real, ghost check: nat)
      returns (pass: Pass, ghost attempts: nat)
      requires iteration >= 1 && Running(origin, runner, iteration - 1) && Quiet() && Cleared(origin, runner, check)
      requires startTime == clock.reading(origin.ticks)
      modifies Footprint()
      ensures iteration - 1 <= attempts <= iteration
      ensures pass != Raise ==> Running(origin, runner, attempts)
      ensures pass == Continue ==> attempts == iteration && Quiet() && !Open()
      ensures pass.Stop? ==> pass.reason != MAX_ITERATIONS && Justified(pass.reason, startTime)
      ensures pass == Raise ==>
                && governor == null && attempts == iteration && runner(iteration).Raised?
                && Running(origin, runner, iteration - 1) && history == old(history)
                && clock.reading(clock.ticks - 1) - startTime <= timeoutSeconds
      ensures old(clock.ticks) <= clock.ticks
    {
      var late := LookAtClock(origin, runner, iteration - 1, startTime, check);
      if late {
        return Stop(TIMEOUT), iteration - 1;
      }
      pass := Attempt(origin, runner, iteration, startTime, check);
      attempts := iteration;
    }

    /** Where the governor's log, its budget and the clock stand. */
    ghost function Now(): Origin
      reads clock, governor, if governor != null then {governor.budget} else {}
    {
      if governor == null then Origin([], 0, 0.0, clock.ticks, Deadlines(timeoutSeconds, 0.0, Unlimited))
      else Origin(governor.log, governor.budget.callsUsed, governor.budget.tokensUsed, clock.ticks,
                  Deadlines(timeoutSeconds, governor.budget.startTime, governor.budget.maxElapsed))
    }

    /** The most calls a run may make. */
    function Limit(): nat {
      if maxIterations > 0 then maxIterations else 0
    }

    method Run(runner: nat -> RunnerOutcome) returns (outcome: LoopOutcome, ghost attempts: nat)
      requires Ready()
      modifies Footprint()
      // The history is exactly what the runner returned, attempt by attempt; every call, raised or
      // returned, was let through in time and with tokens, calls and time left in the budget; no earlier
      // prefix of the history met a stopping criterion; the governor has recorded every call, at the
      // clock's readings, and let none through while open.
      ensures outcome.Finished? ==> Running(old(Now()), runner, attempts) && attempts <= Limit()
      ensures governor != null && history != [] ==> |history| <= old(governor.budget.RemainingCalls())
      // Without a governor, and only then, the first exception passes through.
      ensures outcome == RunnerRaised ==>
                && governor == null && 0 < attempts <= Limit() && runner(attempts).Raised?
                && Running(old(Now()), runner, attempts - 1)
                && clock.reading(clock.ticks - 1) - clock.reading(old(clock.ticks)) <= timeoutSeconds
      // The report is a function of the history and the stop reason, and the reason means what it says.
      ensures outcome.Finished? ==> outcome.report == ReportOn(history, outcome.report.stopReason)
      ensures outcome.Finished? && outcome.report.stopReason != MAX_ITERATIONS ==>
                Justified(outcome.report.stopReason, clock.reading(old(clock.ticks)))
      ensures outcome.Finished? && outcome.report.stopReason == MAX_ITERATIONS ==>
                Quiet() && attempts == Limit() && (Open() ==> attempts == 0 && old(Open()))
      // Read off the trajectory: a run converged after two small steps, regressed after a drop, and before
      // its last score did neither.
      ensures outcome.Finished? ==>
                Explained(outcome.report.scoreTrajectory, outcome.report.stopReason, regressionThreshold, convergenceDelta)
      // Started with the breaker closed, and with less than a cooldown between the latest failure and each
      // check of the breaker, the runner never fails four times in a row, and three times only to stop the run.
      ensures outcome.Finished? && governor != null && old(governor.circuitBreaker.state) == CLOSED ==>
                ChecksAreQuick(governor.log, |old(governor.log)|) ==> FailuresCapped(runner, attempts, outcome.report.stopReason)
    {
      history, times := [], [];
      ghost var origin := Now();
      var startTime := clock.Now();
      var pass;
      pass, attempts := Iterate(origin, runner, startTime);
      if pass == Raise {
        outcome := RunnerRaised;
      } else {
        outcome := Conclude(origin, runner, attempts, pass, startTime);
      }
    }

    /** What is left to do after the loop: the report. */
    method Conclude(ghost origin: Origin, ghost runner: nat -> RunnerOutcome, ghost attempts: nat, pass: Pass, ghost startTime: real)
      returns (outcome: LoopOutcome)
      requires pass != Raise && Running(origin, runner, attempts)
      requires pass == Continue ==> Quiet()
      requires pass.Stop? ==> Justified(pass.reason, startTime)
      requires pass == Continue && Open() ==> attempts == 0
      ensures outcome.Finished? && Explained(outcome.report.scoreTrajectory, outcome.report.stopReason, regressionThreshold, convergenceDelta)
      ensures Running(origin, runner, attempts)
      ensures pass == Continue ==> Quiet()
      ensures pass.Stop? ==> Justified(pass.reason, startTime)
      ensures outcome == Finished(ReportOn(history, if pass.Stop? then pass.reason else MAX_ITERATIONS))
      ensures governor != null && StateAfter(origin.log) == CLOSED && ChecksAreQuick(governor.log, |origin.log|) ==>
                FailuresCapped(runner, attempts, outcome.report.stopReason)
    {
      FailingRunsStop(origin, runner, attempts, if pass.Stop? then pass.reason else MAX_ITERATIONS);
      ReasonExplained(origin, runner, attempts, if pass.Stop? then pass.reason else MAX_ITERATIONS);
      var report := MakeReport(if pass.Stop? then pass.reason else MAX_ITERATIONS);
      outcome := Finished(report);
    }

    lemma ReasonExplained(origin: Origin, runner: nat -> RunnerOutcome, attempts: nat, reason: StopReason)
      requires Running(origin, runner, attempts)
      requires reason == REGRESSION <==> Regressed(Scores(history), regressionThreshold)
      requires reason == CONVERGED <==>
               !Regressed(Scores(history), regressionThreshold) && Settled(Scores(history), convergenceDelta)
      ensures Explained(Scores(history), reason, regressionThreshold, convergenceDelta)
    {
      TellsAll(history, times, runner, Limits(), clock.reading, origin.ticks, clock.ticks, origin.deadlines);
      CriteriaExplain(Scores(history), reason, regressionThreshold, convergenceDelta);
    }

    /** What a row of failing calls does to a run that has ended for `reason`. */
    lemma FailingRunsStop(origin: Origin, runner: nat -> RunnerOutcome, attempts: nat, reason: StopReason)
      requires Running(origin, runner, attempts)
      requires Open() && attempts > 0 ==> reason == CIRCUIT_OPEN
      ensures governor != null && StateAfter(origin.log) == CLOSED && ChecksAreQuick(governor.log, |origin.log|) ==>
                FailuresCapped(runner, attempts, reason)
    {
      if governor != null && StateAfter(origin.log) == CLOSED && ChecksAreQuick(governor.log, |origin.log|) {
        var log, from := governor.log, |origin.log|;
        assert log[..from] == origin.log;
        forall first: nat, r: nat | RaisesInARow(runner, first, r) && first + r <= attempts
          ensures r <= 3 && (r == 3 ==> first + r == attempts && reason == CIRCUIT_OPEN)
        {
          FailingRunnerIsCapped(log, from, runner, attempts, first, r);
        }
      }
    }

    /** The loop, from an empty history. */
    method Iterate(ghost origin: Origin, runner: nat -> RunnerOutcome, startTime: real)
      returns (pass: Pass, ghost attempts: nat)
      requires Running(origin, runner, 0) && history == [] && startTime == clock.reading(origin.ticks)
      requires governor != null ==> governor.log == origin.log
      modifies Footprint()
      ensures pass != Raise ==> Running(origin, runner, attempts) && attempts <= Limit()
      ensures pass == Continue ==> Quiet() && attempts == Limit() && (Open() ==> attempts == 0 && old(Open()))
      ensures pass.Stop? ==> pass.reason != MAX_ITERATIONS && Justified(pass.reason, startTime)
      ensures pass == Raise ==>
                && governor == null && 0 < attempts <= Limit() && runner(attempts).Raised?
                && Running(origin, runner, attempts - 1)
                && clock.reading(clock.ticks - 1) - startTime <= timeoutSeconds
    {
      attempts := 0;
      pass := Continue;
      var iteration := 1;
      while iteration <= maxIterations && pass == Continue
        invariant 0 <= attempts <= iteration <= Limit() + 1
        invariant pass == Continue ==> iteration == attempts + 1 && Quiet() && (Open() ==> attempts == 0 && old(Open()))
        invariant pass == Continue ==> OpenIsNews(origin)
        invariant pass != Raise ==> Running(origin, runner, attempts) && attempts <= Limit()
        invariant pass.Stop? ==> pass.reason != MAX_ITERATIONS && Justified(pass.reason, startTime)
        invariant pass == Raise ==>
                    && governor == null && 0 < attempts <= Limit() && runner(attempts).Raised?
                    && Running(origin, runner, attempts - 1)
                    && clock.reading(clock.ticks - 1) - startTime <= timeoutSeconds
        decreases maxIterations - iteration, pass == Continue
      {
        pass, attempts := OnePass(origin, runner, iteration, startTime);
        if pass == Continue {
          iteration := iteration + 1;
        }
      }
    }

    method MakeReport(stopReason: StopReason) returns (report: Report)
      ensures report == ReportOn(history, stopReason)
    {
      var findings: seq<string> := [];
      for k := 0 to |history|
        invariant findings == AllFindings(history[..k])
      {
        assert history[..k + 1][..k] == history[..k];
        findings := findings + history[k].findings;
      }
      assert history[..|history|] == history;
      var trajectory := Scores(history);
      report := Report(if trajectory != [] then trajectory[|trajectory| - 1] else 0.0, |history|,
                       stopReason == CONVERGED, stopReason, trajectory, history, findings);
    }
  }

  // ---- Consequences for whole runs ------------------------------------------------

  /** A regression stop with more than three entries has its drop at the very last step. */
  lemma LateRegressionIsLast(scores: seq<real>, threshold: real, delta: real)
    requires QuietBefore(scores, threshold, delta) && Regressed(scores, threshold) && |scores| > 3
    ensures scores[|scores| - 1] - scores[|scores| - 2] < threshold
  {
    var n := |scores|;
    assert QuietAt(scores, n - 1, threshold, delta);
  }

  /** Every call of a run was let through. */
  lemma {:induction false} EveryCallLetThrough(history: seq<Entry>, times: seq<Times>, runner: nat -> RunnerOutcome, c: Criteria,
                                               reading: nat -> real, a: nat, b: nat, d: Deadlines, k: nat)
    requires Tells(history, times, runner, c, reading, a, b, d) && k < |times|
    ensures LetThrough(times[k], reading, a, d)
    decreases |times|
  {
    var n, m := |times| - 1, |history| - 1;
    if k < n {
      EveryCallLetThrough(if runner(n + 1).Raised? then history else history[..m], times[..n], runner, c, reading, a,
                          times[n].check, d, k);
    }
  }

  /** On a clock that never runs backwards the elapsed times never fall, and none but the last exceeds
      the timeout: after an entry that does, no call returns. */
  lemma {:induction false} ElapsedTimesRise(history: seq<Entry>, times: seq<Times>, runner: nat -> RunnerOutcome, c: Criteria,
                                            reading: nat -> real, a: nat, b: nat, d: Deadlines)
    requires Monotone(reading) && Tells(history, times, runner, c, reading, a, b, d)
    ensures forall k :: 0 <= k < |history| ==> 0.0 <= history[k].elapsed <= reading(b) - reading(a)
    ensures forall j, k :: 0 <= j < k < |history| ==> history[j].elapsed <= d.timeout && history[j].elapsed <= history[k].elapsed
    decreases |times|
  {
    if times != [] {
      var n, m := |times| - 1, |history| - 1;
      if runner(n + 1).Raised? {
        ElapsedTimesRise(history, times[..n], runner, c, reading, a, times[n].check, d);
        assert reading(times[n].check) <= reading(b);
      } else {
        var front, t := history[..m], times[n];
        ElapsedTimesRise(front, times[..n], runner, c, reading, a, t.check, d);
        assert reading(a) <= reading(t.check) <= reading(t.look) <= reading(t.stamp) <= reading(b);
        forall j | 0 <= j < m
          ensures 0.0 <= history[j].elapsed <= d.timeout && history[j].elapsed <= history[m].elapsed
        {
          assert history[j] == front[j];
        }
        forall j, k | 0 <= j < k < m
          ensures history[j].elapsed <= history[k].elapsed
        {
          assert history[j] == front[j] && history[k] == front[k];
        }
      }
    }
  }

  /** The runner calls `first + 1` to `first + r` all raised. */
  ghost predicate RaisesInARow(runner: nat -> RunnerOutcome, first: nat, r: nat) {
    forall k :: first < k <= first + r ==> runner(k).Raised?
  }

  /** Of the first `attempts` calls no four in a row raised; if three did, they were the last ones and
      the run stopped for the open circuit. */
  ghost predicate FailuresCapped(runner: nat -> RunnerOutcome, attempts: nat, reason: StopReason) {
    forall first: nat, r: nat :: RaisesInARow(runner, first, r) && first + r <= attempts ==>
      r <= 3 && (r == 3 ==> first + r == attempts && reason == CIRCUIT_OPEN)
  }

  /** The failing calls at the end of a log are a row of failures in it. */
  lemma {:induction false} RowCountsRaises(log: seq<Event>, from: nat, runner: nat -> RunnerOutcome, first: nat, r: nat)
    requires from <= |log| && LogFollows(log, from, runner, first + r) && RaisesInARow(runner, first, r)
    ensures r <= Row(log)
    decreases |log|
  {
    if r > 0 {
      var front, last := log[..|log| - 1], log[|log| - 1];
      if last.Checked? {
        RowCountsRaises(front, from, runner, first, r);
      } else {
        assert runner(first + r).Raised?;
        RowCountsRaises(front, from, runner, first, r - 1);
      }
    }
  }

  /** The log as it stood right after runner call `n`. */
  lemma {:induction false} LogAtAttempt(log: seq<Event>, from: nat, runner: nat -> RunnerOutcome, attempts: nat, n: nat)
    returns (k: nat)
    requires from <= |log| && LogFollows(log, from, runner, attempts) && n <= attempts
    ensures from <= k <= |log| && LogFollows(log[..k], from, runner, n)
    ensures n < attempts ==> exists m :: k <= m < |log| && !log[m].Checked?
    decreases |log|
  {
    if n == attempts {
      k := |log|;
      assert log[..k] == log;
    } else {
      var front, last := log[..|log| - 1], log[|log| - 1];
      k := LogAtAttempt(front, from, runner, if last.Checked? then attempts else attempts - 1, n);
      assert front[..k] == log[..k];
      if last.Checked? {
        var m :| k <= m < |front| && !front[m].Checked?;
        assert !log[m].Checked?;
      } else {
        assert k <= |log| - 1;
      }
    }
  }

  /** Started with the breaker closed, and with less than the cooldown between a failure and the
      check after it, a governed run never makes four failing calls in a row; three in a row are
      its last calls and leave the breaker open. */
  lemma FailingRunnerIsCapped(log: seq<Event>, from: nat, runner: nat -> RunnerOutcome, attempts: nat, first: nat, r: nat)
    requires from <= |log| && LogFollows(log, from, runner, attempts)
    requires CallsHeldBack(log, from) && ChecksAreQuick(log, from) && StateAfter(log[..from]) == CLOSED
    requires RaisesInARow(runner, first, r) && first + r <= attempts
    ensures r <= 3
    ensures r == 3 ==> first + r == attempts && StateAfter(log) == OPEN
  {
    var k := LogAtAttempt(log, from, runner, attempts, first + r);
    RowCountsRaises(log[..k], from, runner, first, r);
    FailingCallsAreCapped(log, from, k);
  }
}
