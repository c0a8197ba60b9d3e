/** The API rate limiter: one token bucket, what any run of it admits, and the middleware
    that keeps a bucket for each client. */
module RateLimit {
  import opened Options

  function Min(x: real, y: real): real {
    if x <= y then x else y
  }

  // ---- One bucket -----------------------------------------------------------

  datatype Bucket = Bucket(rate: real, burst: int, tokens: real, lastRefill: real)

  function Fresh(rate: real, burst: int, now: real): Bucket {
    Bucket(rate, burst, burst as real, now)
  }

  /** What accrues in a stretch of time. */
  function Earned(rate: real, elapsed: real): real {
    elapsed * rate
  }

  /** The tokens on hand at time `now`, before anything is taken. */
  function Refilled(b: Bucket, now: real): real {
    Min(b.burst as real, b.tokens + Earned(b.rate, now - b.lastRefill))
  }

  function AfterConsume(b: Bucket, now: real, cost: real): Bucket {
    var t := Refilled(b, now);
    b.(tokens := if t >= cost then t - cost else t, lastRefill := now)
  }

  class TokenBucket {
    const rate: real
    const burst: int
    var tokens: real
    var lastRefill: real

    ghost function State(): Bucket
      reads this
    {
      Bucket(rate, burst, tokens, lastRefill)
    }

    constructor (rate: real, burst: int, now: real)
      ensures State() == Fresh(rate, burst, now)
    {
      this.rate := rate;
      this.burst := burst;
      this.tokens := burst as real;
      this.lastRefill := now;
    }

    /** `now` is the reading of the monotonic clock. */
    method Consume(now: real, cost: real := 1.0) returns (admitted: bool)
      modifies this`tokens, this`lastRefill
      ensures State() == AfterConsume(old(State()), now, cost)
      ensures admitted <==> Refilled(old(State()), now) >= cost
    {
      var elapsed := now - lastRefill;
      tokens := Min(burst as real, tokens + Earned(rate, elapsed));
      lastRefill := now;
      if tokens >= cost {
        tokens := tokens - cost;
        return true;
      }
      return false;
    }
  }

  // ---- Whole runs of one bucket ---------------------------------------------

  datatype Call = Call(at: real, cost: real)

  /** The bucket after a series of calls. */
  ghost function AfterRun(b: Bucket, calls: seq<Call>): Bucket {
    if calls == [] then b
    else
      var last := calls[|calls| - 1];
      AfterConsume(AfterRun(b, calls[..|calls| - 1]), last.at, last.cost)
  }

  /** The tokens on hand when call `k` is made. */
  ghost function OnHand(b: Bucket, calls: seq<Call>, k: nat): real
    requires k < |calls|
  {
    Refilled(AfterRun(b, calls[..k]), calls[k].at)
  }

  ghost predicate Admitted(b: Bucket, calls: seq<Call>, k: nat)
    requires k < |calls|
  {
    OnHand(b, calls, k) >= calls[k].cost
  }

  /** What call `k` took from the bucket. */
  ghost function Taken(b: Bucket, calls: seq<Call>, k: nat): real
    requires k < |calls|
  {
    if Admitted(b, calls, k) then calls[k].cost else 0.0
  }

  /** What the calls from `i` up to but not including `k` took together. */
  ghost function Spent(b: Bucket, calls: seq<Call>, i: nat, k: nat): real
    requires i <= k <= |calls|
    decreases k
  {
    if i == k then 0.0 else Spent(b, calls, i, k - 1) + Taken(b, calls, k - 1)
  }

  /** The most that the window from call `i` to call `k` may hold. */
  ghost function Allowance(rate: real, burst: int, calls: seq<Call>, i: nat, k: nat): real
    requires i <= k < |calls|
  {
    burst as real + Earned(rate, calls[k].at - calls[i].at)
  }

  /** That is the burst, and the rate times the time that the window spans. */
  lemma AllowanceMeans(rate: real, burst: int, calls: seq<Call>, i: nat, k: nat)
    requires i <= k < |calls|
    ensures Allowance(rate, burst, calls, i, k) == burst as real + rate * (calls[k].at - calls[i].at)
  {
  }

  ghost predicate ClockRuns(start: real, calls: seq<Call>) {
    && (calls != [] ==> start <= calls[0].at)
    && forall k :: 0 < k < |calls| ==> calls[k - 1].at <= calls[k].at
  }

  ghost predicate CostsNonNegative(calls: seq<Call>) {
    forall k :: 0 <= k < |calls| ==> calls[k].cost >= 0.0
  }

  // The argument is carried out on plain sequences: what is on hand at each call, what each call
  // takes, and what the clock earns between calls. Products stay out of it.

  ghost function Sum(s: seq<real>, i: nat, k: nat): real
    requires i <= k <= |s|
    decreases k
  {
    if i == k then 0.0 else Sum(s, i, k - 1) + s[k - 1]
  }

  ghost predicate Recurs(burst: real, gains: seq<real>, taken: seq<real>, level: seq<real>) {
    && |gains| == |taken| == |level|
    && (|level| > 0 ==> level[0] == burst)
    && forall k :: 0 < k < |level| ==> RecursAt(burst, gains, taken, level, k)
  }

  ghost predicate RecursAt(burst: real, gains: seq<real>, taken: seq<real>, level: seq<real>, k: nat)
    requires 0 < k < |level| && |gains| == |taken| == |level|
  {
    level[k] == Min(burst, level[k - 1] - taken[k - 1] + gains[k])
  }

  /** The room left at call `k` in the window that begins with call `i`. */
  ghost function Room(burst: real, gains: seq<real>, taken: seq<real>, i: nat, k: nat): real
    requires i <= k < |gains| && |taken| == |gains|
  {
    burst + Sum(gains, i + 1, k + 1) - Sum(taken, i, k)
  }

  /** What is on hand is the least room: no window has less, and some window has exactly that. */
  lemma {:induction false} LevelIsLeastRoom(burst: real, gains: seq<real>, taken: seq<real>, level: seq<real>, k: nat)
    requires Recurs(burst, gains, taken, level) && k < |level|
    ensures forall i :: 0 <= i <= k ==> level[k] <= Room(burst, gains, taken, i, k)
    ensures exists i :: 0 <= i <= k && level[k] == Room(burst, gains, taken, i, k)
  {
    if k == 0 {
      assert level[0] == Room(burst, gains, taken, 0, 0);
    } else {
      LevelIsLeastRoom(burst, gains, taken, level, k - 1);
      assert RecursAt(burst, gains, taken, level, k);
      forall i | 0 <= i <= k
        ensures level[k] <= Room(burst, gains, taken, i, k)
        ensures i < k ==> Room(burst, gains, taken, i, k) == Room(burst, gains, taken, i, k - 1) - taken[k - 1] + gains[k]
        ensures Room(burst, gains, taken, k, k) == burst
      {
        if i < k {
          assert level[k - 1] <= Room(burst, gains, taken, i, k - 1);
        }
      }
      if level[k] == burst {
        assert level[k] == Room(burst, gains, taken, k, k);
      } else {
        var i :| 0 <= i <= k - 1 && level[k - 1] == Room(burst, gains, taken, i, k - 1);
        assert level[k] == Room(burst, gains, taken, i, k);
      }
    }
  }

  ghost function Gain(rate: real, calls: seq<Call>, k: nat): real
    requires k < |calls|
  {
    if k == 0 then 0.0 else Earned(rate, calls[k].at - calls[k - 1].at)
  }

  ghost function Gains(rate: real, calls: seq<Call>): seq<real> {
    seq(|calls|, k requires 0 <= k < |calls| => Gain(rate, calls, k))
  }

  ghost function Takings(b: Bucket, calls: seq<Call>): seq<real> {
    seq(|calls|, k requires 0 <= k < |calls| => Taken(b, calls, k))
  }

  ghost function Levels(b: Bucket, calls: seq<Call>): seq<real> {
    seq(|calls|, k requires 0 <= k < |calls| => OnHand(b, calls, k))
  }

  lemma AfterRunKeepsSettings(b: Bucket, calls: seq<Call>)
    ensures AfterRun(b, calls).rate == b.rate && AfterRun(b, calls).burst == b.burst
    ensures AfterRun(b, calls).lastRefill == if calls == [] then b.lastRefill else calls[|calls| - 1].at
  {
  }

  lemma EarnsNothingNegative(rate: real, elapsed: real)
    requires rate >= 0.0 && elapsed >= 0.0
    ensures Earned(rate, elapsed) >= 0.0
  {
  }

  lemma EarnedMeans(rate: real, elapsed: real)
    ensures Earned(rate, elapsed) == rate * elapsed
  {
  }

  lemma EarnedAdds(rate: real, x: real, y: real)
    ensures Earned(rate, x + y) == Earned(rate, x) + Earned(rate, y)
    ensures Earned(rate, 0.0) == 0.0
  {
  }

  lemma EarnedGrows(rate: real, x: real, y: real)
    requires rate >= 0.0 && x <= y
    ensures Earned(rate, x) <= Earned(rate, y)
  {
    EarnsNothingNegative(rate, y - x);
    EarnedAdds(rate, x, y - x);
  }

  /** How the tokens on hand pass from one call to the next. */
  lemma OnHandStep(b: Bucket, calls: seq<Call>, k: nat)
    requires 0 < k < |calls|
    ensures OnHand(b, calls, k) ==
            Min(b.burst as real, OnHand(b, calls, k - 1) - Taken(b, calls, k - 1) + Gain(b.rate, calls, k))
  {
    assert calls[..k][..k - 1] == calls[..k - 1];
    AfterRunKeepsSettings(b, calls[..k]);
    AfterRunKeepsSettings(b, calls[..k - 1]);
  }

  lemma BucketRecurs(rate: real, burst: int, start: real, calls: seq<Call>)
    requires rate >= 0.0 && ClockRuns(start, calls)
    ensures var b := Fresh(rate, burst, start);
            Recurs(burst as real, Gains(rate, calls), Takings(b, calls), Levels(b, calls))
  {
    var b := Fresh(rate, burst, start);
    if calls != [] {
      EarnsNothingNegative(rate, calls[0].at - start);
    }
    var gains, taken, level := Gains(rate, calls), Takings(b, calls), Levels(b, calls);
    forall k {:trigger level[k]} | 0 < k < |level|
      ensures RecursAt(burst as real, gains, taken, level, k)
    {
      assert gains[k] == Gain(rate, calls, k) && taken[k - 1] == Taken(b, calls, k - 1);
      OnHandStep(b, calls, k);
    }
  }

  lemma {:induction false} GainsTelescope(rate: real, calls: seq<Call>, i: nat, k: nat)
    requires i <= k < |calls|
    ensures Sum(Gains(rate, calls), i + 1, k + 1) == Earned(rate, calls[k].at - calls[i].at)
    decreases k
  {
    EarnedAdds(rate, 0.0, 0.0);
    if i < k {
      GainsTelescope(rate, calls, i, k - 1);
      EarnedAdds(rate, calls[k].at - calls[k - 1].at, calls[k - 1].at - calls[i].at);
      assert calls[k].at - calls[k - 1].at + (calls[k - 1].at - calls[i].at) == calls[k].at - calls[i].at;
    }
  }

  lemma {:induction false} TakingsAreSpent(b: Bucket, calls: seq<Call>, i: nat, k: nat)
    requires i <= k <= |calls|
    ensures Sum(Takings(b, calls), i, k) == Spent(b, calls, i, k)
    decreases k
  {
    if i < k {
      TakingsAreSpent(b, calls, i, k - 1);
    }
  }

  lemma RoomIsAllowance(rate: real, burst: int, start: real, calls: seq<Call>, i: nat, k: nat)
    requires i <= k < |calls|
    ensures var b := Fresh(rate, burst, start);
            Room(burst as real, Gains(rate, calls), Takings(b, calls), i, k) ==
            Allowance(rate, burst, calls, i, k) - Spent(b, calls, i, k)
  {
    GainsTelescope(rate, calls, i, k);
    TakingsAreSpent(Fresh(rate, burst, start), calls, i, k);
  }

  /** The tokens on hand are the least room left in any window that ends now. */
  lemma OnHandIsLeastRoom(rate: real, burst: int, start: real, calls: seq<Call>, k: nat) returns (tight: nat)
    requires rate >= 0.0 && ClockRuns(start, calls) && k < |calls|
    ensures var b := Fresh(rate, burst, start);
            forall i :: 0 <= i <= k ==> OnHand(b, calls, k) <= Allowance(rate, burst, calls, i, k) - Spent(b, calls, i, k)
    ensures var b := Fresh(rate, burst, start);
            tight <= k && OnHand(b, calls, k) == Allowance(rate, burst, calls, tight, k) - Spent(b, calls, tight, k)
  {
    var b := Fresh(rate, burst, start);
    var gains, taken, level := Gains(rate, calls), Takings(b, calls), Levels(b, calls);
    BucketRecurs(rate, burst, start, calls);
    LevelIsLeastRoom(burst as real, gains, taken, level, k);
    tight :| 0 <= tight <= k && level[k] == Room(burst as real, gains, taken, tight, k);
    RoomIsAllowance(rate, burst, start, calls, tight, k);
    forall i | 0 <= i <= k
      ensures OnHand(b, calls, k) <= Allowance(rate, burst, calls, i, k) - Spent(b, calls, i, k)
    {
      assert level[k] <= Room(burst as real, gains, taken, i, k);
      RoomIsAllowance(rate, burst, start, calls, i, k);
    }
  }

  /** Every single decision is exact: a call is admitted if and only if no window ending with it
      would then hold more than its allowance. */
  lemma AdmissionIsExact(rate: real, burst: int, start: real, calls: seq<Call>, k: nat)
    requires rate >= 0.0 && ClockRuns(start, calls) && k < |calls|
    ensures var b := Fresh(rate, burst, start);
            Admitted(b, calls, k) <==>
            forall i :: 0 <= i <= k ==> Spent(b, calls, i, k) + calls[k].cost <= Allowance(rate, burst, calls, i, k)
  {
    var tight := OnHandIsLeastRoom(rate, burst, start, calls, k);
  }

  lemma AllowanceGrows(rate: real, burst: int, start: real, calls: seq<Call>, i: nat, j: nat)
    requires rate >= 0.0 && ClockRuns(start, calls) && i < j < |calls|
    ensures Allowance(rate, burst, calls, i, j - 1) <= Allowance(rate, burst, calls, i, j)
  {
    EarnedGrows(rate, calls[j - 1].at - calls[i].at, calls[j].at - calls[i].at);
  }

  /** No window of any run takes more than its allowance. */
  lemma {:induction false} WindowBound(rate: real, burst: int, start: real, calls: seq<Call>, i: nat, j: nat)
    requires rate >= 0.0 && burst >= 0 && ClockRuns(start, calls) && i <= j < |calls|
    ensures Spent(Fresh(rate, burst, start), calls, i, j + 1) <= Allowance(rate, burst, calls, i, j)
    decreases j
  {
    var b := Fresh(rate, burst, start);
    if Admitted(b, calls, j) {
      AdmissionIsExact(rate, burst, start, calls, j);
    } else if i < j {
      WindowBound(rate, burst, start, calls, i, j - 1);
      AllowanceGrows(rate, burst, start, calls, i, j);
    } else {
      assert Spent(b, calls, i, j + 1) == Spent(b, calls, i, j) + Taken(b, calls, j);
      EarnedAdds(rate, 0.0, 0.0);
    }
  }

  /** The cost asked for by the calls from `i` up to but not including `k`. */
  ghost function Asked(calls: seq<Call>, i: nat, k: nat): real
    requires i <= k <= |calls|
    decreases k
  {
    if i == k then 0.0 else Asked(calls, i, k - 1) + calls[k - 1].cost
  }

  lemma {:induction false} AllAdmittedSpendsAsked(b: Bucket, calls: seq<Call>, i: nat, k: nat)
    requires i <= k <= |calls| && forall m :: i <= m < k ==> Admitted(b, calls, m)
    ensures Spent(b, calls, i, k) == Asked(calls, i, k)
    decreases k
  {
    if i < k {
      AllAdmittedSpendsAsked(b, calls, i, k - 1);
    }
  }

  /** A request sequence is admitted in full if and only if every window asks for at most its allowance. */
  lemma AdmittedInFull(rate: real, burst: int, start: real, calls: seq<Call>)
    requires rate >= 0.0 && ClockRuns(start, calls)
    ensures (forall k :: 0 <= k < |calls| ==> Admitted(Fresh(rate, burst, start), calls, k)) <==>
            (forall i, k :: 0 <= i <= k < |calls| ==> Asked(calls, i, k + 1) <= Allowance(rate, burst, calls, i, k))
  {
    var b := Fresh(rate, burst, start);
    if forall k :: 0 <= k < |calls| ==> Admitted(b, calls, k) {
      forall i, k | 0 <= i <= k < |calls|
        ensures Asked(calls, i, k + 1) <= Allowance(rate, burst, calls, i, k)
      {
        assert Admitted(b, calls, k);
        AdmissionIsExact(rate, burst, start, calls, k);
        AllAdmittedSpendsAsked(b, calls, i, k);
      }
    }
    if forall i, k :: 0 <= i <= k < |calls| ==> Asked(calls, i, k + 1) <= Allowance(rate, burst, calls, i, k) {
      ConformingPrefixAdmitted(rate, burst, start, calls, |calls|);
    }
  }

  lemma {:induction false} ConformingPrefixAdmitted(rate: real, burst: int, start: real, calls: seq<Call>, n: nat)
    requires rate >= 0.0 && ClockRuns(start, calls) && n <= |calls|
    requires forall i, k :: 0 <= i <= k < |calls| ==> Asked(calls, i, k + 1) <= Allowance(rate, burst, calls, i, k)
    ensures forall k :: 0 <= k < n ==> Admitted(Fresh(rate, burst, start), calls, k)
  {
    if n > 0 {
      ConformingPrefixAdmitted(rate, burst, start, calls, n - 1);
      var m := n - 1;
      var b := Fresh(rate, burst, start);
      forall i | 0 <= i <= m
        ensures Spent(b, calls, i, m) + calls[m].cost <= Allowance(rate, burst, calls, i, m)
      {
        AllAdmittedSpendsAsked(b, calls, i, m);
        assert Asked(calls, i, m + 1) == Asked(calls, i, m) + calls[m].cost;
      }
      AdmissionIsExact(rate, burst, start, calls, m);
    }
  }

  /** The bucket never overflows and never goes into debt. */
  lemma {:induction false} TokensStayInRange(rate: real, burst: int, start: real, calls: seq<Call>)
    requires rate >= 0.0 && burst >= 0 && ClockRuns(start, calls) && CostsNonNegative(calls)
    ensures 0.0 <= AfterRun(Fresh(rate, burst, start), calls).tokens <= burst as real
  {
    if calls != [] {
      var front := calls[..|calls| - 1];
      var last := calls[|calls| - 1];
      TokensStayInRange(rate, burst, start, front);
      var b := AfterRun(Fresh(rate, burst, start), front);
      AfterRunKeepsSettings(Fresh(rate, burst, start), front);
      assert last.cost >= 0.0 && last.at >= b.lastRefill;
      ConsumeStaysInRange(b, last.at, last.cost);
    }
  }

  lemma ConsumeStaysInRange(b: Bucket, now: real, cost: real)
    requires b.rate >= 0.0 && 0.0 <= b.tokens <= b.burst as real && now >= b.lastRefill && cost >= 0.0
    ensures 0.0 <= AfterConsume(b, now, cost).tokens <= b.burst as real
  {
    var earned := Earned(b.rate, now - b.lastRefill);
    EarnsNothingNegative(b.rate, now - b.lastRefill);
    assert earned >= 0.0 && Refilled(b, now) == Min(b.burst as real, b.tokens + earned);
    assert 0.0 <= Refilled(b, now) <= b.burst as real;
  }

  // ---- No limiter with the same allowances admits more -----------------------

  /** How many of the calls from `i` up to but not including `k` a choice lets through. */
  ghost function Picked(pick: seq<bool>, i: nat, k: nat): nat
    requires i <= k <= |pick|
    decreases k
  {
    if i == k then 0 else Picked(pick, i, k - 1) + if pick[k - 1] then 1 else 0
  }

  /** A choice that keeps every window ending in an admitted call within its allowance. */
  ghost predicate Conforms(rate: real, burst: int, calls: seq<Call>, pick: seq<bool>)
    requires |pick| == |calls|
  {
    forall i, k :: 0 <= i <= k < |calls| && pick[k] ==> Picked(pick, i, k + 1) as real <= Allowance(rate, burst, calls, i, k)
  }

  ghost predicate UnitCosts(calls: seq<Call>) {
    forall k :: 0 <= k < |calls| ==> calls[k].cost == 1.0
  }

  lemma {:induction false} PickedSplits(pick: seq<bool>, i: nat, k: nat)
    requires i <= k <= |pick|
    ensures Picked(pick, 0, k) == Picked(pick, 0, i) + Picked(pick, i, k)
    decreases k
  {
    if i < k {
      PickedSplits(pick, i, k - 1);
    }
  }

  /** The bucket's own choice. */
  ghost function Decisions(b: Bucket, calls: seq<Call>): seq<bool> {
    seq(|calls|, k requires 0 <= k < |calls| => Admitted(b, calls, k))
  }

  lemma {:induction false} SpentIsCount(b: Bucket, calls: seq<Call>, i: nat, k: nat)
    requires i <= k <= |calls| && UnitCosts(calls)
    ensures Spent(b, calls, i, k) == Picked(Decisions(b, calls), i, k) as real
    decreases k
  {
    if i < k {
      SpentIsCount(b, calls, i, k - 1);
    }
  }

  /** A refused call shows a window that has no room for one more. */
  lemma RefusalHasWitness(rate: real, burst: int, start: real, calls: seq<Call>, k: nat) returns (i: nat)
    requires rate >= 0.0 && ClockRuns(start, calls) && UnitCosts(calls) && k < |calls|
    requires !Admitted(Fresh(rate, burst, start), calls, k)
    ensures i <= k
    ensures Picked(Decisions(Fresh(rate, burst, start), calls), i, k) as real + 1.0 > Allowance(rate, burst, calls, i, k)
  {
    var b := Fresh(rate, burst, start);
    AdmissionIsExact(rate, burst, start, calls, k);
    i :| 0 <= i <= k && Spent(b, calls, i, k) + calls[k].cost > Allowance(rate, burst, calls, i, k);
    SpentIsCount(b, calls, i, k);
  }

  /** The bucket's own choice conforms, ... */
  lemma BucketConforms(rate: real, burst: int, start: real, calls: seq<Call>)
    requires rate >= 0.0 && ClockRuns(start, calls) && UnitCosts(calls)
    ensures Conforms(rate, burst, calls, Decisions(Fresh(rate, burst, start), calls))
  {
    var b := Fresh(rate, burst, start);
    var own := Decisions(b, calls);
    forall i, k | 0 <= i <= k < |calls| && own[k]
      ensures Picked(own, i, k + 1) as real <= Allowance(rate, burst, calls, i, k)
    {
      AdmissionIsExact(rate, burst, start, calls, k);
      SpentIsCount(b, calls, i, k);
      assert Picked(own, i, k + 1) == Picked(own, i, k) + 1;
    }
  }

  /** ... and at every moment it has admitted at least as many calls as any conforming choice. */
  lemma {:induction false} BucketIsGreediest(rate: real, burst: int, start: real, calls: seq<Call>, pick: seq<bool>, k: nat)
    requires rate >= 0.0 && ClockRuns(start, calls) && UnitCosts(calls)
    requires |pick| == |calls| && Conforms(rate, burst, calls, pick) && k <= |calls|
    ensures Picked(pick, 0, k) <= Picked(Decisions(Fresh(rate, burst, start), calls), 0, k)
    decreases k
  {
    if k > 0 {
      var own := Decisions(Fresh(rate, burst, start), calls);
      var m := k - 1;
      BucketIsGreediest(rate, burst, start, calls, pick, m);
      if pick[m] && !own[m] {
        var i := RefusalHasWitness(rate, burst, start, calls, m);
        BucketIsGreediest(rate, burst, start, calls, pick, i);
        assert Picked(pick, i, m + 1) as real <= Allowance(rate, burst, calls, i, m);
        PickedSplits(pick, i, k);
        PickedSplits(own, i, m);
      }
    }
  }

  // ---- The middleware: one bucket a client -----------------------------------

  /** A request, with the two clock readings its handling may take: one if a bucket has to be
      made for its client, one when a token is asked for. */
  datatype Request = Request(path: string, client: Option<string>, created: real, now: real)

  /** The limiter's answer: pass the request on, or refuse it with status 429. */
  datatype Verdict = Pass | TooManyRequests

  const DEFAULT_EXCLUDES: set<string> := {"/health", "/metrics", "/"}

  function ClientOf(req: Request): string {
    match req.client
    case Some(host) => host
    case None => "unknown"
  }

  datatype Settings = Settings(rate: real, burst: int, excludePaths: set<string>)

  type Table = map<string, Bucket>

  /** The bucket a request draws on: its client's, or a new full one. */
  function BucketFor(cfg: Settings, table: Table, req: Request): Bucket {
    var client := ClientOf(req);
    if client in table then table[client] else Fresh(cfg.rate, cfg.burst, req.created)
  }

  function AfterRequest(cfg: Settings, table: Table, req: Request): Table {
    if req.path in cfg.excludePaths then table
    else table[ClientOf(req) := AfterConsume(BucketFor(cfg, table, req), req.now, 1.0)]
  }

  function VerdictOn(cfg: Settings, table: Table, req: Request): Verdict {
    if req.path in cfg.excludePaths || Refilled(BucketFor(cfg, table, req), req.now) >= 1.0 then Pass
    else TooManyRequests
  }

  class RateLimitMiddleware {
    const rate: real
    const burst: int
    const excludePaths: set<string>
    var buckets: map<string, TokenBucket>
    /** What the buckets hold, and whose they are. */
    ghost var table: Table
    ghost var owner: map<TokenBucket, string>

    /** Clients never share a bucket, and every bucket has the middleware's settings. */
    ghost predicate Valid()
      reads this, buckets.Values
    {
      && table.Keys == buckets.Keys
      && (forall c :: c in buckets ==> Holds(c))
    }

    ghost predicate Holds(c: string)
      requires c in buckets
      reads this, buckets[c]
    {
      && c in table && buckets[c].State() == table[c]
      && buckets[c].rate == rate && buckets[c].burst == burst
      && buckets[c] in owner && owner[buckets[c]] == c
    }

    ghost function Config(): Settings {
      Settings(rate, burst, excludePaths)
    }

    constructor (rate: real := 100.0, burst: int := 50, excludePaths: set<string> := {})
      ensures Valid() && table == map[]
      ensures Config() == Settings(rate, burst, if excludePaths == {} then {"/health", "/metrics", "/"} else excludePaths)
    {
      this.rate := rate;
      this.burst := burst;
      this.excludePaths := if excludePaths == {} then DEFAULT_EXCLUDES else excludePaths;
      this.buckets := map[];
      this.table := map[];
      this.owner := map[];
    }

    /** The client's bucket, made full if it has none yet. */
    method BucketOf(req: Request) returns (bucket: TokenBucket)
      requires Valid()
      modifies this`buckets, this`table, this`owner
      ensures Valid() && bucket in buckets.Values && fresh(buckets.Values - old(buckets.Values))
      ensures ClientOf(req) in buckets && buckets[ClientOf(req)] == bucket
      ensures table == old(table)[ClientOf(req) := BucketFor(Config(), old(table), req)]
    {
      var client := ClientOf(req);
      if client !in buckets {
        var made := new TokenBucket(rate, burst, req.created);
        buckets := buckets[client := made];
        owner := owner[made := client];
        table := table[client := made.State()];
      }
      bucket := buckets[client];
      assert Holds(client) && bucket in buckets.Values;
    }

    method Dispatch(req: Request) returns (verdict: Verdict)
      requires Valid()
      modifies this, buckets.Values
      ensures Valid() && fresh(buckets.Values - old(buckets.Values))
      ensures table == AfterRequest(Config(), old(table), req)
      ensures verdict == VerdictOn(Config(), old(table), req)
    {
      if req.path in excludePaths {
        return Pass;
      }
      var bucket := BucketOf(req);
      var admitted := Draw(ClientOf(req), bucket, req.now);
      return if admitted then Pass else TooManyRequests;
    }

    /** One token is asked of the client's bucket. */
    method Draw(client: string, bucket: TokenBucket, now: real) returns (admitted: bool)
      requires Valid() && client in buckets && buckets[client] == bucket
      modifies bucket, this`table
      ensures Valid()
      ensures table == old(table)[client := AfterConsume(old(table)[client], now, 1.0)]
      ensures admitted <==> Refilled(old(table)[client], now) >= 1.0
    {
      assert Holds(client);
      label Found:
      admitted := bucket.Consume(now);
      table := table[client := bucket.State()];
      forall c | c in buckets
        ensures Holds(c)
      {
        assert old@Found(Holds(c));
      }
    }
  }

  ghost function TableAfter(cfg: Settings, reqs: seq<Request>): Table {
    if reqs == [] then map[]
    else AfterRequest(cfg, TableAfter(cfg, reqs[..|reqs| - 1]), reqs[|reqs| - 1])
  }

  /** The request comes from this host; one without a client counts as the host "unknown". */
  ghost predicate IsFrom(req: Request, host: string) {
    req.client == Some(host) || (req.client == None && host == "unknown")
  }

  /** The calls that one client's requests make on its own bucket. */
  ghost function CallsOf(cfg: Settings, reqs: seq<Request>, client: string): seq<Call> {
    if reqs == [] then []
    else
      var last := reqs[|reqs| - 1];
      CallsOf(cfg, reqs[..|reqs| - 1], client) +
      if last.path !in cfg.excludePaths && IsFrom(last, client) then [Call(last.now, 1.0)] else []
  }

  /** When the client's bucket was made. */
  ghost function MadeAt(cfg: Settings, reqs: seq<Request>, client: string): real
    requires CallsOf(cfg, reqs, client) != []
  {
    var last := reqs[|reqs| - 1];
    if CallsOf(cfg, reqs[..|reqs| - 1], client) != [] then MadeAt(cfg, reqs[..|reqs| - 1], client) else last.created
  }

  /** However the requests of all clients interleave, one client's bucket is what its own calls
      alone make of a fresh bucket: no other client's traffic can change it. */
  lemma {:induction false} ClientsAreIsolated(cfg: Settings, reqs: seq<Request>, client: string)
    ensures var calls := CallsOf(cfg, reqs, client);
            var table := TableAfter(cfg, reqs);
            && (client in table <==> calls != [])
            && (calls != [] ==> table[client] == AfterRun(Fresh(cfg.rate, cfg.burst, MadeAt(cfg, reqs, client)), calls))
  {
    if reqs != [] {
      var front, last := reqs[..|reqs| - 1], reqs[|reqs| - 1];
      ClientsAreIsolated(cfg, front, client);
      var before := CallsOf(cfg, front, client);
      if last.path !in cfg.excludePaths && IsFrom(last, client) {
        var calls := before + [Call(last.now, 1.0)];
        assert CallsOf(cfg, reqs, client) == calls && calls[..|before|] == before;
        var b := Fresh(cfg.rate, cfg.burst, MadeAt(cfg, reqs, client));
        assert BucketFor(cfg, TableAfter(cfg, front), last) == AfterRun(b, before);
        assert AfterRun(b, calls) == AfterConsume(AfterRun(b, before), last.now, 1.0);
      } else {
        assert CallsOf(cfg, reqs, client) == before;
      }
    }
  }

  lemma NextAnswer(cfg: Settings, front: seq<Request>, req: Request, client: string)
    requires req.path !in cfg.excludePaths && IsFrom(req, client)
    ensures var reqs := front + [req];
            var calls := CallsOf(cfg, reqs, client);
            && calls == CallsOf(cfg, front, client) + [Call(req.now, 1.0)]
            && BucketFor(cfg, TableAfter(cfg, front), req) ==
               AfterRun(Fresh(cfg.rate, cfg.burst, MadeAt(cfg, reqs, client)), CallsOf(cfg, front, client))
  {
    ClientsAreIsolated(cfg, front, client);
    assert (front + [req])[..|front|] == front;
  }

  /** ... and neither can it change a single answer. */
  lemma AnswersAreIsolated(cfg: Settings, reqs: seq<Request>, k: nat, client: string)
    requires k < |reqs| && reqs[k].path !in cfg.excludePaths && IsFrom(reqs[k], client)
    ensures var calls := CallsOf(cfg, reqs[..k + 1], client);
            && calls != []
            && (VerdictOn(cfg, TableAfter(cfg, reqs[..k]), reqs[k]) == Pass <==>
                Admitted(Fresh(cfg.rate, cfg.burst, MadeAt(cfg, reqs[..k + 1], client)), calls, |calls| - 1))
  {
    NextAnswer(cfg, reqs[..k], reqs[k], client);
    assert reqs[..k + 1] == reqs[..k] + [reqs[k]];
    var before := CallsOf(cfg, reqs[..k], client);
    var calls := before + [Call(reqs[k].now, 1.0)];
    assert calls[..|before|] == before;
    var b := Fresh(cfg.rate, cfg.burst, MadeAt(cfg, reqs[..k + 1], client));
    assert OnHand(b, calls, |before|) == Refilled(AfterRun(b, before), reqs[k].now);
  }

  /** The requests that come from this host. */
  ghost function Only(reqs: seq<Request>, host: string): seq<Request> {
    if reqs == [] then []
    else Only(reqs[..|reqs| - 1], host) + if IsFrom(reqs[|reqs| - 1], host) then [reqs[|reqs| - 1]] else []
  }

  lemma {:induction false} OnlyItsOwnCount(cfg: Settings, reqs: seq<Request>, host: string)
    ensures CallsOf(cfg, Only(reqs, host), host) == CallsOf(cfg, reqs, host)
    ensures CallsOf(cfg, reqs, host) != [] ==> MadeAt(cfg, Only(reqs, host), host) == MadeAt(cfg, reqs, host)
  {
    if reqs != [] {
      var front, last := reqs[..|reqs| - 1], reqs[|reqs| - 1];
      OnlyItsOwnCount(cfg, front, host);
      if IsFrom(last, host) {
        var own := Only(front, host) + [last];
        assert Only(reqs, host) == own && own[..|own| - 1] == Only(front, host);
      } else {
        assert Only(reqs, host) == Only(front, host) + [] == Only(front, host);
      }
    }
  }

  /** The verdict on a request is the verdict after the earlier requests of its own host alone. */
  lemma VerdictIsItsOwn(cfg: Settings, reqs: seq<Request>, req: Request, host: string)
    requires IsFrom(req, host)
    ensures VerdictOn(cfg, TableAfter(cfg, reqs), req) == VerdictOn(cfg, TableAfter(cfg, Only(reqs, host)), req)
  {
    ClientsAreIsolated(cfg, reqs, host);
    ClientsAreIsolated(cfg, Only(reqs, host), host);
    OnlyItsOwnCount(cfg, reqs, host);
    assert BucketFor(cfg, TableAfter(cfg, reqs), req) == BucketFor(cfg, TableAfter(cfg, Only(reqs, host)), req);
  }

  /** So the first request of a host passes, whoever has asked before. */
  lemma NewHostPasses(cfg: Settings, reqs: seq<Request>, req: Request, host: string)
    requires cfg.rate >= 0.0 && cfg.burst >= 1 && req.created <= req.now && IsFrom(req, host)
    requires forall k :: 0 <= k < |reqs| ==> !IsFrom(reqs[k], host)
    ensures VerdictOn(cfg, TableAfter(cfg, reqs), req) == Pass
  {
    NoneOfItsOwn(reqs, host);
    VerdictIsItsOwn(cfg, reqs, req, host);
    EarnsNothingNegative(cfg.rate, req.now - req.created);
  }

  lemma {:induction false} NoneOfItsOwn(reqs: seq<Request>, host: string)
    requires forall k :: 0 <= k < |reqs| ==> !IsFrom(reqs[k], host)
    ensures Only(reqs, host) == []
  {
    if reqs != [] {
      NoneOfItsOwn(reqs[..|reqs| - 1], host);
    }
  }

  /** Excluded paths pass, and cost nobody anything. */
  lemma ExcludedPathsAreFree(cfg: Settings, table: Table, req: Request)
    requires req.path in cfg.excludePaths
    ensures VerdictOn(cfg, table, req) == Pass && AfterRequest(cfg, table, req) == table
  {
  }

  // ---- What one client can get through ----------------------------------------

  /** The readings of the clock never fall, from request to request and within one. */
  ghost predicate ReadingsRun(reqs: seq<Request>) {
    && (forall k :: 0 <= k < |reqs| ==> reqs[k].created <= reqs[k].now)
    && forall j, k :: 0 <= j < k < |reqs| ==> reqs[j].now <= reqs[k].created
  }

  /** How many requests of the client the limiter has let through, from request `i` on. */
  ghost function PassedSince(cfg: Settings, reqs: seq<Request>, client: string, i: nat): nat {
    if |reqs| <= i then 0
    else
      var front, last := reqs[..|reqs| - 1], reqs[|reqs| - 1];
      PassedSince(cfg, front, client, i) +
      if last.path !in cfg.excludePaths && IsFrom(last, client) && VerdictOn(cfg, TableAfter(cfg, front), last) == Pass
      then 1 else 0
  }

  /** The bucket the client's calls are made on; any bucket will do if it makes none. */
  ghost function OwnBucket(cfg: Settings, reqs: seq<Request>, client: string): Bucket {
    Fresh(cfg.rate, cfg.burst, if CallsOf(cfg, reqs, client) == [] then 0.0 else MadeAt(cfg, reqs, client))
  }

  /** A client's calls come at the readings of its requests, in order. */
  lemma {:induction false} CallsRun(cfg: Settings, reqs: seq<Request>, client: string)
    requires ReadingsRun(reqs) && CallsOf(cfg, reqs, client) != []
    ensures var calls := CallsOf(cfg, reqs, client);
            ClockRuns(MadeAt(cfg, reqs, client), calls) && calls[|calls| - 1].at <= reqs[|reqs| - 1].now
  {
    var front, last := reqs[..|reqs| - 1], reqs[|reqs| - 1];
    if CallsOf(cfg, front, client) != [] {
      CallsRun(cfg, front, client);
    }
  }

  /** The calls made before request `i` are the first of all calls; the others come no earlier than it. */
  lemma {:induction false} CallsSince(cfg: Settings, reqs: seq<Request>, client: string, i: nat)
    requires ReadingsRun(reqs) && i <= |reqs|
    ensures var calls, before := CallsOf(cfg, reqs, client), CallsOf(cfg, reqs[..i], client);
            before <= calls && forall m :: |before| <= m < |calls| ==> i < |reqs| && calls[m].at >= reqs[i].now
  {
    if i == |reqs| {
      assert reqs[..i] == reqs;
    } else {
      var front := reqs[..|reqs| - 1];
      assert front[..i] == reqs[..i];
      CallsSince(cfg, front, client, i);
    }
  }

  lemma {:induction false} SpentOfPrefix(b: Bucket, calls: seq<Call>, more: seq<Call>, i: nat, k: nat)
    requires calls <= more && i <= k <= |calls|
    ensures Spent(b, more, i, k) == Spent(b, calls, i, k)
    decreases k
  {
    if i < k {
      SpentOfPrefix(b, calls, more, i, k - 1);
      assert more[..k - 1] == calls[..k - 1];
    }
  }

  lemma SpentGrows(b: Bucket, calls: seq<Call>, more: seq<Call>, i: nat)
    requires calls <= more && |more| == |calls| + 1 && i <= |calls|
    ensures Spent(b, more, i, |more|) == Spent(b, calls, i, |calls|) + Taken(b, more, |calls|)
  {
    SpentOfPrefix(b, calls, more, i, |calls|);
  }

  /** What the latest request adds, on both sides. */
  lemma OneMoreRequest(cfg: Settings, reqs: seq<Request>, client: string)
    requires reqs != []
    ensures var front, last := reqs[..|reqs| - 1], reqs[|reqs| - 1];
            var b, calls, earlier := OwnBucket(cfg, reqs, client), CallsOf(cfg, reqs, client), CallsOf(cfg, front, client);
            && earlier <= calls
            && (earlier != [] ==> b == OwnBucket(cfg, front, client))
            && (if last.path !in cfg.excludePaths && IsFrom(last, client)
                then |calls| == |earlier| + 1 &&
                     Taken(b, calls, |earlier|) == if VerdictOn(cfg, TableAfter(cfg, front), last) == Pass then 1.0 else 0.0
                else calls == earlier)
  {
    var k := |reqs| - 1;
    if reqs[k].path !in cfg.excludePaths && IsFrom(reqs[k], client) {
      assert reqs[..k + 1] == reqs;
      AnswersAreIsolated(cfg, reqs, k, client);
    }
  }

  /** Every request let through has taken one token. */
  lemma {:induction false} PassedIsSpent(cfg: Settings, reqs: seq<Request>, client: string, i: nat)
    requires ReadingsRun(reqs) && i <= |reqs|
    ensures var calls, before := CallsOf(cfg, reqs, client), CallsOf(cfg, reqs[..i], client);
            |before| <= |calls| &&
            PassedSince(cfg, reqs, client, i) as real == Spent(OwnBucket(cfg, reqs, client), calls, |before|, |calls|)
  {
    CallsSince(cfg, reqs, client, i);
    if i == |reqs| {
      assert reqs[..i] == reqs;
    } else {
      var front := reqs[..|reqs| - 1];
      assert front[..i] == reqs[..i];
      PassedIsSpent(cfg, front, client, i);
      OneMoreRequest(cfg, reqs, client);
      var b, calls, earlier := OwnBucket(cfg, reqs, client), CallsOf(cfg, reqs, client), CallsOf(cfg, front, client);
      var n := |CallsOf(cfg, reqs[..i], client)|;
      assert earlier == [] ==> n == 0 && Spent(b, earlier, 0, 0) == 0.0 == Spent(OwnBucket(cfg, front, client), earlier, 0, 0);
      if |calls| > |earlier| {
        SpentGrows(b, earlier, calls, n);
      }
    }
  }

  /** The limit the middleware is for: whatever the other clients do, the requests of one client let
      through from request `i` to the latest one are at most the burst and what has accrued since.
      As every prefix of a run is a run, this bounds every window. */
  lemma ClientWindowBound(cfg: Settings, reqs: seq<Request>, client: string, i: nat)
    requires cfg.rate >= 0.0 && cfg.burst >= 0 && ReadingsRun(reqs) && i < |reqs|
    ensures PassedSince(cfg, reqs, client, i) as real <=
            cfg.burst as real + Earned(cfg.rate, reqs[|reqs| - 1].now - reqs[i].now)
  {
    var calls, before := CallsOf(cfg, reqs, client), CallsOf(cfg, reqs[..i], client);
    var elapsed := reqs[|reqs| - 1].now - reqs[i].now;
    PassedIsSpent(cfg, reqs, client, i);
    if |before| < |calls| {
      CallsSince(cfg, reqs, client, i);
      CallsRun(cfg, reqs, client);
      var j := |calls| - 1;
      WindowBound(cfg.rate, cfg.burst, MadeAt(cfg, reqs, client), calls, |before|, j);
      assert calls[j].at - calls[|before|].at <= elapsed;
      EarnedGrows(cfg.rate, calls[j].at - calls[|before|].at, elapsed);
    } else {
      EarnsNothingNegative(cfg.rate, elapsed);
    }
  }
}
