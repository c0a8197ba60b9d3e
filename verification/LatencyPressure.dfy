/** `run_latency_pressure`: the nearest-rank 99th percentile of first-token latencies, and the
    tiered score drawn from it. */
module LatencyPressure {

  /** A value looked up in an action: absent (or None), a number, or something else. */
  datatype Field = Absent | Number(x: real) | Other

  datatype Action = NotAMapping | Mapping(ttft: Field, latency: Field)

  datatype Severity = NoTrajectory | NoSamples | INFO | WARNING | HIGH | CRITICAL

  datatype Result = Result(score: real, severity: Severity, p99: real, sampleCount: nat)

  const TTFT_GOLD_MS := 200.0
  const TTFT_SILVER_MS := 350.0

  // ---- Samples ------------------------------------------------------------------

  /** The sample an action contributes: its own latency field is consulted only when the
      first-token field is absent, and only positive numbers count. */
  function SampleOf(a: Action): seq<real> {
    match a
    case NotAMapping => []
    case Mapping(ttft, latency) =>
      var field := if ttft == Absent then latency else ttft;
      if field.Number? && field.x > 0.0 then [field.x] else []
  }

  function SamplesOf(trajectory: seq<Action>): seq<real> {
    if trajectory == [] then [] else SamplesOf(trajectory[..|trajectory| - 1]) + SampleOf(trajectory[|trajectory| - 1])
  }

  /** The action contributes the sample `v`. */
  ghost predicate Contributes(a: Action, v: real) {
    v > 0.0 && a.Mapping? && (a.ttft == Number(v) || (a.ttft == Absent && a.latency == Number(v)))
  }

  ghost function Contributors(trajectory: seq<Action>, v: real): set<nat> {
    set i: nat | i < |trajectory| && Contributes(trajectory[i], v)
  }

  lemma OneSample(a: Action, v: real)
    ensures multiset(SampleOf(a))[v] == if Contributes(a, v) then 1 else 0
  {
  }

  lemma OneMoreAction(front: seq<Action>, a: Action, v: real)
    ensures |Contributors(front + [a], v)| == |Contributors(front, v)| + if Contributes(a, v) then 1 else 0
  {
    var longer := front + [a];
    assert forall i :: 0 <= i < |front| ==> longer[i] == front[i];
    assert Contributors(longer, v) == Contributors(front, v) + if Contributes(a, v) then {|front|} else {};
  }

  /** A value is a sample as often as there are actions that contribute it: with the first-token field, or
      with the latency field where the other is absent, and in either case positive. */
  lemma {:induction false} SamplesAreContributed(trajectory: seq<Action>, v: real)
    ensures multiset(SamplesOf(trajectory))[v] == |Contributors(trajectory, v)|
  {
    if trajectory == [] {
      assert Contributors(trajectory, v) == {};
    } else {
      var front, last := trajectory[..|trajectory| - 1], trajectory[|trajectory| - 1];
      assert trajectory == front + [last];
      SamplesAreContributed(front, v);
      OneSample(last, v);
      OneMoreAction(front, last, v);
    }
  }

  // ---- Sorting ------------------------------------------------------------------

  ghost predicate IsSorted(s: seq<real>) {
    forall i, j :: 0 <= i <= j < |s| ==> s[i] <= s[j]
  }

  function Insert(x: real, s: seq<real>): seq<real> {
    if s == [] || x <= s[0] then [x] + s else [s[0]] + Insert(x, s[1..])
  }

  function Sort(s: seq<real>): seq<real> {
    if s == [] then [] else Insert(s[0], Sort(s[1..]))
  }

  /** How many samples are at most `v`. */
  function CountAtMost(s: seq<real>, v: real): nat {
    if s == [] then 0 else (if s[0] <= v then 1 else 0) + CountAtMost(s[1..], v)
  }

  lemma {:induction false} InsertAdds(x: real, s: seq<real>, v: real)
    ensures multiset(Insert(x, s)) == multiset(s) + multiset{x}
    ensures CountAtMost(Insert(x, s), v) == CountAtMost(s, v) + if x <= v then 1 else 0
  {
    if s == [] || x <= s[0] {
      assert ([x] + s)[1..] == s;
    } else {
      InsertAdds(x, s[1..], v);
      assert s == [s[0]] + s[1..];
      assert ([s[0]] + Insert(x, s[1..]))[1..] == Insert(x, s[1..]);
    }
  }

  /** Insertion keeps a list sorted, and its least element is the old one or the new one. */
  lemma {:induction false} InsertSorts(x: real, s: seq<real>)
    requires IsSorted(s)
    ensures IsSorted(Insert(x, s)) && |Insert(x, s)| == |s| + 1
    ensures Insert(x, s)[0] == if s == [] || x <= s[0] then x else s[0]
  {
    if s != [] && s[0] < x {
      InsertSorts(x, s[1..]);
    }
  }

  lemma {:induction false} SortSorts(s: seq<real>, v: real)
    ensures IsSorted(Sort(s)) && multiset(Sort(s)) == multiset(s) && |Sort(s)| == |s|
    ensures CountAtMost(Sort(s), v) == CountAtMost(s, v)
  {
    if s != [] {
      SortSorts(s[1..], v);
      InsertSorts(s[0], Sort(s[1..]));
      InsertAdds(s[0], Sort(s[1..]), v);
      assert s == [s[0]] + s[1..];
      assert |multiset(Sort(s))| == |Sort(s)| && |multiset(s)| == |s|;
    }
  }

  lemma {:induction false} CountBounded(s: seq<real>, v: real)
    ensures CountAtMost(s, v) <= |s|
    ensures (forall i :: 0 <= i < |s| ==> v < s[i]) ==> CountAtMost(s, v) == 0
  {
    if s != [] {
      CountBounded(s[1..], v);
    }
  }

  /** In a sorted list the count of samples up to a value tells the value's rank. */
  lemma {:induction false} RankByCount(s: seq<real>, k: nat, v: real)
    requires IsSorted(s) && k < |s|
    ensures s[k] <= v <==> CountAtMost(s, v) >= k + 1
  {
    if k > 0 {
      RankByCount(s[1..], k - 1, v);
      if s[0] > v {
        CountBounded(s[1..], v);
      }
    } else if s[0] > v {
      CountBounded(s[1..], v);
    }
  }

  // ---- The percentile -----------------------------------------------------------

  /** The nearest rank of the 99th percentile, from zero: ceil(0.99 n) - 1 in exact arithmetic,
      clamped to the list. */
  function P99Index(n: nat): (k: nat)
    requires n > 0
    ensures k < n
  {
    var ceiling := (99 * n + 99) / 100;
    var k := if ceiling - 1 > 0 then ceiling - 1 else 0;
    if k < n - 1 then k else n - 1
  }

  function P99(samples: seq<real>): real
    requires samples != []
  {
    var sorted := Sort(samples);
    SortSorts(samples, 0.0);
    sorted[P99Index(|samples|)]
  }

  /** The rank is the least one that takes in at least 99 in a hundred samples. */
  lemma RankCovers(n: nat, c: nat)
    requires n > 0
    ensures c >= P99Index(n) + 1 <==> 100 * c >= 99 * n
  {
  }

  /** A value is at or above the percentile exactly when at least 99% of the samples are at most it. */
  lemma AtLeastP99(samples: seq<real>, v: real)
    requires samples != []
    ensures P99(samples) <= v <==> 100 * CountAtMost(samples, v) >= 99 * |samples|
  {
    SortSorts(samples, v);
    RankByCount(Sort(samples), P99Index(|samples|), v);
    RankCovers(|samples|, CountAtMost(samples, v));
  }

  /** The percentile is the smallest sample that at least 99% of the samples do not exceed. */
  lemma P99IsSmallest(samples: seq<real>)
    requires samples != []
    ensures P99(samples) in samples
    ensures 100 * CountAtMost(samples, P99(samples)) >= 99 * |samples|
    ensures forall w :: 100 * CountAtMost(samples, w) >= 99 * |samples| ==> P99(samples) <= w
  {
    var p := P99(samples);
    SortSorts(samples, p);
    assert p in multiset(Sort(samples));
    AtLeastP99(samples, p);
    forall w | 100 * CountAtMost(samples, w) >= 99 * |samples|
      ensures p <= w
    {
      AtLeastP99(samples, w);
    }
  }

  lemma {:induction false} RaisingLowersCount(a: seq<real>, b: seq<real>, v: real)
    requires |a| == |b| && forall i :: 0 <= i < |a| ==> a[i] <= b[i]
    ensures CountAtMost(b, v) <= CountAtMost(a, v)
  {
    if a != [] {
      RaisingLowersCount(a[1..], b[1..], v);
    }
  }

  /** Raising any samples never lowers the percentile. */
  lemma P99IsMonotone(a: seq<real>, b: seq<real>)
    requires a != [] && |a| == |b| && forall i :: 0 <= i < |a| ==> a[i] <= b[i]
    ensures P99(a) <= P99(b)
  {
    P99IsSmallest(b);
    RaisingLowersCount(a, b, P99(b));
    AtLeastP99(a, P99(b));
  }

  // ---- The score ----------------------------------------------------------------

  /** Gold and silver are fixed; beyond the threshold the score decays to nothing at twice it. */
  function TierScore(p99: real, threshold: real): real {
    if p99 <= TTFT_GOLD_MS then 100.0
    else if p99 <= TTFT_SILVER_MS then 85.0
    else if p99 <= threshold then 70.0
    else if p99 <= threshold * 2.0 then 70.0 * (1.0 - (p99 - threshold) / threshold)
    else 0.0
  }

  lemma Decay(p: real, q: real, t: real)
    requires 0.0 < t < p <= q <= t * 2.0
    ensures 0.0 <= (p - t) / t <= (q - t) / t <= 1.0
  {
    var x, y := (p - t) / t, (q - t) / t;
    assert x * t == p - t && y * t == q - t;
    assert x < 0.0 ==> x * t < 0.0;
    assert x > y ==> (x - y) * t > 0.0;
    assert y > 1.0 ==> (y - 1.0) * t > 0.0;
  }

  /** For every threshold, the score stays in range and a higher percentile never scores more. */
  lemma TierScoreAntitone(p: real, q: real, threshold: real)
    requires p <= q
    ensures 0.0 <= TierScore(q, threshold) <= TierScore(p, threshold) <= 100.0
  {
    if TTFT_SILVER_MS < q && threshold < q <= threshold * 2.0 {
      Decay(q, q, threshold);
      if TTFT_SILVER_MS < p && threshold < p {
        Decay(p, q, threshold);
      }
    }
    if TTFT_SILVER_MS < p && threshold < p <= threshold * 2.0 {
      Decay(p, p, threshold);
    }
  }

  /** Raising any set of samples never raises the score. */
  lemma ScoreIsAntitone(a: seq<real>, b: seq<real>, threshold: real)
    requires a != [] && |a| == |b| && forall i :: 0 <= i < |a| ==> a[i] <= b[i]
    ensures 0.0 <= TierScore(P99(b), threshold) <= TierScore(P99(a), threshold) <= 100.0
  {
    P99IsMonotone(a, b);
    TierScoreAntitone(P99(a), P99(b), threshold);
  }

  /** The tiers in milliseconds: 100 points up to 200, 85 up to 350, 70 up to the threshold, then evenly
      less until nothing is left at twice the threshold. */
  lemma TierMeans(p: real, t: real)
    ensures p <= 200.0 ==> TierScore(p, t) == 100.0
    ensures 200.0 < p <= 350.0 ==> TierScore(p, t) == 85.0
    ensures 350.0 < p <= t ==> TierScore(p, t) == 70.0
    ensures 350.0 < p && t < p <= 2.0 * t ==> TierScore(p, t) * t == 70.0 * (2.0 * t - p)
    ensures 350.0 < p && t < p && 2.0 * t < p ==> TierScore(p, t) == 0.0
  {
    if 350.0 < p && t < p <= 2.0 * t {
      var x := (p - t) / t;
      assert x * t == p - t;
      assert TierScore(p, t) == 70.0 * (1.0 - x);
      assert (70.0 * (1.0 - x)) * t == 70.0 * t - 70.0 * (x * t);
    }
  }

  /** So the tier of a trajectory is decided by counting: 100 points exactly if 99 in a hundred samples took
      at most 200 ms, 85 or more if they took at most 350 ms, 70 or more if they kept to the threshold. */
  lemma ScoreByCount(samples: seq<real>, t: real)
    requires samples != []
    ensures var score := TierScore(P99(samples), t);
            && (score >= 100.0 <==> 100 * CountAtMost(samples, 200.0) >= 99 * |samples|)
            && (score >= 85.0 <==> 100 * CountAtMost(samples, 350.0) >= 99 * |samples|)
            && (score >= 70.0 <==> 100 * CountAtMost(samples, if t <= 350.0 then 350.0 else t) >= 99 * |samples|)
  {
    var p, limit := P99(samples), if t <= 350.0 then 350.0 else t;
    AtLeastP99(samples, 200.0);
    AtLeastP99(samples, 350.0);
    AtLeastP99(samples, limit);
    TierMeans(p, t);
    if limit < p <= 2.0 * t {
      DecayIsStrict(TierScore(p, t), p, t);
    }
  }

  lemma DecayIsStrict(score: real, p: real, t: real)
    requires 0.0 < t < p && score * t == 70.0 * (2.0 * t - p)
    ensures score < 70.0
  {
    assert score * t < 70.0 * t;
    assert score >= 70.0 ==> (score - 70.0) * t >= 0.0;
  }

  method RunLatencyPressure(trajectory: seq<Action>, thresholdMs: real := 500.0) returns (r: Result)
    ensures trajectory == [] ==> r == Result(0.0, NoTrajectory, 0.0, 0)
    ensures trajectory != [] && SamplesOf(trajectory) == [] ==> r == Result(0.0, NoSamples, 0.0, 0)
    ensures SamplesOf(trajectory) != [] ==>
              && r.p99 == P99(SamplesOf(trajectory)) && r.sampleCount == |SamplesOf(trajectory)|
              && r.score == TierScore(r.p99, thresholdMs)
              && (r.score == 100.0 <==> 100 * CountAtMost(SamplesOf(trajectory), 200.0) >= 99 * r.sampleCount)
              && (r.severity == INFO <==> r.p99 <= TTFT_SILVER_MS)
              && (r.severity == WARNING <==> TTFT_SILVER_MS < r.p99 <= thresholdMs)
              && (r.severity == CRITICAL <==> TTFT_SILVER_MS < r.p99 && thresholdMs < r.p99 && thresholdMs * 2.0 < r.p99)
              && r.severity in {INFO, WARNING, HIGH, CRITICAL}
  {
    if trajectory == [] {
      return Result(0.0, NoTrajectory, 0.0, 0);
    }
    var samples: seq<real> := [];
    for i := 0 to |trajectory|
      invariant samples == SamplesOf(trajectory[..i])
    {
      assert trajectory[..i + 1][..i] == trajectory[..i];
      var action := trajectory[i];
      if action == NotAMapping {
        continue;
      }
      var ttft := action.ttft;
      if ttft == Absent {
        ttft := action.latency;
      }
      if ttft == Absent {
        continue;
      }
      if ttft.Number? && ttft.x > 0.0 {
        samples := samples + [ttft.x];
      }
    }
    assert trajectory[..|trajectory|] == trajectory;
    if samples == [] {
      return Result(0.0, NoSamples, 0.0, 0);
    }
    var p99 := P99(samples);
    var score, severity;
    if p99 <= TTFT_GOLD_MS {
      score, severity := 100.0, INFO;
    } else if p99 <= TTFT_SILVER_MS {
      score, severity := 85.0, INFO;
    } else if p99 <= thresholdMs {
      score, severity := 70.0, WARNING;
    } else if p99 <= thresholdMs * 2.0 {
      score, severity := 70.0 * (1.0 - (p99 - thresholdMs) / thresholdMs), HIGH;
      Decay(p99, p99, thresholdMs);
    } else {
      score, severity := 0.0, CRITICAL;
    }
    score := if score < 0.0 then 0.0 else if score > 100.0 then 100.0 else score;
    TierScoreAntitone(p99, p99, thresholdMs);
    ScoreByCount(samples, thresholdMs);
    return Result(score, severity, p99, |samples|);
  }
}
