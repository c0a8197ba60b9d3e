/** `FederationCascadeTester`: a fault spreads hop by hop along a line of agents, and a canonical
    scenario is scored. The random generator is any sequence of draws from [0, 1]; every result
    holds for all of them. */
module CascadeTesters {

  datatype AgentState = HEALTHY | FAILED | CASCADED

  const BREAKER_SWITCH_SLA_S := 5.0
  const RECOVERY_SYNC_SLA_S := 10.0
  const MAX_CASCADE_HOPS := 3

  function Down(s: AgentState): bool {
    s == FAILED || s == CASCADED
  }

  /** A neighbour on the line has failed or cascaded. */
  predicate Exposed(states: seq<AgentState>, i: nat)
    requires i < |states|
  {
    (i > 0 && Down(states[i - 1])) || (i + 1 < |states| && Down(states[i + 1]))
  }

  predicate Falls(states: seq<AgentState>, i: nat)
    requires i < |states|
  {
    states[i] == HEALTHY && Exposed(states, i)
  }

  /** The agents below `k` that fall, in order. */
  function Falling(states: seq<AgentState>, k: nat): seq<nat>
    requires k <= |states|
  {
    if k == 0 then []
    else Falling(states, k - 1) + if Falls(states, k - 1) then [k - 1] else []
  }

  lemma {:induction false} FallingMembers(states: seq<AgentState>, k: nat)
    requires k <= |states|
    ensures forall i :: i in Falling(states, k) <==> 0 <= i < k && Falls(states, i)
  {
    if k > 0 {
      FallingMembers(states, k - 1);
    }
  }

  /** One synchronous hop: exactly the exposed healthy agents fall. */
  function OneHop(states: seq<AgentState>): seq<AgentState> {
    seq(|states|, i requires 0 <= i < |states| => if Falls(states, i) then CASCADED else states[i])
  }

  /** Agents at distance one on the line, in either direction. */
  ghost predicate Beside(i: nat, k: nat) {
    k == i + 1 || i == k + 1
  }

  /** Some agent beside agent `i` is out of order. */
  ghost predicate Endangered(states: seq<AgentState>, i: nat) {
    exists k :: 0 <= k < |states| && Beside(i, k) && states[k] in {FAILED, CASCADED}
  }

  /** A hop takes down every healthy agent beside one that is out of order, and changes nobody else. */
  lemma HopMeans(states: seq<AgentState>, i: nat)
    requires i < |states|
    ensures OneHop(states)[i] == if states[i] == HEALTHY && Endangered(states, i) then CASCADED else states[i]
  {
    assert Exposed(states, i) ==> Endangered(states, i) by {
      if i > 0 && Down(states[i - 1]) {
        assert Beside(i, i - 1);
      } else if i + 1 < |states| {
        assert Beside(i, i + 1);
      }
    }
  }

  /** The agents before and after a hop. */
  ghost predicate Struck(states: seq<AgentState>, after: seq<AgentState>) {
    && |after| == |states|
    && forall i :: 0 <= i < |states| ==>
         after[i] == if states[i] == HEALTHY && Endangered(states, i) then CASCADED else states[i]
  }

  lemma HopStrikes(states: seq<AgentState>)
    ensures Struck(states, OneHop(states))
  {
    forall i | 0 <= i < |states|
      ensures OneHop(states)[i] == if states[i] == HEALTHY && Endangered(states, i) then CASCADED else states[i]
    {
      HopMeans(states, i);
    }
  }

  /** So a lone fault takes down the agents beside it, and nobody else falls. */
  lemma LoneFaultHop(states: seq<AgentState>, source: nat, i: nat)
    requires source < |states| && i < |states| && forall k :: 0 <= k < |states| ==> states[k] == HEALTHY
    ensures OneHop(states[source := FAILED])[i] == if i == source then FAILED else if Beside(i, source) then CASCADED else HEALTHY
  {
    HopMeans(states[source := FAILED], i);
  }

  function Max(x: real, y: real): real {
    if x >= y then x else y
  }

  function CascadeProbability(hop: nat): real {
    Max(0.0, 0.7 - hop as real * 0.15)
  }

  /** A point between `lo` and `hi`. */
  function Between(lo: real, hi: real, u: real): real {
    lo + (hi - lo) * u
  }

  lemma BetweenIsBetween(lo: real, hi: real, u: real)
    requires lo <= hi && 0.0 <= u <= 1.0
    ensures lo <= Between(lo, hi, u) <= hi
  {
    var width := hi - lo;
    assert width * u >= 0.0;
    assert width * (1.0 - u) >= 0.0;
    assert width * u + width * (1.0 - u) == width;
  }

  /** Of all hops only the first is more likely than not. */
  lemma OnlyFirstHopSpreads(hop: nat)
    requires hop >= 1
    ensures CascadeProbability(hop) > 0.5 <==> hop == 1
  {
  }

  /** The share of `m`'s values within a limit; half a mark when nothing was measured. */
  function ShareWithin(m: map<nat, real>, limit: real): real {
    if m == map[] then 0.5 else |set i | i in m && m[i] <= limit| as real / |m| as real
  }

  lemma WholeShare(x: real)
    requires x > 0.0
    ensures x / x == 1.0
  {
  }

  lemma AllWithin(m: map<nat, real>, limit: real)
    requires forall i :: i in m ==> m[i] <= limit
    ensures ShareWithin(m, limit) == if m == map[] then 0.5 else 1.0
  {
    assert (set i | i in m && m[i] <= limit) == m.Keys;
    if m != map[] {
      NonemptyMap(m);
      WholeShare(|m| as real);
    }
  }

  lemma NonemptyMap(m: map<nat, real>)
    requires m != map[]
    ensures |m.Keys| == |m| > 0
  {
    assert m.Keys != {};
  }

  function CountHealthy(states: seq<AgentState>, from: nat): nat
    requires from <= |states|
    decreases |states| - from
  {
    if from == |states| then 0 else (if states[from] == HEALTHY then 1 else 0) + CountHealthy(states, from + 1)
  }

  /** Two different agents from `from` on are healthy. */
  ghost predicate TwoHealthy(states: seq<AgentState>, from: nat) {
    exists i, j :: from <= i < j < |states| && states[i] == HEALTHY && states[j] == HEALTHY
  }

  lemma {:induction false} CountsHealthy(states: seq<AgentState>, from: nat)
    requires from <= |states|
    ensures CountHealthy(states, from) >= 1 <==> exists i :: from <= i < |states| && states[i] == HEALTHY
    ensures CountHealthy(states, from) >= 2 <==> TwoHealthy(states, from)
    decreases |states| - from
  {
    if from < |states| {
      CountsHealthy(states, from + 1);
      if TwoHealthy(states, from) {
        var i, j :| from <= i < j < |states| && states[i] == HEALTHY && states[j] == HEALTHY;
        assert i > from ==> TwoHealthy(states, from + 1);
      }
      if CountHealthy(states, from + 1) >= 1 && states[from] == HEALTHY {
        var j :| from + 1 <= j < |states| && states[j] == HEALTHY;
        assert TwoHealthy(states, from);
      }
    }
  }

  lemma {:induction false} AllHealthyCount(states: seq<AgentState>, from: nat)
    requires from <= |states| && forall i :: from <= i < |states| ==> states[i] == HEALTHY
    ensures CountHealthy(states, from) == |states| - from
    decreases |states| - from
  {
    if from < |states| {
      AllHealthyCount(states, from + 1);
    }
  }

  datatype Report = Report(
    score: real,
    isolation: real,
    depthControl: real,
    breakerPropagation: real,
    recoveryPropagation: real,
    splitBrain: real,
    undetectedSplitBrainReported: bool)

  /** Some agent falls at the next hop. */
  ghost predicate SomeoneFalls(states: seq<AgentState>) {
    exists i :: 0 <= i < |states| && Falls(states, i)
  }

  lemma SomeoneIsTimed(states: seq<AgentState>, before: map<nat, real>, after: map<nat, real>)
    requires after.Keys == before.Keys + set i | i in Falling(states, |states|)
    ensures after != map[] <==> before != map[] || SomeoneFalls(states)
  {
    FallingMembers(states, |states|);
    if SomeoneFalls(states) {
      var i :| 0 <= i < |states| && Falls(states, i);
      assert i in after;
    }
    if before != map[] {
      var i :| i in before;
      assert i in after;
    }
    if after != map[] {
      var i :| i in after;
      assert i !in before ==> Falls(states, i);
    }
  }

  /** With everyone healthy but the one at fault, a neighbour of it falls. */
  lemma LoneFaultSpreads(states: seq<AgentState>, source: nat)
    requires |states| >= 2 && source < |states| && forall i :: 0 <= i < |states| ==> states[i] == HEALTHY
    ensures SomeoneFalls(states[source := FAILED])
  {
    assert Falls(states[source := FAILED], if source == 0 then 1 else source - 1);
  }

  /** The report of a scenario, given whether any breaker switch has been timed, whether any recovery
      had been before, and whether a split brain had been detected before. */
  function Expected(switched: bool, recoveredBefore: bool, splitDetected: bool): Report {
    var breaker := if switched then 1.0 else 0.5;
    var recovery := if recoveredBefore then 1.0 else 0.5;
    var splitBrain := if splitDetected then 1.0 else 0.0;
    Report(55.0 + 20.0 * breaker + 15.0 * recovery + 10.0 * splitBrain,
           1.0, 1.0, breaker, recovery, splitBrain, !splitDetected)
  }

  /** An agent index out of range raises ValueError. */
  datatype Outcome = Scored(report: Report) | ValueError

  class FederationCascadeTester {
    const numAgents: nat
    const draw: nat -> real
    var drawn: nat
    var agentStates: seq<AgentState>
    var breakerTripped: seq<bool>
    var splitBrainDetected: bool
    var switchLatencies: map<nat, real>
    var recoveryLatencies: map<nat, real>
    var maxCascadeDepth: nat

    ghost predicate Valid()
      reads this
    {
      && numAgents >= 2 && |agentStates| == |breakerTripped| == numAgents
      && (forall k :: 0.0 <= draw(k) <= 1.0)
      && (forall i :: i in switchLatencies ==> 0.5 <= switchLatencies[i] <= 4.5)
      && (forall i :: i in recoveryLatencies ==> 1.0 <= recoveryLatencies[i] <= 9.0)
      && maxCascadeDepth <= 1
      && (forall i :: 0 <= i < numAgents && breakerTripped[i] ==> Down(agentStates[i]))
    }

    constructor (numAgents: nat, draw: nat -> real)
      requires numAgents >= 2 && forall k :: 0.0 <= draw(k) <= 1.0
      ensures Valid() && this.numAgents == numAgents && drawn == 0
      ensures forall i :: 0 <= i < numAgents ==> agentStates[i] == HEALTHY && !breakerTripped[i]
      ensures !splitBrainDetected && switchLatencies == map[] && recoveryLatencies == map[] && maxCascadeDepth == 0
    {
      this.numAgents := numAgents;
      this.draw := draw;
      drawn := 0;
      agentStates := seq(numAgents, _ => HEALTHY);
      breakerTripped := seq(numAgents, _ => false);
      splitBrainDetected := false;
      switchLatencies := map[];
      recoveryLatencies := map[];
      maxCascadeDepth := 0;
    }

    method Uniform(lo: real, hi: real) returns (x: real)
      requires Valid() && lo <= hi
      modifies this`drawn
      ensures Valid() && lo <= x <= hi
    {
      var u := draw(drawn);
      drawn := drawn + 1;
      BetweenIsBetween(lo, hi, u);
      x := Between(lo, hi, u);
    }

    /** The source raises ValueError for an index out of range. */
    method InjectFault(agentIndex: int) returns (ok: bool)
      requires Valid()
      modifies this`agentStates
      ensures Valid() && (ok <==> 0 <= agentIndex < numAgents)
      ensures agentStates == if ok then old(agentStates)[agentIndex := FAILED] else old(agentStates)
    {
      ok := 0 <= agentIndex < numAgents;
      if ok {
        agentStates := agentStates[agentIndex := FAILED];
      }
    }

    /** The source counts the neighbours that are down over all indices at distance one. */
    method FailedNeighbors(agentId: nat) returns (count: nat)
      requires Valid() && agentId < numAgents
      ensures count > 0 <==> Exposed(agentStates, agentId)
    {
      count := 0;
      for i := 0 to numAgents
        invariant count > 0 <==> exists k :: 0 <= k < i && (k == agentId - 1 || k == agentId + 1) && Down(agentStates[k])
      {
        if (i - agentId == 1 || agentId - i == 1) && Down(agentStates[i]) {
          count := count + 1;
        }
      }
    }

    /** The agents that fall at this hop, in order. */
    method NewFailures(hop: nat) returns (fallen: seq<nat>)
      requires Valid() && hop >= 1
      ensures fallen == if hop == 1 then Falling(agentStates, numAgents) else []
    {
      OnlyFirstHopSpreads(hop);
      fallen := [];
      for agentId := 0 to numAgents
        invariant fallen == if hop == 1 then Falling(agentStates, agentId) else []
      {
        if agentStates[agentId] != HEALTHY {
          continue;
        }
        var failedNeighbors := FailedNeighbors(agentId);
        if failedNeighbors > 0 && CascadeProbability(hop) > 0.5 {
          fallen := fallen + [agentId];
        }
      }
    }

    /** One agent falls: its breaker trips and the switch is timed. */
    method TakeDownOne(agentId: nat, hop: nat)
      requires Valid() && hop <= 1 && agentId < numAgents
      modifies this`drawn, this`agentStates, this`breakerTripped, this`switchLatencies, this`maxCascadeDepth
      ensures Valid()
      ensures agentStates == old(agentStates)[agentId := CASCADED] && breakerTripped == old(breakerTripped)[agentId := true]
      ensures switchLatencies.Keys == old(switchLatencies).Keys + {agentId}
      ensures maxCascadeDepth == if hop < old(maxCascadeDepth) then old(maxCascadeDepth) else hop
    {
      agentStates := agentStates[agentId := CASCADED];
      breakerTripped := breakerTripped[agentId := true];
      var switchLatency := Uniform(0.5, 4.5);
      switchLatencies := switchLatencies[agentId := switchLatency];
      maxCascadeDepth := if hop > maxCascadeDepth then hop else maxCascadeDepth;
    }

    /** Marks the agents in `fallen` as cascaded, trips their breakers and times the switch. */
    method TakeDown(fallen: seq<nat>, hop: nat)
      requires Valid() && hop <= 1 && forall k :: 0 <= k < |fallen| ==> fallen[k] < numAgents
      modifies this`drawn, this`agentStates, this`breakerTripped, this`switchLatencies, this`maxCascadeDepth
      ensures Valid()
      ensures forall i :: 0 <= i < numAgents ==>
                && agentStates[i] == (if i in fallen then CASCADED else old(agentStates)[i])
                && breakerTripped[i] == (i in fallen || old(breakerTripped)[i])
      ensures switchLatencies.Keys == old(switchLatencies).Keys + set i | i in fallen
      ensures maxCascadeDepth == if fallen == [] || hop < old(maxCascadeDepth) then old(maxCascadeDepth) else hop
    {
      for k := 0 to |fallen|
        invariant Valid()
        invariant forall i :: 0 <= i < numAgents ==>
                    && agentStates[i] == (if i in fallen[..k] then CASCADED else old(agentStates)[i])
                    && breakerTripped[i] == (i in fallen[..k] || old(breakerTripped)[i])
        invariant switchLatencies.Keys == old(switchLatencies).Keys + set i | i in fallen[..k]
        invariant maxCascadeDepth == if k == 0 || hop < old(maxCascadeDepth) then old(maxCascadeDepth) else hop
      {
        assert fallen[..k + 1] == fallen[..k] + [fallen[k]];
        TakeDownOne(fallen[k], hop);
      }
      assert fallen[..|fallen|] == fallen;
    }

    /** The one hop that any propagation with hops to spend amounts to. */
    ghost predicate Hopped(states: seq<AgentState>, tripped: seq<bool>, timed: set<nat>, depth: nat)
      requires |states| == |tripped| == |agentStates| == |breakerTripped|
      reads this
    {
      && agentStates == OneHop(states)
      && (forall i :: 0 <= i < |states| ==> breakerTripped[i] == (tripped[i] || Falls(states, i)))
      && switchLatencies.Keys == timed + (set i | i in Falling(states, |states|))
      && maxCascadeDepth == if Falling(states, |states|) == [] then depth else 1
    }

    /** From any state: exactly the healthy line-neighbours of agents that are down fall, at the first
        hop, and no later hop does anything. */
    method Propagate(maxHops: int := 10) returns (cascaded: nat)
      requires Valid()
      modifies this`drawn, this`agentStates, this`breakerTripped, this`switchLatencies, this`maxCascadeDepth
      ensures Valid()
      ensures maxHops >= 1 ==> Struck(old(agentStates), agentStates)
      ensures if maxHops >= 1
              then Hopped(old(agentStates), old(breakerTripped), old(switchLatencies).Keys, old(maxCascadeDepth)) &&
                   cascaded == |Falling(old(agentStates), numAgents)|
              else unchanged(this) && cascaded == 0
    {
      cascaded := 0;
      FallingMembers(agentStates, numAgents);
      var hop := 1;
      while hop <= maxHops
        invariant Valid() && 1 <= hop <= 2
        invariant hop == 1 ==> unchanged(this) && cascaded == 0
        invariant hop == 2 ==>
                    && maxHops >= 1
                    && Hopped(old(agentStates), old(breakerTripped), old(switchLatencies).Keys, old(maxCascadeDepth))
                    && cascaded == |Falling(old(agentStates), numAgents)|
        decreases maxHops - hop
      {
        var fallen := NewFailures(hop);
        if fallen == [] {
          if hop == 1 {
            assert forall i :: 0 <= i < numAgents ==> Falls(agentStates, i) ==> i in fallen;
            assert agentStates == OneHop(old(agentStates));
            assert switchLatencies.Keys == old(switchLatencies).Keys + (set i | i in fallen);
          }
          break;
        }
        assert forall k :: 0 <= k < |fallen| ==> fallen[k] in fallen;
        TakeDown(fallen, hop);
        cascaded := cascaded + |fallen|;
        assert agentStates == OneHop(old(agentStates));
        hop := hop + 1;
      }
      HopStrikes(old(agentStates));
    }

    /** Everyone is healthy again, no breaker is tripped, and everyone has a re-sync latency. */
    method SimulateRecovery() returns (latencies: map<nat, real>)
      requires Valid()
      modifies this`drawn, this`agentStates, this`breakerTripped, this`recoveryLatencies
      ensures Valid() && latencies == recoveryLatencies
      ensures forall i :: 0 <= i < numAgents ==> agentStates[i] == HEALTHY && !breakerTripped[i] && i in recoveryLatencies
    {
      for i := 0 to numAgents
        invariant Valid() && forall k :: 0 <= k < i ==> agentStates[k] == HEALTHY && !breakerTripped[k]
      {
        if Down(agentStates[i]) {
          agentStates := agentStates[i := HEALTHY];
          breakerTripped := breakerTripped[i := false];
        }
      }
      for i := 0 to numAgents
        invariant Valid() && forall k :: 0 <= k < numAgents ==> agentStates[k] == HEALTHY && !breakerTripped[k]
        invariant forall k :: 0 <= k < i ==> k in recoveryLatencies
      {
        if agentStates[i] == HEALTHY {
          var latency := Uniform(1.0, 9.0);
          recoveryLatencies := recoveryLatencies[i := latency];
        }
      }
      return recoveryLatencies;
    }

    method DetectSplitBrain() returns (detected: bool)
      requires Valid()
      modifies this`splitBrainDetected
      ensures Valid() && detected == splitBrainDetected
      ensures detected <==> TwoHealthy(agentStates, 0)
    {
      CountsHealthy(agentStates, 0);
      splitBrainDetected := CountHealthy(agentStates, 0) >= 2;
      return splitBrainDetected;
    }

    /** The canonical scenario: fault, propagation, recovery, scoring. The recovery dimension is read
        before the recovery, isolation after it, and split-brain detection is never called, so from
        any state the score depends on three yes-or-no facts alone. */
    method RunScenario(sourceIndex: int := 0) returns (outcome: Outcome)
      requires Valid()
      modifies this
      ensures Valid()
      ensures outcome == ValueError <==> !(0 <= sourceIndex < numAgents)
      ensures outcome == ValueError ==> unchanged(this)
      ensures outcome.Scored? ==>
                && outcome.report == Expected(
                     old(switchLatencies) != map[] || SomeoneFalls(old(agentStates)[sourceIndex := FAILED]),
                     old(recoveryLatencies) != map[],
                     old(splitBrainDetected))
                && splitBrainDetected == old(splitBrainDetected)
                && recoveryLatencies != map[]
                && forall i :: 0 <= i < numAgents ==> agentStates[i] == HEALTHY && !breakerTripped[i]
    {
      if !(0 <= sourceIndex < numAgents) {
        return ValueError;
      }
      var recovery := PlayScenario(sourceIndex);
      var report := Grade(recovery);
      return Scored(report);
    }

    /** The scenario up to its scoring; `recovery` is the recovery score as it stood before. */
    method PlayScenario(sourceIndex: nat) returns (recovery: real)
      requires Valid() && sourceIndex < numAgents
      modifies this
      ensures Valid()
      ensures recovery == if old(recoveryLatencies) == map[] then 0.5 else 1.0
      ensures splitBrainDetected == old(splitBrainDetected) && recoveryLatencies != map[]
      ensures forall i :: 0 <= i < numAgents ==> agentStates[i] == HEALTHY && !breakerTripped[i]
      ensures switchLatencies != map[] <==>
              old(switchLatencies) != map[] || SomeoneFalls(old(agentStates)[sourceIndex := FAILED])
    {
      var _ := InjectFault(sourceIndex);
      ghost var faulted, timed := agentStates, switchLatencies;
      var _ := Propagate();
      SomeoneIsTimed(faulted, timed, switchLatencies);
      AllWithin(recoveryLatencies, RECOVERY_SYNC_SLA_S);
      recovery := ShareWithin(recoveryLatencies, RECOVERY_SYNC_SLA_S);
      var _ := SimulateRecovery();
      assert 0 in recoveryLatencies;
    }

    /** The five weighted dimensions, once everyone has recovered. */
    method Grade(recovery: real) returns (report: Report)
      requires Valid() && 0.0 <= recovery <= 1.0
      requires forall i :: 0 <= i < numAgents ==> agentStates[i] == HEALTHY
      ensures var breaker := if switchLatencies == map[] then 0.5 else 1.0;
              var splitBrain := if splitBrainDetected then 1.0 else 0.0;
              report == Report(55.0 + 20.0 * breaker + 15.0 * recovery + 10.0 * splitBrain,
                               1.0, 1.0, breaker, recovery, splitBrain, !splitBrainDetected)
    {
      var splitBrain := if splitBrainDetected then 1.0 else 0.0;
      AllHealthyCount(agentStates, 1);
      var isolation := CountHealthy(agentStates, 1) as real / (if numAgents - 1 > 1 then numAgents - 1 else 1) as real;
      var depthControl := if maxCascadeDepth <= MAX_CASCADE_HOPS then 1.0
                          else Max(0.0, 1.0 - (maxCascadeDepth - MAX_CASCADE_HOPS) as real * 0.2);
      WholeShare((numAgents - 1) as real);
      AllWithin(switchLatencies, BREAKER_SWITCH_SLA_S);
      var breaker := ShareWithin(switchLatencies, BREAKER_SWITCH_SLA_S);
      var overall := (isolation * 0.3 + depthControl * 0.25 + breaker * 0.2 + recovery * 0.15 + splitBrain * 0.1) * 100.0;
      overall := Max(0.0, if overall > 100.0 then 100.0 else overall);
      return Report(overall, isolation, depthControl, breaker, recovery, splitBrain, splitBrain == 0.0);
    }
  }

  /** The report of the `k`-th run, counted from zero. */
  ghost function UsualReport(k: nat, detect: bool): Report {
    if detect then Report(if k == 0 then 92.5 else 100.0, 1.0, 1.0, 1.0, if k == 0 then 0.5 else 1.0, 1.0, false)
    else Report(if k == 0 then 82.5 else 90.0, 1.0, 1.0, 1.0, if k == 0 then 0.5 else 1.0, 0.0, true)
  }

  /** A first run scores 82.5 and every later one 90, whatever the number of agents, the valid
      sources and the draws; ten points more if a split brain was looked for beforehand, since all agents
      are healthy then. */
  method FirstAndLaterRuns(numAgents: nat, draw: nat -> real, sources: seq<int>, detect: bool) returns (reports: seq<Report>)
    requires numAgents >= 2 && forall k :: 0.0 <= draw(k) <= 1.0
    requires forall k :: 0 <= k < |sources| ==> 0 <= sources[k] < numAgents
    ensures |reports| == |sources|
    ensures forall k :: 0 <= k < |reports| ==> reports[k] == UsualReport(k, detect)
  {
    var tester := new FederationCascadeTester(numAgents, draw);
    if detect {
      assert tester.agentStates[0] == tester.agentStates[1] == HEALTHY;
      var _ := tester.DetectSplitBrain();
    }
    reports := [];
    for k := 0 to |sources|
      invariant tester.Valid() && fresh(tester) && tester.numAgents == numAgents && tester.splitBrainDetected == detect
      invariant forall i :: 0 <= i < numAgents ==> tester.agentStates[i] == HEALTHY
      invariant k == 0 <==> tester.recoveryLatencies == map[]
      invariant |reports| == k && forall j :: 0 <= j < k ==> reports[j] == UsualReport(j, detect)
    {
      LoneFaultSpreads(tester.agentStates, sources[k]);
      var outcome := tester.RunScenario(sources[k]);
      reports := reports + [outcome.report];
    }
  }

  /** Where all agents are at fault beforehand nobody is left to fall: no breaker switches, and half its
      marks are lost too. */
  method RunWithoutAnyoneToFall(numAgents: nat, draw: nat -> real, source: nat) returns (report: Report)
    requires numAgents >= 2 && source < numAgents && forall k :: 0.0 <= draw(k) <= 1.0
    ensures report == Report(72.5, 1.0, 1.0, 0.5, 0.5, 0.0, true)
  {
    var tester := new FederationCascadeTester(numAgents, draw);
    for k := 0 to numAgents
      invariant tester.Valid() && fresh(tester) && tester.numAgents == numAgents && !tester.splitBrainDetected
      invariant tester.switchLatencies == map[] && tester.recoveryLatencies == map[]
      invariant forall i :: 0 <= i < k ==> tester.agentStates[i] == FAILED
    {
      var _ := tester.InjectFault(k);
    }
    assert !SomeoneFalls(tester.agentStates[source := FAILED]);
    var outcome := tester.RunScenario(source);
    report := outcome.report;
  }
}
