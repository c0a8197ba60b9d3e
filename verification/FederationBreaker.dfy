/** `FederationCircuitBreaker`: a tripped breaker spreads, breadth first, along the
    dependency matrix to every agent that depends strongly enough on an open one. */
module FederationBreaker {
  import opened Graphs
  import opened SearchOrder
  import opened Options

  datatype BreakerState = CLOSED | OPEN

  datatype PathEntry = PathEntry(name: string, state: BreakerState, depth: nat)

  datatype CascadeResult = CascadeResult(
    source: string,
    cascadeDepth: nat,
    affectedCount: nat,
    totalAgents: nat,
    affectedPct: real,
    cascadePath: seq<PathEntry>,
    fullyContained: bool)

  const DEPENDENCY_THRESHOLD := 0.4

  const DEFAULT_NAMES: seq<string> := ["vendor_a", "vendor_b", "vendor_c", "vendor_d", "vendor_e"]

  /** Python's indexing: from the end for a negative index, and IndexError beyond either end. */
  function At<T>(s: seq<T>, i: int): Option<T> {
    if 0 <= i < |s| then Some(s[i]) else if -|s| <= i < 0 then Some(s[|s| + i]) else None
  }

  function NameOf(names: seq<string>, i: int): string {
    At(names, i).GetOr("")
  }

  /** How much agent `v` depends on agent `u`, where the matrix has that cell. */
  function Weight(matrix: seq<seq<real>>, v: int, u: int): Option<real> {
    var row := At(matrix, v);
    if row == None then None else At(row.value, u)
  }

  /** The matrix has a cell for every pair of the `n` agents; extra rows and columns are ignored. */
  predicate Covers(matrix: seq<seq<real>>, n: nat) {
    n <= |matrix| && forall i :: 0 <= i < n ==> n <= |matrix[i]|
  }

  predicate DependsOn(matrix: seq<seq<real>>, v: int, u: int) {
    var weight := Weight(matrix, v, u);
    weight.Some? && weight.value > DEPENDENCY_THRESHOLD
  }

  /** An open breaker at `u` trips `v`. */
  ghost function Trips(matrix: seq<seq<real>>, n: nat): (int, int) -> bool {
    (u: int, v: int) => 0 <= v < n && DependsOn(matrix, v, u)
  }

  /** The weight decides, in the row of the agent that depends: more than 0.4 of it trips, 0.4 does not. */
  lemma WeightDecides(matrix: seq<seq<real>>, n: nat, u: nat, v: nat)
    requires Covers(matrix, n) && u < n && v < n
    ensures Trips(matrix, n)(u, v) <==> matrix[v][u] > 0.4
  {
    assert Weight(matrix, v, u) == Some(matrix[v][u]);
  }

  /** The matrix has no cell for how much `v` depends on `u`. */
  ghost function Lacks(matrix: seq<seq<real>>): (int, int) -> bool {
    (u: int, v: int) => Weight(matrix, v, u) == None
  }

  /** A cascade from `source` needs a cell that the matrix lacks: when an affected agent comes to be
      scanned, some agent has not been found and there is no cell for the two. */
  ghost predicate NeedsMissingCell(matrix: seq<seq<real>>, n: nat, source: int) {
    MeetsGap(Trips(matrix, n), Lacks(matrix), n, source)
  }

  /** The agents a cascade from `source` opens, as indices. */
  ghost function Affected(matrix: seq<seq<real>>, n: nat, source: int): set<int> {
    set i | -(n as int) <= i < n && Reachable(Trips(matrix, n), source, i)
  }

  /** Everything one cascade report must say, in terms of reachability and shortest distance alone. */
  ghost predicate Reports(names: seq<string>, matrix: seq<seq<real>>, source: int, r: CascadeResult)
    requires IsIndex(|names|, source)
  {
    var affected := Affected(matrix, |names|, source);
    && r.source == NameOf(names, source)
    && r.affectedCount == |affected|
    && r.totalAgents == |names|
    && r.affectedPct == |affected| as real / |names| as real * 100.0
    && (r.fullyContained <==> affected == {source})
    && (exists order: seq<int> :: ListsCascade(names, matrix, source, r, order))
  }

  /** `order` numbers the entries of the cascade path: each affected agent once, by rising
      shortest distance, the last distance being the cascade depth. */
  ghost predicate ListsCascade(names: seq<string>, matrix: seq<seq<real>>, source: int, r: CascadeResult, order: seq<int>)
    requires IsIndex(|names|, source)
  {
    && |order| == |r.cascadePath| >= 1
    && Distinct(order)
    && (set i | i in order) == Affected(matrix, |names|, source)
    && (forall k :: 0 <= k < |order| ==> ListedAt(names, matrix, source, r.cascadePath, order, k))
    && r.cascadeDepth == r.cascadePath[|order| - 1].depth
  }

  /** Entry `k` of the path is about agent `order[k]`, at its distance from the source and no nearer
      than the entry before. */
  ghost predicate ListedAt(names: seq<string>, matrix: seq<seq<real>>, source: int, path: seq<PathEntry>, order: seq<int>, k: nat)
    requires k < |order| == |path|
  {
    && IsIndex(|names|, order[k])
    && path[k].name == NameOf(names, order[k])
    && path[k].state == OPEN
    && IsDistance(Trips(matrix, |names|), source, order[k], path[k].depth)
    && (k > 0 ==> path[k - 1].depth <= path[k].depth)
  }

  /** The reports kept are exactly those of the cascades from `sources`, in order. */
  ghost predicate AllReported(names: seq<string>, matrix: seq<seq<real>>, sources: seq<int>, history: seq<CascadeResult>) {
    if sources == [] then history == []
    else
      var n := |sources| - 1;
      && |history| == n + 1
      && IsIndex(|names|, sources[n]) && Reports(names, matrix, sources[n], history[n])
      && AllReported(names, matrix, sources[..n], history[..n])
  }

  lemma ReportedOnceMore(names: seq<string>, matrix: seq<seq<real>>, sources: seq<int>, history: seq<CascadeResult>,
                         source: int, r: CascadeResult)
    requires AllReported(names, matrix, sources, history) && IsIndex(|names|, source) && Reports(names, matrix, source, r)
    ensures AllReported(names, matrix, sources + [source], history + [r])
  {
    assert (sources + [source])[..|sources|] == sources && (history + [r])[..|sources|] == history;
  }

  /** A cascade from one of the `sources` reaches the agent with this name. */
  ghost predicate NameHit(names: seq<string>, matrix: seq<seq<real>>, sources: seq<int>, name: string) {
    exists k :: 0 <= k < |sources| && NameHitBy(names, matrix, sources[k], name)
  }

  ghost predicate NameHitBy(names: seq<string>, matrix: seq<seq<real>>, source: int, name: string) {
    Names(names, Affected(matrix, |names|, source), name)
  }

  /** Reached by a reported cascade means open, and open means reached by some cascade. */
  ghost predicate Explained(names: seq<string>, matrix: seq<seq<real>>, completed: seq<int>, attempted: seq<int>,
                            states: map<string, BreakerState>, name: string)
    requires name in states
  {
    && (NameHit(names, matrix, completed, name) ==> states[name] == OPEN)
    && (states[name] == OPEN ==> NameHit(names, matrix, attempted, name))
  }

  ghost predicate StatesExplained(names: seq<string>, matrix: seq<seq<real>>, completed: seq<int>, attempted: seq<int>,
                                  states: map<string, BreakerState>) {
    forall name :: name in states ==> Explained(names, matrix, completed, attempted, states, name)
  }

  lemma HitOnceMore(names: seq<string>, matrix: seq<seq<real>>, sources: seq<int>, source: int, name: string)
    ensures NameHit(names, matrix, sources + [source], name) <==>
            NameHit(names, matrix, sources, name) || NameHitBy(names, matrix, source, name)
  {
    var all := sources + [source];
    if NameHit(names, matrix, sources, name) {
      var k :| 0 <= k < |sources| && NameHitBy(names, matrix, sources[k], name);
      assert all[k] == sources[k];
    }
    assert all[|sources|] == source;
  }

  /** The states after one more cascade that has tripped `reached`, reported or not. */
  lemma StillExplained(names: seq<string>, matrix: seq<seq<real>>, before: map<string, BreakerState>,
                       states: map<string, BreakerState>, failures: map<string, nat>, reached: set<int>,
                       completed: seq<int>, attempted: seq<int>, source: int, reported: bool)
    requires Tripped(names, before, states, failures, reached)
    requires reached <= Affected(matrix, |names|, source)
    requires reported ==> reached == Affected(matrix, |names|, source)
    requires StatesExplained(names, matrix, completed, attempted, before)
    ensures StatesExplained(names, matrix, if reported then completed + [source] else completed, attempted + [source], states)
  {
    forall name | name in states
      ensures Explained(names, matrix, if reported then completed + [source] else completed, attempted + [source], states, name)
    {
      assert Explained(names, matrix, completed, attempted, before, name);
      assert TrippedAt(names, before, states, failures, reached, name);
      HitOnceMore(names, matrix, completed, source, name);
      HitOnceMore(names, matrix, attempted, source, name);
    }
  }

  // ---- What a search keeps besides ---------------------------------------------

  /** The cascade path that goes with what has been found. */
  function PathOf(names: seq<string>, found: seq<(int, nat)>): seq<PathEntry> {
    seq(|found|, k requires 0 <= k < |found| => PathEntry(NameOf(names, found[k].0), OPEN, found[k].1))
  }

  ghost predicate Kept(names: seq<string>, found: seq<(int, nat)>, visited: set<int>, path: seq<PathEntry>, maxDepth: nat) {
    && found != []
    && visited == Vertices(found)
    && path == PathOf(names, found)
    && maxDepth == found[|found| - 1].1
  }

  lemma FrontOfQueue(found: seq<(int, nat)>, head: nat, queue: seq<(int, nat)>)
    requires head <= |found| && queue == found[head..] && queue != []
    ensures head < |found| && queue[0] == found[head] && queue[1..] == found[head + 1..]
  {
  }

  lemma StartKept(names: seq<string>, source: int)
    ensures Kept(names, [(source, 0)], {source}, [PathEntry(NameOf(names, source), OPEN, 0)], 0)
  {
    VerticesGrow([], (source, 0));
    assert Vertices([]) == {} && [] + [(source, 0)] == [(source, 0)];
  }

  /** One more agent is found while entry `head` is scanned. */
  lemma Discover(names: seq<string>, matrix: seq<seq<real>>, before: seq<(int, nat)>, head: nat, i: nat,
                 d: nat, found: seq<(int, nat)>, visited: set<int>, path: seq<PathEntry>, maxDepth: nat)
    requires Shallow(before, head) && i < |names| && d == before[head].1 + 1
    requires found == before + NewFinds(Trips(matrix, |names|), before, head, i) && Kept(names, found, visited, path, maxDepth)
    requires i !in visited && DependsOn(matrix, i, before[head].0)
    ensures found + [(i, d)] == before + NewFinds(Trips(matrix, |names|), before, head, i + 1)
    ensures (found + [(i, d)])[head + 1..] == found[head + 1..] + [(i, d)]
    ensures Kept(names, found + [(i, d)], visited + {i}, path + [PathEntry(NameOf(names, i), OPEN, d)],
                 if d > maxDepth then d else maxDepth)
  {
    OneMoreLook(Trips(matrix, |names|), before, head, i, found);
    StaysShallow(Trips(matrix, |names|), before, head, i);
    assert found[|found| - 1].1 <= d;
    VerticesGrow(found, (i, d));
    assert PathOf(names, found + [(i, d)]) == PathOf(names, found) + [PathEntry(NameOf(names, i), OPEN, d)];
  }

  /** An agent already visited, or that does not depend on the current one, changes nothing. */
  lemma LooksPast(names: seq<string>, matrix: seq<seq<real>>, before: seq<(int, nat)>, head: nat, i: nat,
                  found: seq<(int, nat)>, visited: set<int>, path: seq<PathEntry>, maxDepth: nat)
    requires head < |before| && i < |names|
    requires found == before + NewFinds(Trips(matrix, |names|), before, head, i) && Kept(names, found, visited, path, maxDepth)
    requires CellsRead(Lacks(matrix), before, head, i)
    requires i in visited || (Weight(matrix, i, before[head].0).Some? && !DependsOn(matrix, i, before[head].0))
    ensures found == before + NewFinds(Trips(matrix, |names|), before, head, i + 1)
    ensures CellsRead(Lacks(matrix), before, head, i + 1)
  {
    assert CellRead(Lacks(matrix), before, head, i) || i in visited;
    OneMoreLook(Trips(matrix, |names|), before, head, i, found);
  }

  /** An agent not visited for which there is no cell ends the scan. */
  lemma StopsHere(names: seq<string>, matrix: seq<seq<real>>, source: int, before: seq<(int, nat)>, head: nat, i: nat,
                  found: seq<(int, nat)>, visited: set<int>, path: seq<PathEntry>, maxDepth: nat)
    requires before == Scanned(Trips(matrix, |names|), |names|, source, head) && head < |before| && i < |names|
    requires NoGapBefore(Trips(matrix, |names|), Lacks(matrix), |names|, source, head)
    requires found == before + NewFinds(Trips(matrix, |names|), before, head, i) && Kept(names, found, visited, path, maxDepth)
    requires CellsRead(Lacks(matrix), before, head, i)
    requires i !in visited && Weight(matrix, i, before[head].0) == None
    ensures StopsAt(Trips(matrix, |names|), Lacks(matrix), |names|, source, head, i)
    ensures found == FoundUntil(Trips(matrix, |names|), Lacks(matrix), |names|, source, head, i)
  {
    OneMoreLook(Trips(matrix, |names|), before, head, i, found);
    ScanStops(Trips(matrix, |names|), Lacks(matrix), |names|, source, head, i);
  }

  /** Whatever a search under way has found is affected. */
  lemma FoundIsAffected(matrix: seq<seq<real>>, n: nat, source: int, found: seq<(int, nat)>, head: nat)
    requires IsIndex(n, source) && BfsInvariant(Trips(matrix, n), source, found, head)
    ensures Vertices(found) <= Affected(matrix, n, source) && source in Vertices(found)
  {
    assert found[0].0 == source;
    forall i | i in Vertices(found)
      ensures i in Affected(matrix, n, source)
    {
      var k :| 0 <= k < |found| && found[k].0 == i;
      FoundAreIndices(Trips(matrix, n), n, source, found, head, k);
      assert WalkedTo(Trips(matrix, n), source, found, k);
    }
  }

  /** So it is when a missing cell has stopped it. */
  lemma FoundUntilIsAffected(matrix: seq<seq<real>>, n: nat, source: int, k: nat, v: nat)
    requires IsIndex(n, source) && Gap(Trips(matrix, n), Lacks(matrix), n, source, k, v)
    ensures var found := FoundUntil(Trips(matrix, n), Lacks(matrix), n, source, k, v);
            Vertices(found) <= Affected(matrix, n, source) && source in Vertices(found)
  {
    var edge := Trips(matrix, n);
    ScannedIsBreadthFirst(edge, n, source, k);
    ScanStep(edge, n, source, Scanned(edge, n, source, k), k, v);
    FoundIsAffected(matrix, n, source, FoundUntil(edge, Lacks(matrix), n, source, k, v), k);
  }

  lemma SourceIsAffected(matrix: seq<seq<real>>, n: nat, source: int)
    requires IsIndex(n, source)
    ensures source in Affected(matrix, n, source)
  {
    TrivialWalk(Trips(matrix, n), source);
  }

  /** A search with nothing left to scan has found exactly the affected agents. */
  lemma SearchFinds(matrix: seq<seq<real>>, n: nat, source: int, found: seq<(int, nat)>)
    requires IsIndex(n, source) && BfsInvariant(Trips(matrix, n), source, found, |found|)
    ensures Vertices(found) == Affected(matrix, n, source)
  {
    FoundIsAffected(matrix, n, source, found, |found|);
    forall i | i in Affected(matrix, n, source)
      ensures i in Vertices(found)
    {
      BfsFindsReachable(Trips(matrix, n), source, found, i);
    }
  }

  function Order(found: seq<(int, nat)>): seq<int> {
    seq(|found|, k requires 0 <= k < |found| => found[k].0)
  }

  lemma OrderMembers(found: seq<(int, nat)>, i: int)
    ensures i in Order(found) <==> Found(found, i)
  {
    if Found(found, i) {
      var k :| 0 <= k < |found| && found[k].0 == i;
      assert Order(found)[k] == i;
    }
  }

  lemma SearchLists(names: seq<string>, matrix: seq<seq<real>>, source: int, found: seq<(int, nat)>, r: CascadeResult)
    requires IsIndex(|names|, source) && BfsInvariant(Trips(matrix, |names|), source, found, |found|)
    requires r.cascadePath == PathOf(names, found) && r.cascadeDepth == found[|found| - 1].1
    ensures ListsCascade(names, matrix, source, r, Order(found))
  {
    OrderedPairs(found);
    SearchFinds(matrix, |names|, source, found);
    var order := Order(found);
    forall i
      ensures i in order <==> i in Vertices(found)
    {
      OrderMembers(found, i);
    }
    assert (set i | i in order) == Vertices(found);
    forall k | 0 <= k < |found|
      ensures ListedAt(names, matrix, source, r.cascadePath, order, k)
    {
      FoundAreIndices(Trips(matrix, |names|), |names|, source, found, |found|, k);
      BfsFindsDistance(Trips(matrix, |names|), source, found, k);
    }
  }

  lemma OnlyMember(s: set<int>, x: int)
    requires x in s
    ensures |s| == 1 <==> s == {x}
  {
    SubsetCount({x}, s);
  }

  /** When everything found has been scanned the report is exact. */
  lemma SearchReports(names: seq<string>, matrix: seq<seq<real>>, source: int, head: nat, visited: set<int>,
                      path: seq<PathEntry>, maxDepth: nat, r: CascadeResult)
    requires IsIndex(|names|, source) && |Scanned(Trips(matrix, |names|), |names|, source, head)| <= head
    requires Kept(names, Scanned(Trips(matrix, |names|), |names|, source, head), visited, path, maxDepth)
    requires r == CascadeResult(NameOf(names, source), maxDepth, |visited|, |names|,
                                |visited| as real / |names| as real * 100.0, path, |visited| == 1)
    ensures Reports(names, matrix, source, r) && visited == Affected(matrix, |names|, source)
  {
    var found := Scanned(Trips(matrix, |names|), |names|, source, head);
    ScannedIsBreadthFirst(Trips(matrix, |names|), |names|, source, head);
    SearchFinds(matrix, |names|, source, found);
    SearchLists(names, matrix, source, found, r);
    assert found[0].0 == source;
    OnlyMember(visited, source);
  }

  // ---- What is tripped -----------------------------------------------------------

  ghost predicate Names(names: seq<string>, agents: set<int>, name: string) {
    exists i :: i in agents && IsIndex(|names|, i) && NameOf(names, i) == name
  }

  ghost predicate TrippedAt(names: seq<string>, before: map<string, BreakerState>, states: map<string, BreakerState>,
                            failures: map<string, nat>, visited: set<int>, name: string)
    requires name in before && name in states && name in failures
  {
    && (states[name] == OPEN <==> before[name] == OPEN || Names(names, visited, name))
    && failures[name] == if states[name] == OPEN then 3 else 0
  }

  /** The agents in `visited` have been tripped on top of the states `before`. */
  ghost predicate Tripped(names: seq<string>, before: map<string, BreakerState>, states: map<string, BreakerState>,
                          failures: map<string, nat>, visited: set<int>) {
    && states.Keys == failures.Keys == before.Keys == (set name | name in names)
    && (forall name :: name in before ==> TrippedAt(names, before, states, failures, visited, name))
  }

  lemma TripOneMore(names: seq<string>, before: map<string, BreakerState>, states: map<string, BreakerState>,
                    failures: map<string, nat>, visited: set<int>, i: int)
    requires Tripped(names, before, states, failures, visited) && IsIndex(|names|, i)
    ensures Tripped(names, before, states[NameOf(names, i) := OPEN], failures[NameOf(names, i) := 3], visited + {i})
  {
    var own := NameOf(names, i);
    assert own in names;
    forall name | name in before
      ensures TrippedAt(names, before, states[own := OPEN], failures[own := 3], visited + {i}, name)
    {
      assert TrippedAt(names, before, states, failures, visited, name);
      if name == own {
        assert i in visited + {i};
      }
      if Names(names, visited, name) {
        var j :| j in visited && IsIndex(|names|, j) && NameOf(names, j) == name;
        assert j in visited + {i};
      }
    }
  }

  // ---- When a cascade needs a missing cell ----------------------------------------

  /** A cell missing between an affected agent and one at least two steps farther from the source, or
      one that is not affected, stops the cascade: ... */
  lemma FarMissingCellStops(matrix: seq<seq<real>>, n: nat, source: int, u: int, d: nat, v: nat)
    requires IsIndex(n, source) && IsDistance(Trips(matrix, n), source, u, d)
    requires v < n && Weight(matrix, v, u) == None && !ReachedWithin(Trips(matrix, n), source, v, d + 1)
    ensures NeedsMissingCell(matrix, n, source)
  {
    FarGapStops(Trips(matrix, n), Lacks(matrix), n, source, u, d, v);
  }

  /** ... and whatever stops it is a cell missing between an affected agent and one farther than it. */
  lemma OnlyFartherMissingCellStops(matrix: seq<seq<real>>, n: nat, source: int) returns (u: int, d: nat, v: nat)
    requires IsIndex(n, source) && NeedsMissingCell(matrix, n, source)
    ensures IsIndex(n, u) && IsDistance(Trips(matrix, n), source, u, d)
    ensures v < n && Weight(matrix, v, u) == None && !ReachedWithin(Trips(matrix, n), source, v, d)
  {
    u, d, v := OnlyFartherGapStops(Trips(matrix, n), Lacks(matrix), n, source);
  }

  /** A matrix with a cell for every pair never stops a cascade. */
  lemma CoveringLacksNothing(matrix: seq<seq<real>>, n: nat, source: int)
    requires IsIndex(n, source)
    ensures Covers(matrix, n) ==> !NeedsMissingCell(matrix, n, source)
  {
    if Covers(matrix, n) && NeedsMissingCell(matrix, n, source) {
      var u, d, v := OnlyFartherMissingCellStops(matrix, n, source);
    }
  }

  /** A matrix that lacks whole rows, at its end, stops every cascade, except that a single missing row
      does not stop the one from the agent it belongs to. */
  lemma MissingRowsStop(matrix: seq<seq<real>>, n: nat, source: int)
    requires IsIndex(n, source) && |matrix| <= n && forall i :: 0 <= i < |matrix| ==> n <= |matrix[i]|
    requires matrix != []
    ensures NeedsMissingCell(matrix, n, source) <==> |matrix| < n && !(|matrix| == n - 1 && source == n - 1)
  {
    var edge := Trips(matrix, n);
    assert WalkFromTo(edge, [source], source, source);
    if |matrix| < n && !(|matrix| == n - 1 && source == n - 1) {
      var v := if source == n - 1 then n - 2 else n - 1;
      assert Scanned(edge, n, source, 0) == [(source, 0)];
      assert Gap(edge, Lacks(matrix), n, source, 0, v);
    }
    if NeedsMissingCell(matrix, n, source) {
      var u, d, v := OnlyFartherMissingCellStops(matrix, n, source);
    }
  }

  /** Two agents and one cell: a cascade from the first agent stops. One agent and no cell at all: the
      missing cell is never read. */
  lemma MissingCellExamples()
    ensures NeedsMissingCell([[0.0]], 2, 0) && !NeedsMissingCell([[]], 1, 0)
  {
    var one: seq<seq<real>> := [[0.0]];
    assert Scanned(Trips(one, 2), 2, 0, 0) == [(0, 0)];
    assert Gap(Trips(one, 2), Lacks(one), 2, 0, 0, 1);
    var none: seq<seq<real>> := [[]];
    assert WalkFromTo(Trips(none, 1), [0], 0, 0);
    if NeedsMissingCell(none, 1, 0) {
      var u, d, v := OnlyFartherMissingCellStops(none, 1, 0);
    }
  }

  // ---- The breaker -----------------------------------------------------------

  /** What `trigger` does: report, or raise IndexError. */
  datatype Outcome = Cascaded(result: CascadeResult) | IndexError

  class FederationCircuitBreaker {
    const agentNames: seq<string>
    const dependencyMatrix: seq<seq<real>>
    var agentStates: map<string, BreakerState>
    var agentFailures: map<string, nat>
    var cascadeHistory: seq<CascadeResult>
    /** The sources triggered since the last `ResetAll`: those whose cascade was reported, and all. */
    ghost var completed: seq<int>
    ghost var attempted: seq<int>

    /** The counters and states agree, one of each for every agent name. */
    ghost predicate Consistent()
      reads this
    {
      && agentStates.Keys == agentFailures.Keys == (set name | name in agentNames)
      && (forall name :: name in agentFailures ==> agentFailures[name] == if agentStates[name] == OPEN then 3 else 0)
    }

    /** Over any series of triggers: every agent that a reported cascade reaches is open, and only agents
        that some cascade reaches are; the failure counters agree; every report kept is exact. A matrix
        with a cell for every pair leaves no cascade unreported, so then the two agree. */
    ghost predicate Valid()
      reads this
    {
      && 1 <= |agentNames|
      && Consistent()
      && StatesExplained(agentNames, dependencyMatrix, completed, attempted, agentStates)
      && AllReported(agentNames, dependencyMatrix, completed, cascadeHistory)
      && (Covers(dependencyMatrix, |agentNames|) ==> completed == attempted)
    }

    constructor (names: seq<string>, matrix: seq<seq<real>>)
      ensures Valid() && completed == attempted == []
      ensures agentNames == if names == [] then ["vendor_a", "vendor_b", "vendor_c", "vendor_d", "vendor_e"] else names
      ensures dependencyMatrix == if matrix == [] then DefaultMesh(|agentNames|) else matrix
    {
      agentNames := if names == [] then DEFAULT_NAMES else names;
      dependencyMatrix := if matrix == [] then DefaultMesh(if names == [] then |DEFAULT_NAMES| else |names|) else matrix;
      new;
      ResetAll();
    }

    method ResetAll()
      requires 1 <= |agentNames|
      modifies this
      ensures Valid() && completed == attempted == []
      ensures forall name :: name in agentNames ==> agentStates[name] == CLOSED && agentFailures[name] == 0
      ensures cascadeHistory == []
    {
      agentStates := map name | name in agentNames :: CLOSED;
      agentFailures := map name | name in agentNames :: 0;
      cascadeHistory := [];
      completed, attempted := [], [];
    }

    method TripBreaker(name: string)
      requires name in agentStates && name in agentFailures
      modifies this`agentStates, this`agentFailures
      ensures agentStates == old(agentStates)[name := OPEN]
      ensures agentFailures == old(agentFailures)[name := 3]
    {
      agentFailures := agentFailures[name := 3];
      agentStates := agentStates[name := OPEN];
    }

    method TripAgent(i: nat, ghost before: map<string, BreakerState>, ghost visited: set<int>)
      requires i < |agentNames| && Tripped(agentNames, before, agentStates, agentFailures, visited)
      modifies this`agentStates, this`agentFailures
      ensures Tripped(agentNames, before, agentStates, agentFailures, visited + {i})
    {
      TripOneMore(agentNames, before, agentStates, agentFailures, visited, i);
      TripBreaker(NameOf(agentNames, i));
    }

    /** What the scan of entry `head` has found when it comes to agent `i`. */
    ghost function FoundSoFar(found0: seq<(int, nat)>, head: nat, i: nat): (found: seq<(int, nat)>)
      requires head < |found0|
      ensures |found0| <= |found|
    {
      found0 + NewFinds(Trips(dependencyMatrix, |agentNames|), found0, head, i)
    }

    /** One agent that depends on the current one is tripped, marked and queued. */
    method TripDependent(i: nat, newDepth: nat, queue0: seq<(int, nat)>, visited0: set<int>,
                         path0: seq<PathEntry>, maxDepth0: nat, ghost before: map<string, BreakerState>,
                         ghost found0: seq<(int, nat)>, ghost head: nat)
      returns (queue: seq<(int, nat)>, visited: set<int>, path: seq<PathEntry>, maxDepth: nat)
      requires Shallow(found0, head) && newDepth == found0[head].1 + 1 && i < |agentNames|
      requires Kept(agentNames, FoundSoFar(found0, head, i), visited0, path0, maxDepth0)
      requires Tripped(agentNames, before, agentStates, agentFailures, visited0)
      requires i !in visited0 && DependsOn(dependencyMatrix, i, found0[head].0)
      requires queue0 == FoundSoFar(found0, head, i)[head + 1..]
      modifies this`agentStates, this`agentFailures
      ensures Kept(agentNames, FoundSoFar(found0, head, i + 1), visited, path, maxDepth)
      ensures Tripped(agentNames, before, agentStates, agentFailures, visited)
      ensures queue == FoundSoFar(found0, head, i + 1)[head + 1..]
    {
      Discover(agentNames, dependencyMatrix, found0, head, i, newDepth, FoundSoFar(found0, head, i), visited0, path0, maxDepth0);
      TripAgent(i, before, visited0);
      visited := visited0 + {i};
      maxDepth := if newDepth > maxDepth0 then newDepth else maxDepth0;
      queue := queue0 + [(i, newDepth)];
      path := path0 + [PathEntry(NameOf(agentNames, i), OPEN, newDepth)];
    }

    /** One look of the inner loop of `trigger`, at agent `i`: nothing to do for one already visited, an error
        where the matrix lacks the cell, otherwise the weight decides. */
    method Look(i: nat, current: int, depth: nat, queue0: seq<(int, nat)>, visited0: set<int>,
                path0: seq<PathEntry>, maxDepth0: nat, ghost before: map<string, BreakerState>,
                ghost found0: seq<(int, nat)>, ghost head: nat)
      returns (ok: bool, queue: seq<(int, nat)>, visited: set<int>, path: seq<PathEntry>, maxDepth: nat)
      requires Shallow(found0, head) && found0[head] == (current, depth) && i < |agentNames|
      requires CellsRead(Lacks(dependencyMatrix), found0, head, i)
      requires Kept(agentNames, FoundSoFar(found0, head, i), visited0, path0, maxDepth0)
      requires Tripped(agentNames, before, agentStates, agentFailures, visited0)
      requires queue0 == FoundSoFar(found0, head, i)[head + 1..]
      modifies this`agentStates, this`agentFailures
      ensures Tripped(agentNames, before, agentStates, agentFailures, visited)
      ensures ok ==> CellsRead(Lacks(dependencyMatrix), found0, head, i + 1)
      ensures Kept(agentNames, FoundSoFar(found0, head, if ok then i + 1 else i), visited, path, maxDepth)
      ensures queue == FoundSoFar(found0, head, if ok then i + 1 else i)[head + 1..]
      ensures !ok ==> i !in visited && Weight(dependencyMatrix, i, current) == None
    {
      ok, queue, visited, path, maxDepth := true, queue0, visited0, path0, maxDepth0;
      ghost var found := FoundSoFar(found0, head, i);
      if i in visited {
        LooksPast(agentNames, dependencyMatrix, found0, head, i, found, visited, path, maxDepth);
        return;
      }
      var depWeight := Weight(dependencyMatrix, i, current);
      if depWeight == None {
        ok := false;
      } else if depWeight.value > DEPENDENCY_THRESHOLD {
        queue, visited, path, maxDepth :=
          TripDependent(i, depth + 1, queue, visited, path, maxDepth, before, found0, head);
      } else {
        LooksPast(agentNames, dependencyMatrix, found0, head, i, found, visited, path, maxDepth);
      }
    }

    /** The inner loop of `trigger`: looks at every agent by index until a look fails. */
    method LookAtAll(current: int, depth: nat, queue0: seq<(int, nat)>, visited0: set<int>,
                     path0: seq<PathEntry>, maxDepth0: nat, ghost before: map<string, BreakerState>,
                     ghost found0: seq<(int, nat)>, ghost head: nat)
      returns (ok: bool, queue: seq<(int, nat)>, visited: set<int>, path: seq<PathEntry>, maxDepth: nat, stop: nat)
      requires Shallow(found0, head) && found0[head] == (current, depth) && queue0 == found0[head + 1..]
      requires Kept(agentNames, found0, visited0, path0, maxDepth0)
      requires Tripped(agentNames, before, agentStates, agentFailures, visited0)
      modifies this`agentStates, this`agentFailures
      ensures Tripped(agentNames, before, agentStates, agentFailures, visited)
      ensures CellsRead(Lacks(dependencyMatrix), found0, head, stop)
      ensures Kept(agentNames, FoundSoFar(found0, head, stop), visited, path, maxDepth)
      ensures queue == FoundSoFar(found0, head, stop)[head + 1..]
      ensures if ok then stop == |agentNames|
              else stop < |agentNames| && stop !in visited && Weight(dependencyMatrix, stop, current) == None
    {
      ok, queue, visited, path, maxDepth := true, queue0, visited0, path0, maxDepth0;
      assert FoundSoFar(found0, head, 0) == found0;
      stop := 0;
      while stop < |agentNames|
        invariant stop <= |agentNames|
        invariant CellsRead(Lacks(dependencyMatrix), found0, head, stop)
        invariant Kept(agentNames, FoundSoFar(found0, head, stop), visited, path, maxDepth)
        invariant Tripped(agentNames, before, agentStates, agentFailures, visited)
        invariant queue == FoundSoFar(found0, head, stop)[head + 1..]
      {
        ok, queue, visited, path, maxDepth := Look(stop, current, depth, queue, visited, path, maxDepth, before, found0, head);
        if !ok {
          return;
        }
        stop := stop + 1;
      }
      ok := true;
    }

    /** One pass over the agents trips every agent not yet visited that depends on `current`. A cell the matrix
        lacks ends it with an error, after the trips it has made; `stop` is the agent of that cell. */
    method TripDependents(sourceIdx: int, current: int, depth: nat, queue0: seq<(int, nat)>, visited0: set<int>,
                          path0: seq<PathEntry>, maxDepth0: nat, ghost before: map<string, BreakerState>,
                          ghost found0: seq<(int, nat)>, ghost head: nat)
      returns (ok: bool, queue: seq<(int, nat)>, visited: set<int>, path: seq<PathEntry>, maxDepth: nat,
               ghost found: seq<(int, nat)>, ghost stop: nat)
      requires found0 == Scanned(Trips(dependencyMatrix, |agentNames|), |agentNames|, sourceIdx, head)
      requires NoGapBefore(Trips(dependencyMatrix, |agentNames|), Lacks(dependencyMatrix), |agentNames|, sourceIdx, head)
      requires Kept(agentNames, found0, visited0, path0, maxDepth0)
      requires Tripped(agentNames, before, agentStates, agentFailures, visited0)
      requires head < |found0| && found0[head] == (current, depth) && queue0 == found0[head + 1..]
      modifies this`agentStates, this`agentFailures
      ensures Kept(agentNames, found, visited, path, maxDepth)
      ensures Tripped(agentNames, before, agentStates, agentFailures, visited)
      ensures head < |found| && queue == found[head + 1..]
      ensures ok ==>
                && found == Scanned(Trips(dependencyMatrix, |agentNames|), |agentNames|, sourceIdx, head + 1)
                && NoGapBefore(Trips(dependencyMatrix, |agentNames|), Lacks(dependencyMatrix), |agentNames|, sourceIdx, head + 1)
      ensures !ok ==>
                && StopsAt(Trips(dependencyMatrix, |agentNames|), Lacks(dependencyMatrix), |agentNames|, sourceIdx, head, stop)
                && found == FoundUntil(Trips(dependencyMatrix, |agentNames|), Lacks(dependencyMatrix), |agentNames|, sourceIdx, head, stop)
    {
      ghost var edge, lacks := Trips(dependencyMatrix, |agentNames|), Lacks(dependencyMatrix);
      ScannedIsShallow(edge, |agentNames|, sourceIdx, head);
      ok, queue, visited, path, maxDepth, stop := LookAtAll(current, depth, queue0, visited0, path0, maxDepth0, before, found0, head);
      found := FoundSoFar(found0, head, stop);
      if ok {
        ScanDone(edge, lacks, |agentNames|, sourceIdx, head, found);
      } else {
        StopsHere(agentNames, dependencyMatrix, sourceIdx, found0, head, stop, found, visited, path, maxDepth);
      }
    }

    /** `trigger` from a valid index, up to the report it builds; `reached` is what it trips. */
    method SpreadFrom(sourceIdx: int) returns (outcome: Outcome, ghost reached: set<int>)
      requires Consistent() && IsIndex(|agentNames|, sourceIdx)
      modifies this`agentStates, this`agentFailures
      ensures Tripped(agentNames, old(agentStates), agentStates, agentFailures, reached)
      ensures sourceIdx in reached && reached <= Affected(dependencyMatrix, |agentNames|, sourceIdx)
      ensures outcome.Cascaded? ==>
                && reached == Affected(dependencyMatrix, |agentNames|, sourceIdx)
                && Reports(agentNames, dependencyMatrix, sourceIdx, outcome.result)
      ensures outcome == IndexError <==> NeedsMissingCell(dependencyMatrix, |agentNames|, sourceIdx)
      ensures outcome == IndexError ==> StoppedWith(Trips(dependencyMatrix, |agentNames|), Lacks(dependencyMatrix), |agentNames|, sourceIdx, reached)
    {
      var n := |agentNames|;
      ghost var before := agentStates;
      assert forall name :: name in before ==> TrippedAt(agentNames, before, before, agentFailures, {}, name);
      TripOneMore(agentNames, before, before, agentFailures, {}, sourceIdx);
      var sourceName := NameOf(agentNames, sourceIdx);
      TripBreaker(sourceName);

      // The source keeps `visited` and `affected_indices`, always the same set.
      var visited: set<int> := {sourceIdx};
      var queue: seq<(int, nat)> := [(sourceIdx, 0)];
      var cascadePath := [PathEntry(sourceName, OPEN, 0)];
      var maxDepth: nat := 0;

      StartKept(agentNames, sourceIdx);
      assert {} + {sourceIdx} == visited;
      var ok;
      ghost var head, stop;
      ok, visited, cascadePath, maxDepth, head, stop := Drain(sourceIdx, queue, visited, cascadePath, maxDepth, before);
      if !ok {
        FoundUntilIsAffected(dependencyMatrix, n, sourceIdx, head, stop);
        return IndexError, visited;
      }
      NoGapAtAll(Trips(dependencyMatrix, |agentNames|), Lacks(dependencyMatrix), n, sourceIdx, head);
      var result := CascadeResult(sourceName, maxDepth, |visited|, n, |visited| as real / n as real * 100.0,
                                  cascadePath, |visited| == 1);
      SearchReports(agentNames, dependencyMatrix, sourceIdx, head, visited, cascadePath, maxDepth, result);
      SourceIsAffected(dependencyMatrix, n, sourceIdx);
      return Cascaded(result), visited;
    }

    /** The outer loop of `trigger`: scans what waits in the queue until nothing does, or a cell is missing. */
    method Drain(sourceIdx: int, queue0: seq<(int, nat)>, visited0: set<int>, path0: seq<PathEntry>, maxDepth0: nat,
                 ghost before: map<string, BreakerState>)
      returns (ok: bool, visited: set<int>, path: seq<PathEntry>, maxDepth: nat, ghost head: nat, ghost stop: nat)
      requires IsIndex(|agentNames|, sourceIdx) && queue0 == [(sourceIdx, 0)]
      requires Kept(agentNames, queue0, visited0, path0, maxDepth0)
      requires Tripped(agentNames, before, agentStates, agentFailures, visited0)
      modifies this`agentStates, this`agentFailures
      ensures Tripped(agentNames, before, agentStates, agentFailures, visited)
      ensures ok ==>
                && NoGapBefore(Trips(dependencyMatrix, |agentNames|), Lacks(dependencyMatrix), |agentNames|, sourceIdx, head)
                && |Scanned(Trips(dependencyMatrix, |agentNames|), |agentNames|, sourceIdx, head)| <= head
                && Kept(agentNames, Scanned(Trips(dependencyMatrix, |agentNames|), |agentNames|, sourceIdx, head), visited, path, maxDepth)
      ensures !ok ==>
                && StopsAt(Trips(dependencyMatrix, |agentNames|), Lacks(dependencyMatrix), |agentNames|, sourceIdx, head, stop)
                && visited == Vertices(FoundUntil(Trips(dependencyMatrix, |agentNames|), Lacks(dependencyMatrix), |agentNames|, sourceIdx, head, stop))
    {
      var queue := queue0;
      ok, visited, path, maxDepth, head, stop := true, visited0, path0, maxDepth0, 0, 0;
      ghost var found := queue0;
      while queue != []
        invariant found == Scanned(Trips(dependencyMatrix, |agentNames|), |agentNames|, sourceIdx, head)
        invariant NoGapBefore(Trips(dependencyMatrix, |agentNames|), Lacks(dependencyMatrix), |agentNames|, sourceIdx, head)
        invariant Kept(agentNames, found, visited, path, maxDepth)
        invariant Tripped(agentNames, before, agentStates, agentFailures, visited)
        invariant head <= |found| && queue == found[head..]
        decreases 2 * |agentNames| - head
      {
        ScannedFits(Trips(dependencyMatrix, |agentNames|), |agentNames|, sourceIdx, head);
        FrontOfQueue(found, head, queue);
        var (current, depth) := queue[0];
        queue := queue[1..];
        ok, queue, visited, path, maxDepth, found, stop :=
          TripDependents(sourceIdx, current, depth, queue, visited, path, maxDepth, before, found, head);
        if !ok {
          return;
        }
        head := head + 1;
      }
    }

    /** An index that is none changes nothing. Any other opens the agents it reaches and reports exactly
        that, unless the cascade needs a cell the matrix lacks: then exactly the breakers found by then
        stay open and nothing is reported. `Valid` says of the report, as of all that are kept, what it must. */
    method Trigger(sourceIdx: int) returns (outcome: Outcome, ghost reached: set<int>)
      requires Valid()
      modifies this
      ensures Valid()
      ensures outcome == IndexError <==> !IsIndex(|agentNames|, sourceIdx) || NeedsMissingCell(dependencyMatrix, |agentNames|, sourceIdx)
      ensures !IsIndex(|agentNames|, sourceIdx) ==> unchanged(this)
      ensures IsIndex(|agentNames|, sourceIdx) ==> Tripped(agentNames, old(agentStates), agentStates, agentFailures, reached)
      ensures IsIndex(|agentNames|, sourceIdx) ==> attempted == old(attempted) + [sourceIdx]
      ensures IsIndex(|agentNames|, sourceIdx) && outcome == IndexError ==>
                && StoppedWith(Trips(dependencyMatrix, |agentNames|), Lacks(dependencyMatrix), |agentNames|, sourceIdx, reached)
                && completed == old(completed) && cascadeHistory == old(cascadeHistory)
      ensures outcome.Cascaded? ==>
                && IsIndex(|agentNames|, sourceIdx)
                && completed == old(completed) + [sourceIdx]
                && cascadeHistory == old(cascadeHistory) + [outcome.result]
                && reached == Affected(dependencyMatrix, |agentNames|, sourceIdx)
    {
      if !IsIndex(|agentNames|, sourceIdx) {
        return IndexError, {};
      }
      ghost var before := agentStates;
      outcome, reached := SpreadFrom(sourceIdx);
      Keep(sourceIdx, outcome, before, reached);
    }

    /** Keeps the report of a cascade that has one. */
    method Keep(sourceIdx: int, outcome: Outcome, ghost before: map<string, BreakerState>, ghost reached: set<int>)
      requires IsIndex(|agentNames|, sourceIdx) && Consistent()
      requires StatesExplained(agentNames, dependencyMatrix, completed, attempted, before)
      requires AllReported(agentNames, dependencyMatrix, completed, cascadeHistory)
      requires Covers(dependencyMatrix, |agentNames|) ==> completed == attempted
      requires Tripped(agentNames, before, agentStates, agentFailures, reached)
      requires reached <= Affected(dependencyMatrix, |agentNames|, sourceIdx)
      requires outcome.Cascaded? ==>
                 && reached == Affected(dependencyMatrix, |agentNames|, sourceIdx)
                 && Reports(agentNames, dependencyMatrix, sourceIdx, outcome.result)
      requires outcome == IndexError ==> NeedsMissingCell(dependencyMatrix, |agentNames|, sourceIdx)
      modifies this`cascadeHistory, this`completed, this`attempted
      ensures Valid()
      ensures attempted == old(attempted) + [sourceIdx]
      ensures completed == if outcome.Cascaded? then old(completed) + [sourceIdx] else old(completed)
      ensures cascadeHistory == if outcome.Cascaded? then old(cascadeHistory) + [outcome.result] else old(cascadeHistory)
    {
      StillExplained(agentNames, dependencyMatrix, before, agentStates, agentFailures, reached, completed, attempted, sourceIdx,
                     outcome.Cascaded?);
      CoveringLacksNothing(dependencyMatrix, |agentNames|, sourceIdx);
      attempted := attempted + [sourceIdx];
      if outcome.Cascaded? {
        ReportedOnceMore(agentNames, dependencyMatrix, completed, cascadeHistory, sourceIdx, outcome.result);
        cascadeHistory := cascadeHistory + [outcome.result];
        completed := completed + [sourceIdx];
      }
    }
  }

  // ---- What follows for series of cascades and for negative indices -------------

  /** Triggering an agent that a cascade has already reached can reach nothing new. */
  lemma RetriggerReachesNothingNew(matrix: seq<seq<real>>, n: nat, source: int, again: int)
    requires again in Affected(matrix, n, source)
    ensures Affected(matrix, n, again) <= Affected(matrix, n, source)
  {
    forall i | i in Affected(matrix, n, again)
      ensures i in Affected(matrix, n, source)
    {
      ReachableTransitive(Trips(matrix, n), source, again, i);
    }
  }

  /** Every row has exactly one cell for each of the `n` agents. */
  predicate Square(matrix: seq<seq<real>>, n: nat) {
    |matrix| == n && forall i :: 0 <= i < n ==> |matrix[i]| == n
  }

  /** The agent depends, over one or more steps, on itself. */
  ghost predicate OnCycle(matrix: seq<seq<real>>, n: nat, agent: int) {
    exists v :: Trips(matrix, n)(agent, v) && Reachable(Trips(matrix, n), v, agent)
  }

  /** What a negative index reaches besides itself: whatever its agent reaches in one or more steps. */
  lemma AliasReaches(matrix: seq<seq<real>>, n: nat, source: int, i: int)
    requires Square(matrix, n) && -(n as int) <= source < 0
    ensures i in Affected(matrix, n, source) <==>
            i == source || (i == n + source && OnCycle(matrix, n, i)) || (i != n + source && i in Affected(matrix, n, n + source))
  {
    var edge, agent := Trips(matrix, n), n + source;
    assert forall v :: 0 <= v < n ==> Weight(matrix, v, source) == Weight(matrix, v, agent);
    assert forall v :: edge(source, v) <==> edge(agent, v);
    TrivialWalk(edge, source);
    FirstStep(edge, source, i);
    FirstStep(edge, agent, i);
    if i != source && i != agent && (Reachable(edge, source, i) || Reachable(edge, agent, i)) {
      NowhereElse(Trips(matrix, n), n, if Reachable(edge, source, i) then source else agent, i);
    }
  }

  lemma AliasSets(matrix: seq<seq<real>>, n: nat, source: int)
    requires Square(matrix, n) && -(n as int) <= source < 0
    ensures var agent := n + source;
            var own := Affected(matrix, n, agent);
            && agent in own && source !in own
            && Affected(matrix, n, source) == own - {agent} + if OnCycle(matrix, n, agent) then {source, agent} else {source}
  {
    var agent := n + source;
    var own := Affected(matrix, n, agent);
    TrivialWalk(Trips(matrix, n), agent);
    if source in own {
      NowhereElse(Trips(matrix, n), n, agent, source);
    }
    forall i
      ensures i in Affected(matrix, n, source) <==>
              i in own - {agent} + if OnCycle(matrix, n, agent) then {source, agent} else {source}
    {
      AliasReaches(matrix, n, source, i);
    }
  }

  /** A negative index opens the same agents as the index it stands for, but the search does not know
      that the two are one agent: the report counts an agent too many exactly when the source depends
      on itself in the end, and then, with everyone affected, says more than 100 per cent. */
  lemma AliasCountsTwice(names: seq<string>, matrix: seq<seq<real>>, source: int)
    requires Square(matrix, |names|) && -|names| <= source < 0
    ensures var agent := |names| + source;
            |Affected(matrix, |names|, source)| ==
            |Affected(matrix, |names|, agent)| + if OnCycle(matrix, |names|, agent) then 1 else 0
    ensures forall name :: NameHitBy(names, matrix, source, name) <==> NameHitBy(names, matrix, |names| + source, name)
  {
    var agent := |names| + source;
    var alias, own := Affected(matrix, |names|, source), Affected(matrix, |names|, agent);
    var others := own - {agent};
    AliasSets(matrix, |names|, source);
    assert own == others + {agent};
    assert if OnCycle(matrix, |names|, agent) then alias == others + {agent} + {source} else alias == others + {source};
    forall name
      ensures NameHitBy(names, matrix, source, name) <==> NameHitBy(names, matrix, agent, name)
    {
      SameNames(names, others, source, agent, alias, name);
      SameNames(names, others, agent, source, own, name);
    }
  }

  /** Two indices of one agent are the same name. */
  lemma SameNames(names: seq<string>, others: set<int>, one: int, other: int, agents: set<int>, name: string)
    requires IsIndex(|names|, one) && IsIndex(|names|, other) && NameOf(names, one) == NameOf(names, other)
    requires others + {one} <= agents <= others + {one, other}
    ensures Names(names, agents, name) <==> Names(names, others, name) || name == NameOf(names, one)
  {
    if Names(names, others, name) {
      var i :| i in others && IsIndex(|names|, i) && NameOf(names, i) == name;
      assert i in agents;
    }
    assert one in agents;
  }

  /** The star-and-tail mesh used when no matrix is given. */
  function DefaultMesh(n: nat): (m: seq<seq<real>>)
    ensures Covers(m, n)
  {
    seq(n, (i: nat) requires i < n => seq(n, (j: nat) requires j < n =>
      if i >= 1 && j == 0 then 0.8
      else if (i == 2 && j == 1) || (i == 3 && (j == 1 || j == 2)) then 0.5
      else 0.0))
  }

  lemma DefaultWeights(n: nat, i: nat, j: nat)
    requires i < n && j < n
    ensures DefaultMesh(n)[i][j] == if j == 0 && i != 0 then 0.8 else if (i, j) in {(2, 1), (3, 1), (3, 2)} then 0.5 else 0.0
  {
  }

  // ---- The cascades of a default breaker -------------------------------------------

  /** Whom a cascade from `source` opens in the default mesh, whatever the number of agents: from the
      first agent everybody, from the next two those up to the fourth, from any later one only itself. */
  predicate DefaultOpens(n: nat, source: nat, i: int) {
    0 <= i < n && (i == source || source == 0 || source < i <= 3)
  }

  lemma DefaultEdges(n: nat, u: int, v: int)
    requires 0 <= u < n && 0 <= v < n
    ensures Trips(DefaultMesh(n), n)(u, v) <==> v >= 1 && (u == 0 || (u < v <= 3))
  {
    assert Weight(DefaultMesh(n), v, u) == Some(DefaultMesh(n)[v][u]);
  }

  lemma DefaultClosed(n: nat, source: nat, reached: set<int>)
    requires source < n && forall i :: i in reached <==> DefaultOpens(n, source, i)
    ensures Closed(Trips(DefaultMesh(n), n), reached)
  {
    var edge := Trips(DefaultMesh(n), n);
    forall u, v | u in reached && edge(u, v)
      ensures v in reached
    {
      DefaultEdges(n, u, v);
    }
  }

  /** Those are the agents opened, each at most one step away. */
  lemma DefaultCascade(n: nat, source: nat, i: int)
    requires source < n
    ensures i in Affected(DefaultMesh(n), n, source) <==> DefaultOpens(n, source, i)
    ensures DefaultOpens(n, source, i) ==> HasWalk(Trips(DefaultMesh(n), n), source, i, if i == source then 0 else 1)
  {
    var edge := Trips(DefaultMesh(n), n);
    var all := set k | 0 <= k < n && DefaultOpens(n, source, k);
    DefaultClosed(n, source, all);
    TrivialWalk(edge, source as int);
    if Reachable(edge, source, i) {
      ReachableStaysInClosed(edge, all, source as int, i);
    }
    if DefaultOpens(n, source, i) && i != source {
      DefaultEdges(n, source, i);
      ExtendWalk(edge, source as int, source as int, i, 0);
      assert Reachable(edge, source, i);
    }
  }

  /** How many that are. */
  function DefaultCount(n: nat, source: nat): nat
    requires source < n
  {
    if source == 0 then n else if source >= 3 then 1 else (if n < 4 then n else 4) - source
  }

  lemma DefaultSize(n: nat, source: nat, reached: set<int>)
    requires source < n && forall i :: i in reached <==> DefaultOpens(n, source, i)
    ensures |reached| == DefaultCount(n, source)
  {
    var expected: set<int> :=
      if source == 0 then Range(n)
      else if source >= 3 then {source as int}
      else if source == 2 then (if n == 3 then {2} else {2, 3})
      else if n == 2 then {1} else if n == 3 then {1, 2} else {1, 2, 3};
    forall i
      ensures i in reached <==> i in expected
    {
      assert i in reached <==> DefaultOpens(n, source, i);
    }
    assert reached == expected;
  }

  lemma SameWalk(edge: (int, int) -> bool, s: int, t: int, d: nat, e: nat)
    requires IsDistance(edge, s, t, d) && HasWalk(edge, s, t, e)
    ensures d <= e
  {
    var p :| WalkFromTo(edge, p, s, t) && |p| == e + 1;
  }

  /** Only the source is at no distance, so a path of several entries ends farther away. */
  lemma SourceComesFirst(names: seq<string>, matrix: seq<seq<real>>, source: int, path: seq<PathEntry>, order: seq<int>)
    requires IsIndex(|names|, source) && |order| == |path| > 1 && Distinct(order)
    requires forall k :: 0 <= k < |order| ==> ListedAt(names, matrix, source, path, order, k)
    ensures path[|path| - 1].depth >= 1
  {
    var last := |order| - 1;
    if path[last].depth == 0 {
      assert ListedAt(names, matrix, source, path, order, last) && ListedAt(names, matrix, source, path, order, last - 1);
      AtNoDistance(Trips(matrix, |names|), source, order[last]);
      AtNoDistance(Trips(matrix, |names|), source, order[last - 1]);
    }
  }

  lemma AtNoDistance(edge: (int, int) -> bool, s: int, t: int)
    requires HasWalk(edge, s, t, 0)
    ensures s == t
  {
  }

  /** The cascade path of a default breaker ends one step away, or holds nobody but the source. */
  lemma DefaultDepth(names: seq<string>, source: nat, r: CascadeResult, order: seq<int>)
    requires source < |names| && ListsCascade(names, DefaultMesh(|names|), source, r, order)
    ensures |order| == |Affected(DefaultMesh(|names|), |names|, source)|
    ensures r.cascadeDepth == if |order| == 1 then 0 else 1
  {
    var n, last := |names|, |order| - 1;
    var mesh := DefaultMesh(n);
    DistinctCount(order);
    assert ListedAt(names, mesh, source, r.cascadePath, order, last);
    assert order[last] in Affected(mesh, n, source);
    DefaultCascade(n, source, order[last]);
    SameWalk(Trips(mesh, n), source, order[last], r.cascadeDepth, if order[last] == source then 0 else 1);
    if |order| > 1 {
      SourceComesFirst(names, mesh, source, r.cascadePath, order);
    } else {
      SourceIsAffected(mesh, n, source);
      assert source as int in order;
    }
  }

  /** What a report about the default mesh says: how many agents, in one step or none. */
  lemma DefaultReport(names: seq<string>, source: nat, r: CascadeResult)
    requires source < |names| && Reports(names, DefaultMesh(|names|), source, r)
    ensures r.affectedCount == DefaultCount(|names|, source)
    ensures r.cascadeDepth == if r.affectedCount == 1 then 0 else 1
    ensures r.fullyContained <==> r.affectedCount == 1
  {
    var n := |names|;
    var reached := Affected(DefaultMesh(n), n, source);
    forall i
      ensures i in reached <==> DefaultOpens(n, source, i)
    {
      DefaultCascade(n, source, i);
    }
    DefaultSize(n, source, reached);
    OnlyMember(reached, source);
    var order :| ListsCascade(names, DefaultMesh(n), source, r, order);
    DefaultDepth(names, source, r, order);
  }

  /** A default breaker, triggered once. */
  method TriggerDefault(names: seq<string>, sourceIdx: nat) returns (breaker: FederationCircuitBreaker, result: CascadeResult)
    requires sourceIdx < if names == [] then 5 else |names|
    ensures breaker.agentNames == if names == [] then ["vendor_a", "vendor_b", "vendor_c", "vendor_d", "vendor_e"] else names
    ensures var n := |breaker.agentNames|;
            && result.affectedCount == DefaultCount(n, sourceIdx)
            && result.cascadeDepth == (if result.affectedCount == 1 then 0 else 1)
            && (result.fullyContained <==> result.affectedCount == 1)
            && forall name :: name in breaker.agentStates ==>
                 (breaker.agentStates[name] == OPEN <==>
                  exists i: nat :: i < n && breaker.agentNames[i] == name && DefaultOpens(n, sourceIdx, i))
    ensures breaker.agentFailures.Keys == breaker.agentStates.Keys
    ensures forall name :: name in breaker.agentFailures ==> breaker.agentFailures[name] == if breaker.agentStates[name] == OPEN then 3 else 0
  {
    breaker := new FederationCircuitBreaker(names, []);
    var n := |breaker.agentNames|;
    CoveringLacksNothing(breaker.dependencyMatrix, n, sourceIdx);
    var outcome, reached := breaker.Trigger(sourceIdx);
    result := outcome.result;
    assert breaker.completed[..0] == [];
    DefaultReport(breaker.agentNames, sourceIdx, result);
    forall name | name in breaker.agentStates
      ensures breaker.agentStates[name] == OPEN <==>
              exists i: nat :: i < n && breaker.agentNames[i] == name && DefaultOpens(n, sourceIdx, i)
    {
      NamesOpened(breaker.agentNames, sourceIdx, name);
    }
  }

  lemma NamesOpened(names: seq<string>, source: nat, name: string)
    requires source < |names|
    ensures Names(names, Affected(DefaultMesh(|names|), |names|, source), name) <==>
            exists i: nat :: i < |names| && names[i] == name && DefaultOpens(|names|, source, i)
  {
    var n := |names|;
    if Names(names, Affected(DefaultMesh(n), n, source), name) {
      var i :| i in Affected(DefaultMesh(n), n, source) && IsIndex(n, i) && NameOf(names, i) == name;
      DefaultCascade(n, source, i);
    }
    if exists i: nat :: i < n && names[i] == name && DefaultOpens(n, source, i) {
      var i: nat :| i < n && names[i] == name && DefaultOpens(n, source, i);
      DefaultCascade(n, source, i);
      assert NameOf(names, i) == name;
    }
  }
}
