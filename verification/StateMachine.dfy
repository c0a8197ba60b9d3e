/** The ten-state governance `StateMachine`: every run is a walk in the transition map, and the
    two worklist searches decide reachability although their stack may hold duplicates. */
module GovernanceStates {
  import opened Graphs

  /** The ten named states, and any other string a transition map may mention. */
  datatype State = INIT | OBSERVE | ANALYZE | PLAN | ACT | MONITOR | ADAPT | STABILIZE | VERIFY | HALT | Other(name: string)

  type TransitionMap = map<State, seq<State>>

  datatype Snapshot = Snapshot(state: State, history: seq<State>)

  const DEFAULT_TRANSITIONS: TransitionMap := map[
    INIT := [OBSERVE, HALT],
    OBSERVE := [INIT, ANALYZE, HALT],
    ANALYZE := [OBSERVE, PLAN, HALT],
    PLAN := [ANALYZE, ACT, HALT],
    ACT := [PLAN, MONITOR, HALT],
    MONITOR := [ACT, ADAPT, STABILIZE, HALT],
    ADAPT := [MONITOR, STABILIZE, VERIFY, HALT],
    STABILIZE := [ADAPT, VERIFY, OBSERVE, HALT],
    VERIFY := [STABILIZE, HALT, INIT],
    HALT := []
  ]

  const PRIMARY_PATH: seq<State> :=
    [INIT, OBSERVE, ANALYZE, PLAN, ACT, MONITOR, ADAPT, STABILIZE, VERIFY, HALT]

  function Targets(m: TransitionMap, state: State): seq<State> {
    if state in m then m[state] else []
  }

  ghost function Allowed(m: TransitionMap): (State, State) -> bool {
    (u: State, v: State) => v in Targets(m, u)
  }

  /** Every state a search from `start` could ever put on its stack. */
  ghost function Universe(m: TransitionMap, start: State): set<State> {
    {start} + set u, v | u in m && v in m[u] :: v
  }

  lemma TargetInUniverse(m: TransitionMap, start: State, u: State, v: State)
    requires v in Targets(m, u)
    ensures v in Universe(m, start)
  {
  }

  /** The states on a stack that may hold duplicates. */
  ghost function Held(stack: seq<State>): set<State> {
    if stack == [] then {} else Held(stack[..|stack| - 1]) + {stack[|stack| - 1]}
  }

  lemma HeldPush(stack: seq<State>, s: State)
    ensures Held(stack + [s]) == Held(stack) + {s}
  {
    assert (stack + [s])[..|stack|] == stack;
  }

  /** A search from `start` that has visited `visited` and still holds `held`: everything
      seen is reachable, and every transition out of a visited state leads to a seen one. */
  ghost predicate Searching(m: TransitionMap, start: State, visited: set<State>, held: set<State>) {
    && start in visited + held
    && visited + held <= Universe(m, start)
    && (forall s :: s in visited + held ==> Reachable(Allowed(m), start, s))
    && (forall u, v :: u in visited && v in Targets(m, u) ==> v in visited + held)
  }

  /** The same, except that only the first `pushed` targets of `state` are known to be seen. */
  ghost predicate Pushing(m: TransitionMap, start: State, visited: set<State>, held: set<State>, state: State, pushed: nat) {
    && state in visited
    && start in visited + held
    && visited + held <= Universe(m, start)
    && (forall s :: s in visited + held ==> Reachable(Allowed(m), start, s))
    && (forall u, v :: u in visited && u != state && v in Targets(m, u) ==> v in visited + held)
    && (forall k :: 0 <= k < pushed && k < |Targets(m, state)| ==> Targets(m, state)[k] in visited + held)
  }

  lemma SearchStarts(m: TransitionMap, start: State)
    ensures Held([start]) == {start} && Searching(m, start, {}, {start})
  {
    TrivialWalk(Allowed(m), start);
    HeldPush([], start);
    assert [] + [start] == [start];
  }

  /** With nothing left to hold, the visited states are exactly the reachable ones. */
  lemma SearchComplete(m: TransitionMap, start: State, visited: set<State>)
    requires Searching(m, start, visited, {})
    ensures forall s :: s in visited <==> Reachable(Allowed(m), start, s)
  {
    assert Closed(Allowed(m), visited);
    forall s | Reachable(Allowed(m), start, s)
      ensures s in visited
    {
      ReachableStaysInClosed(Allowed(m), visited, start, s);
    }
  }

  /** Popping a duplicate loses nothing. */
  lemma PopVisited(m: TransitionMap, start: State, visited: set<State>, held: set<State>, state: State)
    requires Searching(m, start, visited, held + {state}) && state in visited
    ensures Searching(m, start, visited, held)
  {
    assert visited + (held + {state}) == visited + held;
  }

  lemma PopNew(m: TransitionMap, start: State, visited: set<State>, held: set<State>, state: State)
    requires Searching(m, start, visited, held + {state}) && state !in visited
    ensures Pushing(m, start, visited + {state}, held, state, 0)
    ensures |Universe(m, start) - (visited + {state})| < |Universe(m, start) - visited|
  {
    assert visited + (held + {state}) == visited + {state} + held;
    OneFewer(Universe(m, start), visited, state);
  }

  lemma OneFewer(all: set<State>, visited: set<State>, state: State)
    requires state in all && state !in visited
    ensures |all - (visited + {state})| < |all - visited|
  {
    assert all - visited == (all - (visited + {state})) + {state};
  }

  lemma PushTarget(m: TransitionMap, start: State, visited: set<State>, held: set<State>, state: State, k: nat)
    requires k < |Targets(m, state)| && Pushing(m, start, visited, held, state, k)
    ensures Pushing(m, start, visited, held + {Targets(m, state)[k]}, state, k + 1)
  {
    var v := Targets(m, state)[k];
    assert visited + (held + {v}) == visited + held + {v};
    ExtendReachable(Allowed(m), start, state, v);
    TargetInUniverse(m, start, state, v);
  }

  /** The inner loop of both searches: hold every target of `state` not yet visited. */
  method PushTargets(m: TransitionMap, ghost start: State, visited: set<State>, state: State, stack0: seq<State>)
    returns (stack: seq<State>)
    requires Pushing(m, start, visited, Held(stack0), state, 0)
    ensures Searching(m, start, visited, Held(stack))
  {
    stack := stack0;
    var targets := Targets(m, state);
    for k := 0 to |targets|
      invariant Pushing(m, start, visited, Held(stack), state, k)
    {
      if targets[k] !in visited {
        PushTarget(m, start, visited, Held(stack), state, k);
        HeldPush(stack, targets[k]);
        stack := stack + [targets[k]];
      }
    }
  }

  class StateMachine {
    var current: State
    var history: seq<State>
    var transitionMap: TransitionMap

    /** The run so far, oldest state first. */
    ghost function Trace(): seq<State>
      reads this
    {
      history + [current]
    }

    /** The run so far is a walk in the transition map that began in INIT. */
    ghost predicate Valid()
      reads this
    {
      WalkFromTo(Allowed(transitionMap), Trace(), INIT, current)
    }

    constructor ()
      ensures Valid() && transitionMap == DEFAULT_TRANSITIONS && Trace() == [INIT]
    {
      current := INIT;
      history := [];
      transitionMap := DEFAULT_TRANSITIONS;
    }

    method Transition(target: State) returns (ok: bool)
      requires Valid()
      modifies this`current, this`history
      ensures Valid()
      ensures ok <==> target in Targets(transitionMap, old(current))
      ensures Trace() == if ok then old(Trace()) + [target] else old(Trace())
    {
      if target !in Targets(transitionMap, current) {
        return false;
      }
      history := history + [current];
      current := target;
      return true;
    }

    method ForceStabilize() returns (ok: bool)
      requires Valid()
      modifies this`current, this`history
      ensures Valid()
      ensures ok <==> STABILIZE in Targets(transitionMap, old(current))
      ensures Trace() == if ok then old(Trace()) + [STABILIZE] else old(Trace())
    {
      if STABILIZE in Targets(transitionMap, current) {
        ok := Transition(STABILIZE);
        return;
      }
      return false;
    }

    method ForceStop() returns (ok: bool)
      requires Valid()
      modifies this`current, this`history
      ensures Valid()
      ensures ok <==> HALT in Targets(transitionMap, old(current))
      ensures Trace() == if ok then old(Trace()) + [HALT] else old(Trace())
    {
      if HALT in Targets(transitionMap, current) {
        ok := Transition(HALT);
        return;
      }
      return false;
    }

    method TakeSnapshot() returns (snapshot: Snapshot)
      ensures snapshot == Snapshot(current, history)
    {
      snapshot := Snapshot(current, history);
    }

    /** Restoring keeps the run a walk exactly when the snapshot itself was one. */
    method Restore(snapshot: Snapshot)
      modifies this`current, this`history
      ensures current == snapshot.state && history == snapshot.history
      ensures Valid() <==> WalkFromTo(Allowed(transitionMap), snapshot.history + [snapshot.state], INIT, snapshot.state)
    {
      current := snapshot.state;
      history := snapshot.history;
    }

    method CanReachHalt() returns (found: bool)
      ensures found <==> Reachable(Allowed(transitionMap), current, HALT)
    {
      var visited: set<State> := {};
      var stack := [current];
      SearchStarts(transitionMap, current);
      while stack != []
        invariant Searching(transitionMap, current, visited, Held(stack))
        invariant HALT !in visited
        decreases |Universe(transitionMap, current) - visited|, |stack|
      {
        var state := stack[|stack| - 1];
        stack := stack[..|stack| - 1];
        if state in visited {
          PopVisited(transitionMap, current, visited, Held(stack), state);
          continue;
        }
        PopNew(transitionMap, current, visited, Held(stack), state);
        visited := visited + {state};
        if state == HALT {
          return true;
        }
        stack := PushTargets(transitionMap, current, visited, state, stack);
      }
      SearchComplete(transitionMap, current, visited);
      return false;
    }

    method BfsAllStatesReachable() returns (count: nat, visited: set<State>)
      ensures forall s :: s in visited <==> Reachable(Allowed(transitionMap), INIT, s)
      ensures count == |visited|
    {
      visited := {};
      var stack := [INIT];
      SearchStarts(transitionMap, INIT);
      while stack != []
        invariant Searching(transitionMap, INIT, visited, Held(stack))
        decreases |Universe(transitionMap, INIT) - visited|, |stack|
      {
        var state := stack[|stack| - 1];
        stack := stack[..|stack| - 1];
        if state in visited {
          PopVisited(transitionMap, INIT, visited, Held(stack), state);
          continue;
        }
        PopNew(transitionMap, INIT, visited, Held(stack), state);
        visited := visited + {state};
        stack := PushTargets(transitionMap, INIT, visited, state, stack);
      }
      SearchComplete(transitionMap, INIT, visited);
      count := |visited|;
    }
  }

  /** Whatever a machine goes through after a snapshot, restoring takes it back: same state, same
      history, and so the same run. */
  method Rewind(machine: StateMachine, targets: seq<State>)
    requires machine.Valid()
    modifies machine
    ensures machine.Valid() && machine.transitionMap == old(machine.transitionMap)
    ensures machine.current == old(machine.current) && machine.history == old(machine.history)
  {
    var snapshot := machine.TakeSnapshot();
    for k := 0 to |targets|
      invariant machine.Valid() && machine.transitionMap == old(machine.transitionMap)
    {
      var _ := machine.Transition(targets[k]);
    }
    machine.Restore(snapshot);
  }

  // ---- The default map ------------------------------------------------------

  /** Under any map that gives HALT no targets, a run holds HALT at most as its last state. */
  lemma HaltAbsorbs(m: TransitionMap, run: seq<State>, k: nat)
    requires IsWalk(Allowed(m), run) && Targets(m, HALT) == []
    requires k < |run| && run[k] == HALT
    ensures k == |run| - 1
  {
    if k < |run| - 1 {
      WalkEdge(Allowed(m), run, k);
    }
  }

  /** Wherever a default run stands, it can still halt, and in one step unless it already has. */
  lemma DefaultRunsCanHalt(run: seq<State>)
    requires IsWalk(Allowed(DEFAULT_TRANSITIONS), run) && run[0] == INIT
    ensures var state := run[|run| - 1];
            && state in DEFAULT_TRANSITIONS
            && (state != HALT ==> HALT in Targets(DEFAULT_TRANSITIONS, state))
            && Reachable(Allowed(DEFAULT_TRANSITIONS), state, HALT)
  {
    var edge := Allowed(DEFAULT_TRANSITIONS);
    DefaultIsClosed();
    WalkStaysInClosed(edge, DEFAULT_TRANSITIONS.Keys, run);
    var state := run[|run| - 1];
    TrivialWalk(edge, state);
    if state != HALT {
      ExtendReachable(edge, state, state, HALT);
    }
  }

  /** The default transitions along the primary path, whose last state, at position 9, is HALT: any other
      state can halt, go one state on or one back; MONITOR and ADAPT can skip one, STABILIZE can return to
      OBSERVE and VERIFY to INIT; and that is all. */
  lemma DefaultMoves(i: nat, j: nat)
    requires i < |PRIMARY_PATH| && j < |PRIMARY_PATH|
    ensures PRIMARY_PATH[j] in Targets(DEFAULT_TRANSITIONS, PRIMARY_PATH[i]) <==>
            i < 9 && (j in {9, i + 1, i - 1} || (i in {5, 6} && j == i + 2) || (i == 7 && j == 1) || (i == 8 && j == 0))
    ensures PRIMARY_PATH[9] == HALT
  {
  }

  lemma PrimaryPathIsAWalk()
    ensures IsWalk(Allowed(DEFAULT_TRANSITIONS), PRIMARY_PATH)
  {
    forall k | 0 <= k < |PRIMARY_PATH| - 1
      ensures PRIMARY_PATH[k + 1] in Targets(DEFAULT_TRANSITIONS, PRIMARY_PATH[k])
    {
    }
  }

  lemma DefaultIsClosed()
    ensures Closed(Allowed(DEFAULT_TRANSITIONS), DEFAULT_TRANSITIONS.Keys)
  {
  }

  lemma AllTenOnPrimaryPath(s: State)
    ensures s in DEFAULT_TRANSITIONS <==> s in PRIMARY_PATH
  {
  }

  /** All ten states, and no other, are reachable from INIT under the default map. */
  lemma DefaultReachesAllTen(s: State)
    ensures Reachable(Allowed(DEFAULT_TRANSITIONS), INIT, s) <==> s in DEFAULT_TRANSITIONS
  {
    var edge := Allowed(DEFAULT_TRANSITIONS);
    if Reachable(edge, INIT, s) {
      DefaultIsClosed();
      ReachableStaysInClosed(edge, DEFAULT_TRANSITIONS.Keys, INIT, s);
    }
    if s in DEFAULT_TRANSITIONS {
      AllTenOnPrimaryPath(s);
      PrimaryPathIsAWalk();
      WalkReachesItsVertices(edge, PRIMARY_PATH, s);
    }
  }
}
