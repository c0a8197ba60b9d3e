# Verified model of the multi-agent evaluation harness

This project models the stateful algorithms of the evaluation harness and proves what they compute
over every input, every run and every schedule. `dafny verify dfyconfig.toml` checks all of it.

One file stands for one component:

- `Options.dfy`: a value that may be missing.
- `EditDistance.dfy`: the Levenshtein table of the consistency index, proved to be the least number of single edits.
- `Graphs.dfy`: walks, reachability, shortest distance and cycles; the theory of breadth-first search.
- `SearchOrder.dfy`: in which order a breadth-first search reads a matrix, and when it needs a cell that is missing.
- `FederationBreaker.dfy`: the cascade of federation circuit breakers over a dependency matrix.
- `CascadeTester.dfy`: the hop-by-hop cascade scenario on a line of agents and its score.
- `GossipTrust.dfy`: gossip averaging of trust opinions, with and without malicious agents.
- `StateMachine.dfy`: the ten-state governance machine and its two reachability searches.
- `CircuitBreaker.dfy`: the clock, the three-state breaker, and a description of its runs by events alone.
- `ResourceGovernor.dfy`, `ConvergenceLoop.dfy`: budget, governor and the governed convergence loop.
- `RateLimit.dfy`: the token bucket, its exact admission theorem, and the per-client middleware.
- `DagAcyclicity.dfy`: the depth-first cycle search and the tool dependency graph it is used on.
- `Hex.dfy`, `AuditTrail.dfy`: the hash-chained audit trail and what tampering does to its verdict.
- `SidecarChain.dfy`: the signed decision chain, the list it hands out on export, its re-verifier in the bridge, and ingestion.
- `Oscillation.dfy`: the repeated-block detector.
- `VendorDiversity.dfy`: the vendor concentration index.
- `CompatibilityMatrix.dfy`: the symmetric pairwise compatibility matrix and its aggregate.
- `LatencyPressure.dfy`: the nearest-rank 99th percentile and its tiered score.

Conventions. Floats are `real` and display rounding is dropped. Every reading of a clock is an input,
nondecreasing where a result needs it; methods that read the clock say which readings they took. Random
shuffles and draws are arbitrary permutations and arbitrary values in range, so results hold for every seed.
The keyed hash (HMAC, section 2 of RFC 2104) is an arbitrary function. No hash of fixed length tells all
inputs apart, so no result assumes that it does: where two different inputs with one hash could spoil a
conclusion, the result names the very entries that would have to clash (`SomeHashesDoNotClash` shows that
they need not). Serialised JSON is represented by the value serialised. Sets and dictionaries that the
source iterates over are visited in arbitrary order.

Where code and documentation differ, the code is followed:

- The docstring of the cascade scenario (mas_eval/domains/d5_robustness.py:1066-1069) lists split-brain
  detection as a step, but the code only reads the flag, so runs alone never detect one; the recovery
  score is read before the recovery, and isolation after it, so isolation is always perfect.
- The pair functions for the two protocols name their parameters as federation blocks but are handed
  whole cards (mas_eval/domains/d3_multi_agent.py:697-713 and 841), so they read the top level of a card.
- The latency docstring promises no findings when there are no samples; the code returns a warning
  (mas_eval/domains/d2_latency_pressure.py:48 and 74-92).
- The dependency check looks for cycles in a graph that cannot have any (`DagAcyclicity.ToolGraphIsAcyclic`).

Properties that fail, each with the exact condition under which they hold:

- reading CLOSED off the failure count: in all runs of failures, successes and checks exactly for thresholds of at
  least one (`ClosedReadingNeedsThreshold`); with recursion depth in play, exactly while depth has never opened a
  closed breaker (`ReadingNeedsNoDepthTrip`);
- the connected transition history: in any run with resets, exactly if every reset met a closed breaker
  (`ChainIffResetsMeetClosed`);
- a reset breaker behaves like a new one: in runs in which depth opens a breaker too, exactly if no failure has moved the
  time of the last failure, which a reset keeps (`NewIffNoFailureTime`);
- the agreement of the two chain verifiers: the sidecar's raises KeyError exactly at an entry that names no
  predecessor, or the right one without carrying a hash, after good entries only (`VerifiersCompared`); lists whose
  entries all have the keys of a chain entry get the same verdict (`VerifiersAgree`);
- a cascade report counts every agent once: for a negative index, exactly if the source does not depend on itself in
  the end (`AliasCountsTwice`);
- a trigger with a valid index reports its cascade: exactly if no affected agent comes to be scanned while an agent
  not found yet has no cell for the pair (`Trigger`, `MissingCellExamples`); a cell missing between an affected agent
  and one two steps farther, or not affected, is enough (`FarMissingCellStops`), one between an affected agent and
  one farther is needed (`OnlyFartherMissingCellStops`), and if whole rows are missing the number of rows decides
  (`MissingRowsStop`);
- detection of a changed entry: exactly unless its old and new content hash alike in its place (`ChangedBody`); of a
  dropped or inserted one: exactly unless the hashes around it coincide (`DroppedEntry`, `InsertedEntry`);
- the integrity of an audit trail whose caller keeps changing a recorded payload, which the trail holds by reference
  (`AuditTrail.VerifyChain`), and of a sidecar chain whose exported list a caller changes (`HMACAuditChain.Verify`).

## Model

| member | source | states |
|---|---|---|
| EditDistance.Compute | mas_eval/domains/d5_robustness.py:1977-1990 | the table loops return the recurrence value `Distance`, on every pair of sequences |
| EditDistance.DistanceIsMinimum | mas_eval/domains/d5_robustness.py:1977-1990 | a number is the computed distance if and only if some path of that many single-element edits leads from one sequence to the other and no path is shorter |
| EditDistance.NoShorterPath | mas_eval/domains/d5_robustness.py:1983-1989 | no path of insertions, deletions and substitutions beats the computed distance |
| EditDistance.ShortestPath | mas_eval/domains/d5_robustness.py:1983-1989 | a path of exactly that length exists, built along the choices of the table |
| EditDistance.SingleEditCostsOne | mas_eval/domains/d5_robustness.py:1985-1988 | two sequences one edit apart are at distance one |
| EditDistance.Triangle | mas_eval/domains/d5_robustness.py:1977-1990 | triangle inequality |
| EditDistance.Symmetric | mas_eval/domains/d5_robustness.py:1977-1990 | symmetry |
| EditDistance.ZeroIffEqual | mas_eval/domains/d5_robustness.py:1977-1990 | distance zero exactly for equal sequences |
| EditDistance.Bounds | mas_eval/domains/d5_robustness.py:1979-1983 | the distance lies between the difference of the lengths and the longer length |
| Graphs.BfsDiscover | mas_eval/domains/d5_robustness.py:854-866 | discovering an unvisited neighbour of the vertex in hand keeps the breadth-first invariant, with one more level of depth |
| Graphs.BfsAdvance | mas_eval/domains/d5_robustness.py:854-857 | a vertex may be left once everything it leads to has been found |
| Graphs.BfsFindsReachable | mas_eval/domains/d5_robustness.py:848-866 | a finished breadth-first search has found exactly the reachable vertices |
| Graphs.BfsFindsDistance | mas_eval/domains/d5_robustness.py:848-866 | and each carries its shortest-walk distance |
| SearchOrder.ScannedIsBreadthFirst | mas_eval/domains/d5_robustness.py:853-866 | scanning the entries in order, and the agents of each by index, is a breadth-first search |
| FederationBreaker.FederationCircuitBreaker.constructor | mas_eval/domains/d5_robustness.py:802-821 | default names and mesh where none are given (what that mesh does is `DefaultCascade` and `TriggerDefault`), any matrix otherwise; everything starts closed |
| FederationBreaker.WeightDecides | mas_eval/domains/d5_robustness.py:857-859 | where the matrix has a cell for every pair, an open agent trips another exactly if the weight in that one's row is above 0.4 |
| FederationBreaker.FederationCircuitBreaker.ResetAll | mas_eval/domains/d5_robustness.py:835-838 | all agents closed, counters zero, history empty |
| FederationBreaker.FederationCircuitBreaker.TripDependents | mas_eval/domains/d5_robustness.py:854-866 | one pass over the agents trips exactly the unvisited dependents of the current one, and ends exactly at the first cell it needs that the matrix lacks |
| FederationBreaker.FederationCircuitBreaker.SpreadFrom | mas_eval/domains/d5_robustness.py:844-877 | from any index, negative ones included, a trigger opens exactly the agents reachable from its source over weights above 0.4, and its report is exact; it raises IndexError if and only if it needs a missing cell, with exactly the agents tripped that it has found by then |
| FederationBreaker.FederationCircuitBreaker.Drain | mas_eval/domains/d5_robustness.py:853-866 | the queue loop scans what is found in breadth-first order, and stops early only at the first missing cell it needs |
| FederationBreaker.FederationCircuitBreaker.Trigger | mas_eval/domains/d5_robustness.py:844-879 | IndexError if and only if the index is out of range, with nothing changed, or the cascade needs a cell the matrix lacks, with nothing reported and exactly the agents found by then opened; over any series of triggers since a reset the open agents are the union of the reachable sets; failure counters agree; every report kept lists each affected agent once, by rising shortest distance, with the exact depth, counts and containment |
| FederationBreaker.FarMissingCellStops | mas_eval/domains/d5_robustness.py:854-858 | a cell missing between an affected agent and one at least two steps farther, or not affected, makes a cascade raise IndexError |
| FederationBreaker.OnlyFartherMissingCellStops | mas_eval/domains/d5_robustness.py:854-858 | only a cell missing between an affected agent and one farther from the source does |
| FederationBreaker.MissingRowsStop | mas_eval/domains/d5_robustness.py:854-858 | a matrix that lacks whole rows stops every cascade, except that a single missing row does not stop the one from its own agent |
| FederationBreaker.MissingCellExamples | mas_eval/domains/d5_robustness.py:854-858 | a matrix that stops a cascade, and one with a missing cell that is never read |
| FederationBreaker.SearchReports | mas_eval/domains/d5_robustness.py:868-877 | a search with nothing left waiting yields a report that is exact in terms of reachability and distance alone |
| FederationBreaker.RetriggerReachesNothingNew | mas_eval/domains/d5_robustness.py:844-866 | triggering an agent that a cascade has reached can open nothing new |
| FederationBreaker.AliasCountsTwice | mas_eval/domains/d5_robustness.py:845-877 | a negative index opens the same agents as the index it stands for, and the report counts one too many exactly when the source depends on itself in the end |
| FederationBreaker.DefaultCascade | mas_eval/domains/d5_robustness.py:823-833 | in the default mesh of any number of agents a cascade opens everybody from the first agent, those up to the fourth from the next two, and only the source from any later one; each is at most one step away |
| FederationBreaker.DefaultReport | mas_eval/domains/d5_robustness.py:823-877 | so a report about it counts n agents, 4 - source of them cut to n, or one; its depth is one step or none, and it is contained exactly if the source is alone |
| FederationBreaker.TriggerDefault | mas_eval/domains/d5_robustness.py:802-879 | a breaker built without a matrix and triggered once: exactly those agents open, and exactly that report |
| CascadeTesters.FederationCascadeTester.Propagate | mas_eval/domains/d5_robustness.py:969-1006 | from any state exactly the healthy line-neighbours of agents that are down fall, at the first hop, and later hops do nothing |
| CascadeTesters.HopMeans | mas_eval/domains/d5_robustness.py:976-1000 | a hop takes down every healthy agent at distance one of one that is failed or cascaded, and changes nobody else |
| CascadeTesters.LoneFaultHop | mas_eval/domains/d5_robustness.py:976-1000 | so a lone fault takes down the agents beside it and nobody else |
| CascadeTesters.FederationCascadeTester.TakeDown | mas_eval/domains/d5_robustness.py:989-1005 | which agents are marked, tripped and timed, and the depth recorded |
| CascadeTesters.FederationCascadeTester.FailedNeighbors | mas_eval/domains/d5_robustness.py:980-985 | the count is positive exactly when a neighbour on the line is down |
| CascadeTesters.OnlyFirstHopSpreads | mas_eval/domains/d5_robustness.py:1029-1031 | the spreading probability exceeds one half at the first hop and at no other |
| CascadeTesters.FederationCascadeTester.InjectFault | mas_eval/domains/d5_robustness.py:955-967 | marks the agent failed, or refuses an index out of range |
| CascadeTesters.FederationCascadeTester.SimulateRecovery | mas_eval/domains/d5_robustness.py:1008-1020 | everyone healthy, no breaker tripped, everyone timed between 1 and 9 seconds |
| CascadeTesters.FederationCascadeTester.DetectSplitBrain | mas_eval/domains/d5_robustness.py:1022-1027 | detected exactly when two different agents are healthy |
| CascadeTesters.FederationCascadeTester.RunScenario | mas_eval/domains/d5_robustness.py:1065-1090 | from any state the score is 55 plus 20 or 10, plus 15 or 7.5, plus 10 or 0, settled by three yes-or-no facts about that state: a switch had been timed or some agent falls to the fault, a recovery had been timed, a split brain had been detected |
| CascadeTesters.FederationCascadeTester.Grade | mas_eval/domains/d5_robustness.py:1035-1090 | the weighted sum of the five dimensions after recovery |
| CascadeTesters.FirstAndLaterRuns | mas_eval/domains/d5_robustness.py:1022-1090 | the first run of a tester scores 82.5 and every later one 90, ten more each if a split brain was looked for beforehand, with the five dimensions that go with it, for all sizes, valid sources and draws |
| CascadeTesters.RunWithoutAnyoneToFall | mas_eval/domains/d5_robustness.py:1035-1090 | with every agent at fault beforehand nobody falls, and the run scores 72.5 |
| GossipTrust.HonestExchange | mas_eval/domains/d4_governance_security.py:1035-1039 | an honest exchange keeps the column sum and takes half the squared difference out of the spread around any point |
| GossipTrust.HonestExchangeLowersVariance | mas_eval/domains/d4_governance_security.py:1035-1050 | so the column variance falls by exactly (x-y)^2/(2n) |
| GossipTrust.HonestRound | mas_eval/domains/d4_governance_security.py:1025-1041 | a round under any shuffle keeps the sum, never raises the variance and never widens the range of a column |
| GossipTrust.HonestRun | mas_eval/domains/d4_governance_security.py:1025-1063 | the same for whole tables over any number of rounds and any schedule of shuffles |
| GossipTrust.AccuracyIsConserved | mas_eval/domains/d4_governance_security.py:1065-1074 | without malicious agents the consensus accuracy depends on the initial table alone |
| GossipTrust.AnyRunStaysInUnit | mas_eval/domains/d4_governance_security.py:1025-1041 | with any malicious agents, opinions that start in [0, 1] stay there in every run |
| GossipTrust.GossipTrustProtocol.constructor | mas_eval/domains/d4_governance_security.py:994-1020 | the initial table: own truth exactly, about others the truth plus the noise drawn, cut to [0, 1] |
| GossipTrust.GossipTrustProtocol.Meet | mas_eval/domains/d4_governance_security.py:1030-1039 | what a meeting of two agents does to every column, malicious or not (what that means is `MeetingMeans`) |
| GossipTrust.GossipTrustProtocol.Round | mas_eval/domains/d4_governance_security.py:1025-1041 | one round is the meetings of the shuffled pairs in order (what that means is `RoundMeans`) |
| GossipTrust.MeetingMeans | mas_eval/domains/d4_governance_security.py:1030-1039 | a meeting changes nobody else: a malicious first agent keeps its mind and makes the other think 0.9 of it and 0.1 of everybody else, itself included; otherwise a malicious second one does so; two honest agents meet half-way on everybody |
| GossipTrust.RoundMeans | mas_eval/domains/d4_governance_security.py:1025-1041 | in a whole round, whoever lies, each shuffled pair ends up as its one meeting on the opinions before the round has left it |
| GossipTrust.OddOneOut | mas_eval/domains/d4_governance_security.py:1028-1028 | the last of an odd number of agents keeps its mind |
| GossipTrust.LiarsRun | mas_eval/domains/d4_governance_security.py:1025-1063 | over any schedule a single liar never changes its own mind, and after any round the agent paired with it thinks 0.9 of it and 0.1 of everybody else |
| GossipTrust.GossipTrustProtocol.TrustVariance | mas_eval/domains/d4_governance_security.py:1043-1050 | the mean of the column variances |
| GossipTrust.TableVarianceZero | mas_eval/domains/d4_governance_security.py:1043-1050 | the trust variance is never negative, and zero exactly when all agents agree about everybody |
| GossipTrust.GossipTrustProtocol.RunUntilConvergence | mas_eval/domains/d4_governance_security.py:1052-1063 | stops after the first round whose variance is below the threshold, or when the rounds run out; what it reports in each case |
| GossipTrust.GossipTrustProtocol.ConsensusAccuracy | mas_eval/domains/d4_governance_security.py:1065-1074 | its answer is that of the table before any gossip when nobody is malicious |
| GossipTrust.AccuracyMeans | mas_eval/domains/d4_governance_security.py:1065-1074 | the consensus accuracy is one less the mean of how far the mean opinions are from the truth, so one exactly when none is |
| GovernanceStates.StateMachine.Transition | mas_eval/domains/d4_governance_security.py:134-139 | moves exactly along the map; the run stays a walk from INIT |
| GovernanceStates.StateMachine.ForceStabilize | mas_eval/domains/d4_governance_security.py:141-144 | succeeds exactly when STABILIZE is a target |
| GovernanceStates.StateMachine.ForceStop | mas_eval/domains/d4_governance_security.py:146-149 | succeeds exactly when HALT is a target |
| GovernanceStates.Rewind | mas_eval/domains/d4_governance_security.py:216-221 | restoring a snapshot undoes whatever transitions came after it: same state, same history, and the run a walk again |
| GovernanceStates.StateMachine.Restore | mas_eval/domains/d4_governance_security.py:219-221 | the run stays a walk exactly when the snapshot holds one |
| GovernanceStates.StateMachine.CanReachHalt | mas_eval/domains/d4_governance_security.py:151-164 | true exactly when HALT is reachable from the current state, for any transition map; terminates with duplicates on the stack |
| GovernanceStates.StateMachine.BfsAllStatesReachable | mas_eval/domains/d4_governance_security.py:166-177 | visits exactly the states reachable from INIT, for any transition map |
| GovernanceStates.SearchComplete | mas_eval/domains/d4_governance_security.py:151-177 | a search with an empty stack has visited exactly the reachable states |
| GovernanceStates.PopNew | mas_eval/domains/d4_governance_security.py:155-158 | taking a new state off the stack keeps the search invariant and leaves one state fewer to visit |
| GovernanceStates.HaltAbsorbs | mas_eval/domains/d4_governance_security.py:193-194 | in any run HALT can only be the last state |
| GovernanceStates.DefaultRunsCanHalt | mas_eval/domains/d4_governance_security.py:119-132 | every run of the default map can halt, in one step unless it has |
| GovernanceStates.DefaultMoves | mas_eval/domains/d4_governance_security.py:119-132 | the default map along the primary path: one on, one back, or HALT; MONITOR and ADAPT may skip one, STABILIZE may return to OBSERVE and VERIFY to INIT; nothing else |
| GovernanceStates.DefaultReachesAllTen | mas_eval/domains/d4_governance_security.py:119-132 | the default map reaches all ten states from INIT and no other |
| CircuitBreakers.CircuitBreaker.RecordFailure | mas_eval/domains/d4_governance_security.py:251-260 | new breaker state in full, and when it reports a trip |
| CircuitBreakers.CircuitBreaker.RecordSuccess | mas_eval/domains/d4_governance_security.py:262-272 | new breaker state in full, and when it reports closing |
| CircuitBreakers.CircuitBreaker.CheckCooldown | mas_eval/domains/d4_governance_security.py:274-281 | new breaker state in full, and when it half-opens |
| CircuitBreakers.CircuitBreaker.IncrementDepth | mas_eval/domains/d4_governance_security.py:283-288 | new breaker state in full |
| CircuitBreakers.CircuitBreaker.Reset | mas_eval/domains/d4_governance_security.py:293-297 | new breaker state in full |
| CircuitBreakers.StateMeansEvents | mas_eval/domains/d4_governance_security.py:251-281 | in every run: CLOSED exactly when the failure count is below the threshold; CLOSED counts the current row of failures, HALF_OPEN the successes with no failure since, OPEN remembers the latest failure |
| CircuitBreakers.MovesAreExact | mas_eval/domains/d4_governance_security.py:251-281 | every change of state, read off the events so far: a row of failures opens, a check a full cooldown after the latest failure half-opens, one failure reopens, enough successes close; nothing else moves it |
| CircuitBreakers.ClosedReadingNeedsThreshold | mas_eval/domains/d4_governance_security.py:251-260 | reading CLOSED off the failure count works in all runs exactly for thresholds of at least one |
| CircuitBreakers.ChainIffResetsMeetClosed | mas_eval/domains/d4_governance_security.py:247-297 | in any run of failures, successes, checks, depth changes and resets the transition history is one connected chain from CLOSED to the current state if and only if every reset met a closed breaker |
| CircuitBreakers.HistoryIsAChain | mas_eval/domains/d4_governance_security.py:247-288 | so without resets it always is |
| CircuitBreakers.ReadingNeedsNoDepthTrip | mas_eval/domains/d4_governance_security.py:251-297 | throughout any such run CLOSED can be read off the failure count if and only if recursion depth never opened a closed breaker |
| CircuitBreakers.DepthOpensWithoutFailures | mas_eval/domains/d4_governance_security.py:283-288 | four depth increments open a breaker with no failure counted |
| CircuitBreakers.LevelsAndProbes | mas_eval/domains/d4_governance_security.py:283-297 | in any run of a new breaker the recursion depth counts the levels entered since it was last cleared or reset, and a closed breaker has no half-open success on record |
| CircuitBreakers.ResetStartsOver | mas_eval/domains/d4_governance_security.py:293-297 | after a reset the breaker goes through the same states and counts as a new one, in every run in which depth opens neither |
| CircuitBreakers.NewIffNoFailureTime | mas_eval/domains/d4_governance_security.py:274-297 | and in every run whatever, depth included, exactly if the time of its last failure, which a reset keeps, is still the initial one |
| Governance.ReachedMeans | mas_eval/harness/resource_governor.py:40-45 | a limit is reached from its value on, an unlimited one never |
| Governance.TokenBudget.Exceeded | mas_eval/harness/resource_governor.py:40-45 | exceeded exactly when one of the three limits is reached; the clock is read only if the first two are not |
| Governance.ResourceGovernor.Check | mas_eval/harness/resource_governor.py:59-67 | true exactly when the budget is not spent and the breaker, after a due cooldown, is not open; the tripped flag says whether it is open; an open breaker's cooldown is checked at the clock reading after the budget's |
| Governance.ResourceGovernor.RecordFailure | mas_eval/harness/resource_governor.py:72-75 | one failure for the breaker at the next clock reading, and the flag follows |
| Governance.ResourceGovernor.RecordSuccess | mas_eval/harness/resource_governor.py:77-78 | one success for the breaker; it cannot open it |
| Governance.FailingCallsAreCapped | mas_eval/harness/resource_governor.py:59-78 | with quick checks, a row of failing calls never exceeds three and a row of three leaves the breaker open with no call after it |
| Governance.QuickReadingsQuickChecks | mas_eval/harness/resource_governor.py:59-75 | enough for that: less than a cooldown passes between any reading of the clock and the third after it, and the run starts closed |
| ConvergenceLoops.ConvergenceLoop.Run | mas_eval/harness/loop_engine.py:49-139 | whole runs: history is exactly what the runner returned, in order, each entry timed by a reading of the clock; every call, raised or returned, was let through in time and with calls, tokens and time left in the budget; stop reasons mean what they say, both ways for regression, convergence and open circuit, and by the latest reading taken for timeout and exhaustion; on the scores themselves: no three scores before the last are two small steps apart, the last three are if the run converged (so any two of them differ by less than twice the delta) and make it converge if neither step is a drop, and a drop is the last step or the first of exactly two and makes it a regression; attempts never exceed the limit nor successes the calls remaining; calls used grow by the history; no call is made while the breaker is open; started closed and with less than the cooldown between the latest failure and each check of the breaker, no four calls in a row fail, and three end the run with the open circuit as its reason; without a governor the first exception passes through |
| ConvergenceLoops.ConvergenceLoop.OnePass | mas_eval/harness/loop_engine.py:66-121 | one pass through the loop body makes at most one runner call and stops only for a justified reason |
| ConvergenceLoops.ConvergenceLoop.Attempt | mas_eval/harness/loop_engine.py:79-121 | a runner call is recorded as one success with its entry, or one failure, or passes through |
| ConvergenceLoops.ConvergenceLoop.Gate | mas_eval/harness/loop_engine.py:67-69 | before an attempt and after a failure: lets the loop go on only with calls, tokens and time left and the breaker not open, and otherwise gives the reason |
| ConvergenceLoops.ConvergenceLoop.AddEntry | mas_eval/harness/loop_engine.py:92-100 | the entry of a call that returned, and what it keeps of the run |
| ConvergenceLoops.ConvergenceLoop.Judge | mas_eval/harness/loop_engine.py:103-121 | regression first, then convergence, on the last three scores |
| ConvergenceLoops.CriteriaExplain | mas_eval/harness/loop_engine.py:103-121 | what the two criteria, checked after every score in turn, amount to on the whole trajectory: where small steps and drops may stand, and which reason they give |
| ConvergenceLoops.ConvergenceLoop.MakeReport | mas_eval/harness/loop_engine.py:123-139 | trajectory, final score and findings agree with the history |
| ConvergenceLoops.ReportMeans | mas_eval/harness/loop_engine.py:123-139 | a report repeats the history: every score in order, the last one as the final score, zero if there is none |
| ConvergenceLoops.FindingsInOrder | mas_eval/harness/loop_engine.py:124-126 | the findings of every entry are in the report, between those of the entries before and after |
| ConvergenceLoops.ConvergenceLoop.GovernorStopReason | mas_eval/harness/loop_engine.py:44-47 | open circuit exactly when the breaker is open |
| ConvergenceLoops.LateRegressionIsLast | mas_eval/harness/loop_engine.py:103-112 | a regression stop with more than three entries has its drop at the last step |
| ConvergenceLoops.ConvergenceLoop.FailingRunsStop | mas_eval/harness/loop_engine.py:79-91 | with such checks a row of three failing calls is the end of a run and the open circuit its reason |
| ConvergenceLoops.FailingRunnerIsCapped | mas_eval/harness/loop_engine.py:79-87 | the same of the governor's log: started closed and with quick checks, at most three runner calls fail in a row, and three are the last calls and leave the circuit open |
| ConvergenceLoops.TellsAll | mas_eval/harness/loop_engine.py:66-121 | the record of a run says in particular that its history follows the runner attempt by attempt and that no proper prefix met a criterion |
| ConvergenceLoops.EntriesAreReturns | mas_eval/harness/loop_engine.py:79-99 | every entry of such a history is about a call that returned, later than the one before it, and holds the score, findings and domain scores of that call, with zero and nothing for what it left out |
| ConvergenceLoops.ReturnsHaveEntries | mas_eval/harness/loop_engine.py:79-99 | and every call that returned has an entry |
| ConvergenceLoops.EveryCallLetThrough | mas_eval/harness/loop_engine.py:67-79 | and that every single call came after a check with time left in the budget and a look at the clock within the timeout |
| ConvergenceLoops.ElapsedTimesRise | mas_eval/harness/loop_engine.py:71-98 | on a clock that never runs backwards the elapsed times of the entries never fall, and none but the last exceeds the timeout |
| ConvergenceLoops.LogGrows | mas_eval/harness/loop_engine.py:66-91 | the governor log follows the runner call by call, holding calls back while the breaker is open |
| RateLimit.TokenBucket.Consume | api/ratelimit.py:18-26 | new bucket state in full and the decision |
| RateLimit.LevelIsLeastRoom | api/ratelimit.py:18-26 | what is on hand is the least room left in any window ending now |
| RateLimit.AdmissionIsExact | api/ratelimit.py:18-26 | a call of any cost is admitted if and only if no window ending with it would then hold more than burst + rate * elapsed |
| RateLimit.WindowBound | api/ratelimit.py:18-26 | no window of any run takes more than its allowance |
| RateLimit.AllowanceMeans | api/ratelimit.py:18-26 | the allowance of a window is the burst and the rate times the time it spans |
| RateLimit.AdmittedInFull | api/ratelimit.py:18-26 | a request sequence is admitted in full if and only if every window asks for at most its allowance |
| RateLimit.TokensStayInRange | api/ratelimit.py:18-26 | tokens stay between zero and the burst |
| RateLimit.BucketConforms | api/ratelimit.py:18-26 | the decisions of the bucket respect every window |
| RateLimit.BucketIsGreediest | api/ratelimit.py:18-26 | at every moment it has admitted at least as many unit calls as any choice that respects every window |
| RateLimit.RateLimitMiddleware.constructor | api/ratelimit.py:30-41 | an empty bucket table and the default excluded paths when none are given |
| RateLimit.RateLimitMiddleware.Dispatch | api/ratelimit.py:43-69 | excluded paths pass; others draw on the bucket of their client alone, made full on first use; what that means from the `client` fields of all requests is `VerdictIsItsOwn` |
| RateLimit.ClientsAreIsolated | api/ratelimit.py:38-54 | however requests interleave, the bucket of a host is what the requests with that host in their client field (none counting as "unknown") make of a fresh bucket |
| RateLimit.AnswersAreIsolated | api/ratelimit.py:43-69 | and every answer it gets is the answer of that bucket |
| RateLimit.VerdictIsItsOwn | api/ratelimit.py:43-69 | the verdict on a request is the verdict after only those earlier requests that have its own host |
| RateLimit.NewHostPasses | api/ratelimit.py:43-69 | the first request of a host passes, whoever has asked before |
| RateLimit.ExcludedPathsAreFree | api/ratelimit.py:43-50 | a request for an excluded path passes and changes no bucket |
| RateLimit.ClientWindowBound | api/ratelimit.py:18-69 | whatever the other clients do, the requests of one client let through in any window are at most burst + rate * elapsed |
| DagAcyclicity.CycleSearch.HasCycleFrom | mas_eval/domains/d1_compliance.py:621-631 | the recursive search with its shared sets: a true answer shows a cycle, a false one leaves the stack as it was and the node finished after everything it depends on |
| DagAcyclicity.CycleSearch.Run | mas_eval/domains/d1_compliance.py:618-638 | over all start nodes a cycle is reported if and only if the graph has one, for any finite graph, also with neighbours that are not keys |
| DagAcyclicity.SealedIsAcyclic | mas_eval/domains/d1_compliance.py:621-638 | a finishing order in which dependencies come first excludes cycles |
| DagAcyclicity.BackEdgeClosesCycle | mas_eval/domains/d1_compliance.py:628-629 | an edge back to the recursion stack closes a cycle |
| DagAcyclicity.BuildGraph | mas_eval/domains/d1_compliance.py:607-616 | the graph the check builds: edges lead from a skill to the outside names occurring in its own |
| DagAcyclicity.SubstringMeans | mas_eval/domains/d1_compliance.py:614-616 | a name occurs in another exactly if that one is made of it and something, or nothing, on either side |
| DagAcyclicity.ToolGraphIsAcyclic | mas_eval/domains/d1_compliance.py:607-616 | that graph never has a cycle |
| DagAcyclicity.CheckDagAcyclicity | mas_eval/domains/d1_compliance.py:594-657 | so the check reports an acyclic graph for every card it can read |
| AuditTrails.VerifyEntries | mas_eval/domains/d4_governance_security.py:392-418 | the loop computes the specified verdict on any list of entries |
| AuditTrails.IntactMeansAllGood | mas_eval/domains/d4_governance_security.py:392-418 | no error exactly when every hash is the keyed hash of its own entry and its predecessor, from genesis |
| AuditTrails.VerdictIsFirstFault | mas_eval/domains/d4_governance_security.py:392-418 | otherwise the one error is about the first entry that is not good |
| AuditTrails.FaultsInOrder | mas_eval/domains/d4_governance_security.py:396-416 | which error an entry gives: unreadable text first, then a wrong predecessor, then a wrong hash |
| AuditTrails.FirstBuildsOnGenesis | mas_eval/domains/d4_governance_security.py:369-390 | the first entry of a good trail builds on 32 bytes, each the character zero |
| AuditTrails.HeadCommitsToTrail | mas_eval/domains/d4_governance_security.py:369-390 | two intact trails with the same last hash are the same trail, entry by entry, or two of their entries clash or one hashes to genesis |
| AuditTrails.SomeHashesDoNotClash | mas_eval/domains/d4_governance_security.py:369-390 | a hash under which the entries of a recorded trail do not clash |
| AuditTrails.ChangedBody | mas_eval/domains/d4_governance_security.py:404-416 | changing the content of an entry is reported exactly there, if and only if old and new content hash differently in that place |
| AuditTrails.DroppedEntry | mas_eval/domains/d4_governance_security.py:397-407 | dropping a non-tail entry is reported in its place, unless its hash equals the one before it |
| AuditTrails.InsertedEntry | mas_eval/domains/d4_governance_security.py:397-416 | an inserted non-tail entry is reported itself, or, if it fits, the entry after it is |
| AuditTrails.SwappedNeighbours | mas_eval/domains/d4_governance_security.py:397-407 | swapping neighbours is reported at the first of them |
| AuditTrails.RecordedHashesDiffer | mas_eval/domains/d4_governance_security.py:377-389 | in a recorded trail the hashes around an entry coincide if and only if it clashes with the entry before it or, as the first, hashes to genesis |
| AuditTrails.TruncationIsUnseen | mas_eval/domains/d4_governance_security.py:392-418 | every prefix of an intact trail is intact |
| AuditTrails.RespelledHash | mas_eval/domains/d4_governance_security.py:396-396 | another spelling of the same hash bytes goes unnoticed |
| AuditTrails.AuditTrail.Record | mas_eval/domains/d4_governance_security.py:375-390 | appends one record that extends the intact chain |
| AuditTrails.AuditTrail.VerifyChain | mas_eval/domains/d4_governance_security.py:392-418 | after any series of records: intact while no caller has changed a recorded payload; the first changed one is the error if and only if it hashes differently now |
| Hex.HexRoundTrip | mas_eval/domains/d4_governance_security.py:380-387 | hexadecimal text reads back as the bytes it was written from |
| Hex.UpperReadsTheSame | mas_eval/domains/d4_governance_security.py:396-396 | text in upper case reads back as the same bytes |
| Hex.OnlySpaceIsSkipped | mas_eval/domains/d4_governance_security.py:396-396 | of the characters that are no digits only white space is read over; any other is an error |
| SidecarChains.VerifyChain | compliance_sidecar_v2.py:144-161 | the loop computes the specified answer, KeyError included |
| SidecarChains.VerifyChainIntegrity | mas_eval/harness/sidecar_bridge.py:96-124 | the loop computes the specified verdict on any JSON value and secret |
| SidecarChains.VerifiersCompared | mas_eval/harness/sidecar_bridge.py:96-124 | on every list of mappings and non-empty secret: the bridge accepts exactly the chain-shaped lists the sidecar accepts, and the sidecar raises KeyError exactly when, after good entries only, one names no predecessor or names the right one and carries no hash |
| SidecarChains.VerifiersAgree | mas_eval/harness/sidecar_bridge.py:96-124 | where every entry has the keys of a chain entry the two verdicts are the same |
| SidecarChains.VerifiersAgreeFrom | mas_eval/harness/sidecar_bridge.py:111-124 | the bridge accepts exactly the chain-shaped lists the sidecar accepts |
| SidecarChains.StrippedHashDivides | compliance_sidecar_v2.py:151-160 | a list on which they differ |
| SidecarChains.IngestAuditChain | mas_eval/harness/sidecar_bridge.py:61-93 | the loop unwraps chain entries, keeps flat ones and drops the rest |
| SidecarChains.UnchangedIffFlat | mas_eval/harness/sidecar_bridge.py:69-71 | ingestion leaves a list unchanged exactly when it is a flat list of mappings |
| SidecarChains.VerifiedMeansAllGood | compliance_sidecar_v2.py:144-161 | a chain verifies exactly when every entry names the hash before it and carries its own signature |
| SidecarChains.HeadCommitsToChain | compliance_sidecar_v2.py:123-142 | two chains that verify and end in the same hash are equal, or two of their entries clash or one is signed with the genesis marker |
| SidecarChains.HMACAuditChain.AddEntry | compliance_sidecar_v2.py:123-142 | appends one entry with exactly the time, the previous hash, the decision as it was, and the signature of those three; what is recorded stays a good chain |
| SidecarChains.HMACAuditChain.Verify | compliance_sidecar_v2.py:144-165 | after any additions both verifiers accept the list, unless a caller has changed it; a changed list that still verifies and ends in the chain's own last hash contains an entry that clashes with a recorded one or a genesis signature |
| SidecarChains.HMACAuditChain.ExportAndIngest | mas_eval/harness/sidecar_bridge.py:61-93 | ingesting the exported list, which is the chain's own, gives back exactly the decisions recorded, in order, unless a caller has changed it |
| SidecarChains.MakeChain | compliance_sidecar_v2.py:110-121 | takes the secret given, or the one in the environment if none is; refuses exactly a missing or empty one |
| Oscillation.OscillationDetector.RecordState | mas_eval/domains/d4_governance_security.py:317-319 | history grows by one and the window is its tail |
| Oscillation.OscillationDetector.DetectOscillation | mas_eval/domains/d4_governance_security.py:321-337 | the least length in 2 .. window + 1 of a block that is immediately repeated anywhere; nothing when there is none or too little history |
| Oscillation.AnswerIsUnique | mas_eval/domains/d4_governance_security.py:321-337 | what was recorded leaves only one answer |
| Oscillation.OscillationDetector.Stabilize | mas_eval/domains/d4_governance_security.py:339-343 | forgets the history |
| Oscillation.DetectionsPersist | mas_eval/domains/d4_governance_security.py:321-337 | recording more never loses a detection nor lengthens the block reported |
| Oscillation.RepeatedBlockIsReported | mas_eval/domains/d4_governance_security.py:321-337 | a block that occurs twice in a row is reported, with at most its length |
| VendorDiversity.CheckVendorDiversity | mas_eval/domains/d4_governance_security.py:1166-1233 | the loops return the diversity of the vendors named, and the warning that goes with their number |
| VendorDiversity.MentionsCount | mas_eval/domains/d4_governance_security.py:1179-1189 | a vendor is counted once for each card that names it and once more for each card whose federation block does; empty names never |
| VendorDiversity.CountVendors | mas_eval/domains/d4_governance_security.py:1204-1206 | counts every vendor |
| VendorDiversity.SumShares | mas_eval/domains/d4_governance_security.py:1208-1208 | sums the squared percentage shares |
| VendorDiversity.SquaresBetween | mas_eval/domains/d4_governance_security.py:1208-1209 | Cauchy: the sum of squares lies between the squared sum over the number of terms and the squared sum |
| VendorDiversity.DiversityBounds | mas_eval/domains/d4_governance_security.py:1208-1209 | with k vendors the index lies between 10000/k and 10000 and diversity between 0 and 100(1 - 1/k), zero exactly for one vendor |
| VendorDiversity.OrderIsIrrelevant | mas_eval/domains/d4_governance_security.py:1203-1209 | the order in which vendors are named is irrelevant |
| VendorDiversity.MergerLowersDiversity | mas_eval/domains/d4_governance_security.py:1203-1209 | merging two vendors strictly lowers diversity |
| CompatibilityMatrix.PairScoreSymmetric | mas_eval/domains/d3_multi_agent.py:697-806 | the sum over the seven dimensions is symmetric |
| CompatibilityMatrix.PairScoreBounds | mas_eval/domains/d3_multi_agent.py:697-806 | and lies between 10 and 100 |
| CompatibilityMatrix.FullMarks | mas_eval/domains/d3_multi_agent.py:693-806 | a pair scores 100 exactly if both cards enable both protocols in equal or known versions, the schemas agree, both authenticate by mTLS or OAuth2, a zone is shared, trust differs by at most 0.1, and both have roles of which not both are primary |
| CompatibilityMatrix.McpCost | mas_eval/domains/d3_multi_agent.py:697-710 | whatever else the cards say, the first protocol costs 20 points if not enabled on both, and 10 if the versions neither agree nor are both known |
| CompatibilityMatrix.A2aCost | mas_eval/domains/d3_multi_agent.py:713-726 | the same of the second protocol |
| CompatibilityMatrix.SchemaCost | mas_eval/domains/d3_multi_agent.py:729-732 | different schemas cost 10 points |
| CompatibilityMatrix.SchemaReadings | mas_eval/domains/d3_multi_agent.py:729-732 | the card version stands in for a missing schema version, and "1.2" for both |
| CompatibilityMatrix.AuthCost | mas_eval/domains/d3_multi_agent.py:735-743 | the same insecure authentication costs 5 points, different ones not both secure cost 10 |
| CompatibilityMatrix.ZonesCost | mas_eval/domains/d3_multi_agent.py:746-758 | no zones on either card cost 5 points, disjoint ones 10 |
| CompatibilityMatrix.TrustCost | mas_eval/domains/d3_multi_agent.py:771-783 | trust further apart than a tenth costs 5 points, than three tenths 10 |
| CompatibilityMatrix.TrustReadings | mas_eval/domains/d3_multi_agent.py:761-777 | trust that is missing or no number counts as one half |
| CompatibilityMatrix.RoleCost | mas_eval/domains/d3_multi_agent.py:786-795 | a missing role costs 5 points, two primaries 10 |
| CompatibilityMatrix.RoleConflictIsPrimaries | mas_eval/domains/d3_multi_agent.py:786-795 | only two primaries conflict; the other conflict pair is never reached |
| CompatibilityMatrix.FillRow | mas_eval/domains/d3_multi_agent.py:831-856 | the inner loop fills a row and a column with the pair scores and counts the incompatible ones |
| CompatibilityMatrix.CheckCompatibilityMatrix | mas_eval/domains/d3_multi_agent.py:809-886 | the matrix holds 100 on the diagonal and the pair score elsewhere; the score is the aggregate over unordered pairs; it is 100 exactly if every pair of cards gets full marks, and for two cards it is their pair score, less ten if that is below fifty |
| CompatibilityMatrix.PerfectFederation | mas_eval/domains/d3_multi_agent.py:870-872 | the aggregate is 100 exactly if every pair of cards gets full marks |
| CompatibilityMatrix.UniformAggregate | mas_eval/domains/d3_multi_agent.py:870-872 | if all pairs score the same, the aggregate is that score, less ten for each of the n(n-1)/2 pairs if it is below fifty, and never below zero |
| CompatibilityMatrix.TwoCards | mas_eval/domains/d3_multi_agent.py:870-872 | the aggregate of two cards is their pair score, less ten if that is below fifty |
| CompatibilityMatrix.MatrixShape | mas_eval/domains/d3_multi_agent.py:827-849 | symmetric, 100 on the diagonal, between 10 and 100 off it |
| CompatibilityMatrix.SumPairsOrder | mas_eval/domains/d3_multi_agent.py:831-872 | for a symmetric function the sum over unordered pairs depends on the elements alone |
| CompatibilityMatrix.PermutationInvariance | mas_eval/domains/d3_multi_agent.py:831-872 | permuting the cards permutes rows and columns and leaves the aggregate unchanged |
| LatencyPressure.RunLatencyPressure | mas_eval/domains/d2_latency_pressure.py:29-141 | samples, percentile, score and severity of any trajectory and threshold |
| LatencyPressure.SamplesAreContributed | mas_eval/domains/d2_latency_pressure.py:63-73 | a value is a sample exactly as often as actions contribute it: positive, in the first-token field, or in the latency field where the other is absent |
| LatencyPressure.P99IsSmallest | mas_eval/domains/d2_latency_pressure.py:94-101 | the percentile is the smallest sample that at least 99 in 100 samples do not exceed |
| LatencyPressure.AtLeastP99 | mas_eval/domains/d2_latency_pressure.py:94-101 | a value is at or above it exactly when at least 99 in 100 samples are at most that value |
| LatencyPressure.P99IsMonotone | mas_eval/domains/d2_latency_pressure.py:94-101 | raising samples never lowers it |
| LatencyPressure.ScoreIsAntitone | mas_eval/domains/d2_latency_pressure.py:109-141 | raising samples never raises the score, which stays in [0, 100], for every threshold |
| LatencyPressure.TierMeans | mas_eval/domains/d2_latency_pressure.py:109-141 | the tiers: 100 points up to 200 ms, 85 up to 350 ms, 70 up to the threshold, then evenly less down to none at twice the threshold |
| LatencyPressure.ScoreByCount | mas_eval/domains/d2_latency_pressure.py:94-141 | so counting decides: 100 points exactly if 99 in 100 samples took at most 200 ms, 85 or more if at most 350 ms, 70 or more if they kept to the threshold |

## Left out

- ConvergenceLoops.ConvergenceLoop.Run: the runner cannot itself touch the governor, and elapsed seconds are not rounded.
- GovernanceStates.StateMachine.BfsAllStatesReachable: returns the visited states as a set, not as a sorted list.
- CompatibilityMatrix.CheckCompatibilityMatrix: findings, display names and the per-dimension scores of incompatible pairs are not modelled; the table of dimensions is written out as one sum.
- AuditTrails.AuditTrail.VerifyChain: entries with keys other than those `record` writes, and payload mappings shared between records in nested parts, are not modelled.
- CascadeTesters.FederationCascadeTester.RunScenario: the event log and the finding texts are not modelled.
- DagAcyclicity.CheckDagAcyclicity: skill identifiers and dependency names are strings; cards whose capabilities lack an identifier, for which the source raises KeyError, are not modelled.
- Cascade averages over several triggers, the false-positive and recovery rates of the oscillation detector, the malicious-detection score and the reset of the gossip protocol: one-line arithmetic over state modelled here.
- Gray-code and entropy checks of the state machine: a finite table.
- Float rounding, NaN and infinities, except the unlimited budget.
- Agent-card field checks, additive scorers, text matching, scoring, the HTTP layer, persistence and reporting.
