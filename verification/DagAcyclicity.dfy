/** Check 1.10 of the compliance domain: the tool dependency graph, the depth-first search with a
    recursion stack that looks for a cycle in it, and what the check can report. */
module DagAcyclicity {
  import opened Graphs

  type Graph = map<string, set<string>>

  function Neighbors(graph: Graph, node: string): set<string> {
    if node in graph then graph[node] else {}
  }

  ghost function Depends(graph: Graph): (string, string) -> bool {
    (u: string, v: string) => v in Neighbors(graph, u)
  }

  ghost function Universe(graph: Graph): set<string> {
    graph.Keys + set u, v | u in graph && v in graph[u] :: v
  }

  /** `done` lists finished nodes so that whatever a node depends on comes before it. */
  ghost predicate Sealed(graph: Graph, done: seq<string>) {
    forall i, v :: 0 <= i < |done| && v in Neighbors(graph, done[i]) ==> v in done[..i]
  }

  lemma SealedExtends(graph: Graph, done: seq<string>, node: string)
    requires Sealed(graph, done) && forall v :: v in Neighbors(graph, node) ==> v in done
    ensures Sealed(graph, done + [node])
  {
    forall i, v | 0 <= i < |done + [node]| && v in Neighbors(graph, (done + [node])[i])
      ensures v in (done + [node])[..i]
    {
      if i < |done| {
        assert (done + [node])[..i] == done[..i];
      } else {
        assert (done + [node])[..i] == done;
      }
    }
  }

  /** From a finished node every walk descends to strictly earlier finished nodes. */
  lemma {:induction false} WalkDescends(graph: Graph, done: seq<string>, p: seq<string>, i: nat)
    requires Sealed(graph, done) && IsWalk(Depends(graph), p) && |p| >= 2
    requires i < |done| && done[i] == p[0]
    ensures p[|p| - 1] in done[..i]
    decreases |p|
  {
    WalkEdge(Depends(graph), p, 0);
    var j :| 0 <= j < i && done[..i][j] == p[1];
    if |p| > 2 {
      WalkDescends(graph, done, p[1..], j);
      assert forall x :: x in done[..j] ==> x in done[..i];
    }
  }

  lemma {:induction false} FirstIndex(done: seq<string>, x: string) returns (i: nat)
    requires x in done
    ensures i < |done| && done[i] == x && x !in done[..i]
    decreases |done|
  {
    if x in done[..|done| - 1] {
      i := FirstIndex(done[..|done| - 1], x);
      assert done[..|done| - 1][..i] == done[..i];
    } else {
      i := |done| - 1;
    }
  }

  /** When every key of the graph is finished there is no cycle. */
  lemma SealedIsAcyclic(graph: Graph, done: seq<string>)
    requires Sealed(graph, done) && forall u :: u in graph ==> u in done
    ensures !HasCycle(Depends(graph))
  {
    if HasCycle(Depends(graph)) {
      var p :| IsWalk(Depends(graph), p) && |p| >= 2 && p[0] == p[|p| - 1];
      WalkEdge(Depends(graph), p, 0);
      var i := FirstIndex(done, p[0]);
      WalkDescends(graph, done, p, i);
    }
  }

  /** `path` is the chain of calls in progress and the recursion stack holds its nodes. */
  ghost predicate OnPath(graph: Graph, path: seq<string>, stack: set<string>) {
    && stack == (set x | x in path)
    && (path != [] ==> IsWalk(Depends(graph), path))
  }

  lemma PathGrows(graph: Graph, path: seq<string>, stack: set<string>, node: string)
    requires OnPath(graph, path, stack) && (path == [] || node in Neighbors(graph, path[|path| - 1]))
    ensures OnPath(graph, path + [node], stack + {node})
  {
  }

  /** An edge back to a node of the path closes a cycle. */
  lemma BackEdgeClosesCycle(graph: Graph, path: seq<string>, stack: set<string>, v: string)
    requires OnPath(graph, path, stack) && path != [] && v in stack && v in Neighbors(graph, path[|path| - 1])
    ensures HasCycle(Depends(graph))
  {
    var i :| 0 <= i < |path| && path[i] == v;
    var cycle := path[i..] + [v];
    forall k | 0 <= k < |cycle| - 1
      ensures Depends(graph)(cycle[k], cycle[k + 1])
    {
      if k < |cycle| - 2 {
        WalkEdge(Depends(graph), path, i + k);
      }
    }
    assert IsWalk(Depends(graph), cycle) && cycle[0] == cycle[|cycle| - 1];
  }

  /** Finished nodes are the visited ones that are no longer on the recursion stack. */
  ghost predicate Consistent(graph: Graph, path: seq<string>, done: seq<string>, visited: set<string>, stack: set<string>) {
    && OnPath(graph, path, stack)
    && Sealed(graph, done)
    && (forall x :: x in done <==> x in visited && x !in stack)
    && stack <= visited
  }

  lemma EnterNode(graph: Graph, path: seq<string>, done: seq<string>, visited: set<string>, stack: set<string>, node: string)
    requires Consistent(graph, path, done, visited, stack) && node !in visited
    requires path == [] || node in Neighbors(graph, path[|path| - 1])
    ensures Consistent(graph, path + [node], done, visited + {node}, stack + {node})
  {
    PathGrows(graph, path, stack, node);
  }

  lemma LeaveNode(graph: Graph, path: seq<string>, done: seq<string>, visited: set<string>, stack: set<string>, node: string)
    requires Consistent(graph, path + [node], done, visited, stack + {node}) && OnPath(graph, path, stack)
    requires node !in stack && forall v :: v in Neighbors(graph, node) ==> v in done
    ensures Consistent(graph, path, done + [node], visited, stack)
  {
    SealedExtends(graph, done, node);
    assert node in stack + {node};
  }

  lemma Smaller(all: set<string>, before: set<string>, after: set<string>, node: string)
    requires node in all && node !in before && before + {node} <= after
    ensures |all - after| < |all - before|
  {
    SubsetCount(all - after, all - before - {node});
    assert all - before == (all - before - {node}) + {node};
  }

  class CycleSearch {
    const graph: Graph
    var visited: set<string>
    var recursionStack: set<string>

    constructor (graph: Graph)
      ensures this.graph == graph && visited == {} && recursionStack == {}
    {
      this.graph := graph;
      visited := {};
      recursionStack := {};
    }

    /** The source's nested `has_cycle`; `path` and `done` are the calls in progress and finished. */
    method HasCycleFrom(node: string, ghost path: seq<string>, ghost done: seq<string>)
      returns (found: bool, ghost done': seq<string>)
      requires Consistent(graph, path, done, visited, recursionStack)
      requires node in Universe(graph) && node !in visited
      requires path == [] || node in Neighbors(graph, path[|path| - 1])
      modifies this`visited, this`recursionStack
      ensures found ==> HasCycle(Depends(graph))
      ensures !found ==> Consistent(graph, path, done', visited, recursionStack) && recursionStack == old(recursionStack)
      ensures !found ==> old(visited) + {node} <= visited && done <= done' && node in done'
      decreases |Universe(graph) - visited|
    {
      EnterNode(graph, path, done, visited, recursionStack, node);
      visited := visited + {node};
      recursionStack := recursionStack + {node};
      ghost var path' := path + [node];
      done' := done;
      var remaining := Neighbors(graph, node);
      while remaining != {}
        invariant remaining <= Neighbors(graph, node)
        invariant Consistent(graph, path', done', visited, recursionStack) && recursionStack == old(recursionStack) + {node}
        invariant old(visited) + {node} <= visited && done <= done'
        invariant forall v :: v in Neighbors(graph, node) && v !in remaining ==> v in done'
        decreases remaining
      {
        var neighbor :| neighbor in remaining;
        remaining := remaining - {neighbor};
        if neighbor !in visited {
          Smaller(Universe(graph), old(visited), visited, node);
          var deeper;
          deeper, done' := HasCycleFrom(neighbor, path', done');
          if deeper {
            return true, done';
          }
        } else if neighbor in recursionStack {
          BackEdgeClosesCycle(graph, path', recursionStack, neighbor);
          return true, done';
        }
      }
      LeaveNode(graph, path, done', visited, old(recursionStack), node);
      recursionStack := recursionStack - {node};
      assert recursionStack == old(recursionStack);
      done' := done' + [node];
      return false, done';
    }

    /** The search from every node not yet visited decides acyclicity exactly. */
    method Run() returns (cycleFound: bool)
      requires visited == {} && recursionStack == {}
      modifies this`visited, this`recursionStack
      ensures cycleFound <==> HasCycle(Depends(graph))
    {
      ghost var done: seq<string> := [];
      var pending := graph.Keys;
      while pending != {}
        invariant pending <= graph.Keys
        invariant Consistent(graph, [], done, visited, recursionStack)
        invariant forall u :: u in graph && u !in pending ==> u in done
        decreases pending
      {
        var node :| node in pending;
        pending := pending - {node};
        if node !in visited {
          var found;
          found, done := HasCycleFrom(node, [], done);
          if found {
            return true;
          }
        }
      }
      SealedIsAcyclic(graph, done);
      return false;
    }
  }

  // ---- The graph the check builds -------------------------------------------

  /** A declared dependency: a bare string, a mapping with a name, or a mapping without one. */
  datatype Dependency = Bare(name: string) | Metadata(name: string) | Nameless

  datatype Severity = HIGH | INFO

  datatype Finding = Finding(check: string, severity: Severity, detail: string)

  /** A nameless mapping cannot be put in a set: the source raises TypeError. */
  datatype Outcome = Findings(findings: seq<Finding>) | TypeError

  predicate IsSubstring(d: string, s: string) {
    exists i :: 0 <= i <= |s| && IsPrefixAt(d, s, i)
  }

  predicate IsPrefixAt(d: string, s: string, i: nat)
    requires i <= |s|
  {
    d <= s[i..]
  }

  ghost predicate Surrounded(d: string, before: string, after: string, s: string) {
    s == before + d + after
  }

  /** A name occurs inside another exactly if that one is made of it and something before and after, which
      may be nothing. */
  lemma SubstringMeans(d: string, s: string)
    ensures IsSubstring(d, s) <==> exists before, after :: Surrounded(d, before, after, s)
  {
    if IsSubstring(d, s) {
      var i :| 0 <= i <= |s| && IsPrefixAt(d, s, i);
      assert s == s[..i] + (d + s[i..][|d|..]);
      assert Surrounded(d, s[..i], s[i..][|d|..], s);
    }
    if exists before, after :: Surrounded(d, before, after, s) {
      var before, after :| Surrounded(d, before, after, s);
      assert s[|before|..] == d + after;
      assert IsPrefixAt(d, s, |before|);
    }
  }

  /** What each skill depends on: the outside names that occur inside its own. */
  ghost predicate IsToolGraph(graph: Graph, skillIds: set<string>, deps: set<string>) {
    && graph.Keys == skillIds
    && forall s, d :: s in skillIds ==> (d in graph[s] <==> d in deps && d !in skillIds && IsSubstring(d, s))
  }

  method BuildGraph(skillIds: set<string>, deps: set<string>) returns (graph: Graph)
    ensures IsToolGraph(graph, skillIds, deps)
  {
    graph := map s | s in skillIds :: {};
    var pending := deps;
    while pending != {}
      invariant pending <= deps
      invariant graph.Keys == skillIds
      invariant forall s, d :: s in skillIds ==>
                  (d in graph[s] <==> d in deps && d !in pending && d !in skillIds && IsSubstring(d, s))
      decreases pending
    {
      var dep :| dep in pending;
      pending := pending - {dep};
      if dep in skillIds {
        continue;
      }
      var skills := skillIds;
      ghost var graph0 := graph;
      while skills != {}
        invariant skills <= skillIds
        invariant graph.Keys == skillIds
        invariant forall s :: s in skillIds ==>
                    graph[s] == if s !in skills && IsSubstring(dep, s) then graph0[s] + {dep} else graph0[s]
        decreases skills
      {
        var skill :| skill in skills;
        skills := skills - {skill};
        if IsSubstring(dep, skill) {
          graph := graph[skill := graph[skill] + {dep}];
        }
      }
    }
  }

  /** Edges lead only to names that are not skills, so the graph the check builds has no cycle. */
  lemma ToolGraphIsAcyclic(graph: Graph, skillIds: set<string>, deps: set<string>)
    requires IsToolGraph(graph, skillIds, deps)
    ensures !HasCycle(Depends(graph))
  {
    if HasCycle(Depends(graph)) {
      var p :| IsWalk(Depends(graph), p) && |p| >= 2 && p[0] == p[|p| - 1];
      WalkEdge(Depends(graph), p, 0);
      WalkEdge(Depends(graph), p, |p| - 2);
    }
  }

  /** Whatever a card declares, the check never reports a cycle. */
  method CheckDagAcyclicity(skillIds: set<string>, dependencies: seq<Dependency>) returns (r: Outcome)
    ensures r == TypeError <==> Nameless in dependencies
    ensures Nameless !in dependencies ==>
              r == Findings([Finding("1.10", INFO, "Tool dependency graph is acyclic")])
  {
    var depsSet: set<string> := {};
    for i := 0 to |dependencies|
      invariant Nameless !in dependencies[..i]
    {
      if dependencies[i] == Nameless {
        return TypeError;
      }
      depsSet := depsSet + {dependencies[i].name};
    }
    assert dependencies[..|dependencies|] == dependencies;
    var graph := BuildGraph(skillIds, depsSet);
    var search := new CycleSearch(graph);
    var cycleFound := search.Run();
    ToolGraphIsAcyclic(graph, skillIds, depsSet);
    if cycleFound {
      r := Findings([Finding("1.10", HIGH, "Cycle detected in tool dependency graph")]);
    } else {
      r := Findings([Finding("1.10", INFO, "Tool dependency graph is acyclic")]);
    }
  }
}
