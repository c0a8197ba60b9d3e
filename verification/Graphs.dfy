/** Walks, reachability and shortest distance in a directed graph given by its edge relation. */
module Graphs {

  /** `p` is a nonempty sequence of vertices, each joined to the next by an edge. */
  ghost predicate IsWalk<V(!new)>(edge: (V, V) -> bool, p: seq<V>) {
    |p| >= 1 && forall k :: 0 <= k < |p| - 1 ==> edge(p[k], p[k + 1])
  }

  ghost predicate WalkFromTo<V(!new)>(edge: (V, V) -> bool, p: seq<V>, s: V, t: V) {
    IsWalk(edge, p) && p[0] == s && p[|p| - 1] == t
  }

  ghost predicate Reachable<V(!new)>(edge: (V, V) -> bool, s: V, t: V) {
    exists p :: WalkFromTo(edge, p, s, t)
  }

  /** A walk of exactly `d` edges joins `s` to `t`. */
  ghost predicate HasWalk<V(!new)>(edge: (V, V) -> bool, s: V, t: V, d: nat) {
    exists p :: WalkFromTo(edge, p, s, t) && |p| == d + 1
  }

  /** `d` is the number of edges on a shortest walk from `s` to `t`. */
  ghost predicate IsDistance<V(!new)>(edge: (V, V) -> bool, s: V, t: V, d: nat) {
    HasWalk(edge, s, t, d) && forall p :: WalkFromTo(edge, p, s, t) ==> d + 1 <= |p|
  }

  /** A closed walk with at least one edge. */
  ghost predicate HasCycle<V(!new)>(edge: (V, V) -> bool) {
    exists p :: IsWalk(edge, p) && |p| >= 2 && p[0] == p[|p| - 1]
  }

  ghost predicate Closed<V(!new)>(edge: (V, V) -> bool, S: set<V>) {
    forall u, v :: u in S && edge(u, v) ==> v in S
  }

  lemma WalkEdge<V(!new)>(edge: (V, V) -> bool, p: seq<V>, k: nat)
    requires IsWalk(edge, p) && k < |p| - 1
    ensures edge(p[k], p[k + 1])
  {
  }

  lemma TrivialWalk<V(!new)>(edge: (V, V) -> bool, s: V)
    ensures HasWalk(edge, s, s, 0) && Reachable(edge, s, s)
  {
    assert WalkFromTo(edge, [s], s, s);
  }

  lemma ExtendWalk<V(!new)>(edge: (V, V) -> bool, s: V, u: V, v: V, d: nat)
    requires HasWalk(edge, s, u, d) && edge(u, v)
    ensures HasWalk(edge, s, v, d + 1)
  {
    var p :| WalkFromTo(edge, p, s, u) && |p| == d + 1;
    assert WalkFromTo(edge, p + [v], s, v);
  }

  lemma ExtendReachable<V(!new)>(edge: (V, V) -> bool, s: V, u: V, v: V)
    requires Reachable(edge, s, u) && edge(u, v)
    ensures Reachable(edge, s, v)
  {
    var p :| WalkFromTo(edge, p, s, u);
    assert WalkFromTo(edge, p + [v], s, v);
  }

  lemma WalkReachesItsVertices<V(!new)>(edge: (V, V) -> bool, p: seq<V>, v: V)
    requires IsWalk(edge, p) && v in p
    ensures Reachable(edge, p[0], v)
  {
    var k :| 0 <= k < |p| && p[k] == v;
    assert WalkFromTo(edge, p[..k + 1], p[0], v);
  }

  lemma ReachableTransitive<V(!new)>(edge: (V, V) -> bool, s: V, u: V, v: V)
    requires Reachable(edge, s, u) && Reachable(edge, u, v)
    ensures Reachable(edge, s, v)
  {
    var p :| WalkFromTo(edge, p, s, u);
    var q :| WalkFromTo(edge, q, u, v);
    var w := p + q[1..];
    assert forall k :: 0 <= k < |w| - 1 ==> edge(w[k], w[k + 1]) by {
      forall k | 0 <= k < |w| - 1
        ensures edge(w[k], w[k + 1])
      {
        if k < |p| - 1 {
          assert edge(p[k], p[k + 1]);
        } else {
          var m := k - (|p| - 1);
          assert w[k] == q[m] && w[k + 1] == q[m + 1];
        }
      }
    }
    assert WalkFromTo(edge, w, s, v);
  }

  /** Whatever is reachable beyond the start is so through a first edge. */
  lemma FirstStep<V(!new)>(edge: (V, V) -> bool, s: V, t: V)
    ensures Reachable(edge, s, t) <==> s == t || exists v :: edge(s, v) && Reachable(edge, v, t)
  {
    TrivialWalk(edge, s);
    if Reachable(edge, s, t) && s != t {
      var p :| WalkFromTo(edge, p, s, t);
      WalkEdge(edge, p, 0);
      assert WalkFromTo(edge, p[1..], p[1], t);
    }
    if v :| edge(s, v) && Reachable(edge, v, t) {
      ExtendReachable(edge, s, s, v);
      ReachableTransitive(edge, s, v, t);
    }
  }

  /** A walk that starts in a closed set never leaves it. */
  lemma {:induction false} WalkStaysInClosed<V(!new)>(edge: (V, V) -> bool, S: set<V>, p: seq<V>)
    requires IsWalk(edge, p) && Closed(edge, S) && p[0] in S
    ensures p[|p| - 1] in S
    decreases |p|
  {
    if |p| > 1 {
      WalkStaysInClosed(edge, S, p[..|p| - 1]);
      assert edge(p[|p| - 2], p[|p| - 1]);
    }
  }

  lemma ReachableStaysInClosed<V(!new)>(edge: (V, V) -> bool, S: set<V>, s: V, t: V)
    requires Closed(edge, S) && s in S && Reachable(edge, s, t)
    ensures t in S
  {
    var p :| WalkFromTo(edge, p, s, t);
    WalkStaysInClosed(edge, S, p);
  }

  // ---- Counting distinct vertices ------------------------------------------

  ghost predicate Distinct<V>(order: seq<V>) {
    forall i, j :: 0 <= i < j < |order| ==> order[i] != order[j]
  }

  lemma {:induction false} DistinctCount<V>(order: seq<V>)
    requires Distinct(order)
    ensures |set v | v in order| == |order|
  {
    if order != [] {
      var rest := order[..|order| - 1];
      DistinctCount(rest);
      assert (set v | v in order) == (set v | v in rest) + {order[|order| - 1]};
    }
  }

  ghost function Range(n: nat): (r: set<int>)
    ensures |r| == n
    ensures forall i :: i in r <==> 0 <= i < n
  {
    if n == 0 then {} else Range(n - 1) + {n - 1}
  }

  lemma SubsetCount<V>(A: set<V>, B: set<V>)
    requires A <= B
    ensures |A| <= |B|
    ensures |A| == |B| ==> A == B
  {
    assert B == A + (B - A);
  }

  /** Distinct indices below `n` are at most `n` many. */
  lemma DistinctFits(order: seq<int>, n: nat)
    requires Distinct(order) && forall i :: i in order ==> 0 <= i < n
    ensures |order| <= n
  {
    DistinctCount(order);
    SubsetCount((set i | i in order), Range(n));
  }

  // ---- Breadth-first discovery ---------------------------------------------

  /** Some entry of `found` is `v` at a depth of at most `d`. */
  ghost predicate FoundBy<V>(found: seq<(V, nat)>, v: V, d: nat) {
    exists m :: 0 <= m < |found| && found[m].0 == v && found[m].1 <= d
  }

  ghost predicate Found<V>(found: seq<(V, nat)>, v: V) {
    exists m :: 0 <= m < |found| && found[m].0 == v
  }

  /** No vertex is entered twice and depths never fall. */
  ghost predicate Ordered<V>(found: seq<(V, nat)>) {
    found == [] ||
    var front := found[..|found| - 1];
    var last := found[|found| - 1];
    !Found(front, last.0) && (front == [] || front[|front| - 1].1 <= last.1) && Ordered(front)
  }

  lemma {:induction false} OrderedPairs<V>(found: seq<(V, nat)>)
    requires Ordered(found)
    ensures forall i, j :: 0 <= i < j < |found| ==> found[i].0 != found[j].0 && found[i].1 <= found[j].1
  {
    if found != [] {
      var n := |found| - 1;
      var front := found[..n];
      OrderedPairs(front);
      forall i, j | 0 <= i < j < |found|
        ensures found[i].0 != found[j].0 && found[i].1 <= found[j].1
      {
        assert found[i] == front[i];
        if j < n {
          assert found[j] == front[j];
        } else {
          assert i < n - 1 ==> front[i].1 <= front[n - 1].1;
        }
      }
    }
  }

  ghost predicate WalkedTo<V(!new)>(edge: (V, V) -> bool, s: V, found: seq<(V, nat)>, k: nat)
    requires k < |found|
  {
    HasWalk(edge, s, found[k].0, found[k].1)
  }

  /** Every edge out of entry `k` leads to an entry at most one level deeper. */
  ghost predicate Explored<V(!new)>(edge: (V, V) -> bool, found: seq<(V, nat)>, k: nat)
    requires k < |found|
  {
    forall v :: edge(found[k].0, v) ==> FoundBy(found, v, found[k].1 + 1)
  }

  /** What a breadth-first search knows when `found` lists the vertices discovered so far
      with their depths, and the first `head` of them have had all their edges followed. */
  ghost predicate BfsInvariant<V(!new)>(edge: (V, V) -> bool, s: V, found: seq<(V, nat)>, head: nat) {
    && 1 <= |found|
    && head <= |found|
    && found[0] == (s, 0)
    && Ordered(found)
    && (forall k :: 0 <= k < |found| ==> WalkedTo(edge, s, found, k))
    && (head < |found| ==> found[|found| - 1].1 <= found[head].1 + 1)
    && (forall k :: 0 <= k < head ==> Explored(edge, found, k))
  }

  lemma BfsStart<V(!new)>(edge: (V, V) -> bool, s: V)
    ensures BfsInvariant(edge, s, [(s, 0)], 0)
  {
    TrivialWalk(edge, s);
  }

  /** Appending a newly found neighbour of the vertex at `head` keeps the invariant. */
  lemma BfsDiscover<V(!new)>(edge: (V, V) -> bool, s: V, found: seq<(V, nat)>, head: nat, v: V)
    requires BfsInvariant(edge, s, found, head) && head < |found|
    requires edge(found[head].0, v) && !Found(found, v)
    ensures BfsInvariant(edge, s, found + [(v, found[head].1 + 1)], head)
  {
    var found' := found + [(v, found[head].1 + 1)];
    assert WalkedTo(edge, s, found, head);
    ExtendWalk(edge, s, found[head].0, v, found[head].1);
    assert found'[..|found|] == found;
    OrderedPairs(found);
    forall k | 0 <= k < |found'|
      ensures WalkedTo(edge, s, found', k)
    {
      if k < |found| {
        assert WalkedTo(edge, s, found, k);
      }
    }
    forall k | 0 <= k < head
      ensures Explored(edge, found', k)
    {
      assert Explored(edge, found, k);
      forall w | edge(found'[k].0, w)
        ensures FoundBy(found', w, found'[k].1 + 1)
      {
        assert FoundBy(found, w, found[k].1 + 1);
        var m :| 0 <= m < |found| && found[m].0 == w && found[m].1 <= found[k].1 + 1;
        assert found'[m] == found[m];
      }
    }
  }

  /** Once every edge out of the vertex at `head` leads to something found, the search moves on. */
  lemma BfsAdvance<V(!new)>(edge: (V, V) -> bool, s: V, found: seq<(V, nat)>, head: nat)
    requires BfsInvariant(edge, s, found, head) && head < |found|
    requires forall v :: edge(found[head].0, v) ==> Found(found, v)
    ensures BfsInvariant(edge, s, found, head + 1)
  {
    OrderedPairs(found);
    forall v | edge(found[head].0, v)
      ensures FoundBy(found, v, found[head].1 + 1)
    {
      var m :| 0 <= m < |found| && found[m].0 == v;
      assert found[m].1 <= found[|found| - 1].1;
    }
    assert Explored(edge, found, head);
  }

  /** Every walk from the source ends at a discovered vertex whose depth it cannot beat. */
  lemma {:induction false} BfsCoversWalk<V(!new)>(edge: (V, V) -> bool, s: V, found: seq<(V, nat)>, p: seq<V>)
    requires BfsInvariant(edge, s, found, |found|)
    requires IsWalk(edge, p) && p[0] == s
    ensures FoundBy(found, p[|p| - 1], |p| - 1)
    decreases |p|
  {
    if |p| == 1 {
      assert found[0].0 == s && found[0].1 <= 0;
    } else {
      var front := p[..|p| - 1];
      BfsCoversWalk(edge, s, found, front);
      var m :| 0 <= m < |found| && found[m].0 == front[|front| - 1] && found[m].1 <= |front| - 1;
      assert edge(p[|p| - 2], p[|p| - 1]);
      assert Explored(edge, found, m);
    }
  }

  /** A finished search lists exactly the reachable vertices, ... */
  lemma BfsFindsReachable<V(!new)>(edge: (V, V) -> bool, s: V, found: seq<(V, nat)>, v: V)
    requires BfsInvariant(edge, s, found, |found|)
    ensures Found(found, v) <==> Reachable(edge, s, v)
  {
    if Found(found, v) {
      var k :| 0 <= k < |found| && found[k].0 == v;
      assert WalkedTo(edge, s, found, k);
    }
    if Reachable(edge, s, v) {
      var p :| WalkFromTo(edge, p, s, v);
      BfsCoversWalk(edge, s, found, p);
    }
  }

  /** ... each with its exact distance. */
  lemma BfsFindsDistance<V(!new)>(edge: (V, V) -> bool, s: V, found: seq<(V, nat)>, k: nat)
    requires BfsInvariant(edge, s, found, |found|) && k < |found|
    ensures IsDistance(edge, s, found[k].0, found[k].1)
  {
    OrderedPairs(found);
    assert WalkedTo(edge, s, found, k);
    forall p | WalkFromTo(edge, p, s, found[k].0)
      ensures found[k].1 + 1 <= |p|
    {
      BfsCoversWalk(edge, s, found, p);
    }
  }

  // ---- A breadth-first search under way -----------------------------------------

  /** Some walk of at most `d` edges joins `s` to `t`. */
  ghost predicate ReachedWithin<V(!new)>(edge: (V, V) -> bool, s: V, t: V, d: nat) {
    exists p :: WalkFromTo(edge, p, s, t) && |p| <= d + 1
  }

  lemma SameDistance<V(!new)>(edge: (V, V) -> bool, s: V, t: V, d: nat, e: nat)
    requires IsDistance(edge, s, t, d) && IsDistance(edge, s, t, e)
    ensures d == e
  {
  }

  /** Before the vertex at `head` is scanned, every vertex at most as far from the source has been found. */
  lemma {:induction false} BfsCoversShortWalk<V(!new)>(edge: (V, V) -> bool, s: V, found: seq<(V, nat)>, head: nat, p: seq<V>)
    requires BfsInvariant(edge, s, found, head) && head < |found|
    requires IsWalk(edge, p) && p[0] == s && |p| - 1 <= found[head].1
    ensures FoundBy(found, p[|p| - 1], |p| - 1)
    decreases |p|
  {
    if |p| == 1 {
      assert found[0].0 == s && found[0].1 <= 0;
    } else {
      var front := p[..|p| - 1];
      BfsCoversShortWalk(edge, s, found, head, front);
      var m :| 0 <= m < |found| && found[m].0 == front[|front| - 1] && found[m].1 <= |front| - 1;
      OrderedPairs(found);
      assert m < head;
      assert edge(p[|p| - 2], p[|p| - 1]);
      assert Explored(edge, found, m);
    }
  }

  /** And nothing found by then is more than one step farther than it. */
  lemma NoFartherThanNext<V(!new)>(edge: (V, V) -> bool, s: V, found: seq<(V, nat)>, head: nat, m: nat)
    requires BfsInvariant(edge, s, found, head) && head < |found| && m < |found|
    ensures ReachedWithin(edge, s, found[m].0, found[head].1 + 1)
  {
    OrderedPairs(found);
    assert WalkedTo(edge, s, found, m);
    var p :| WalkFromTo(edge, p, s, found[m].0) && |p| == found[m].1 + 1;
  }

  /** So its depth is its distance. */
  lemma BfsDistanceAtHead<V(!new)>(edge: (V, V) -> bool, s: V, found: seq<(V, nat)>, head: nat)
    requires BfsInvariant(edge, s, found, head) && head < |found|
    ensures IsDistance(edge, s, found[head].0, found[head].1)
  {
    assert WalkedTo(edge, s, found, head);
    OrderedPairs(found);
    forall p | WalkFromTo(edge, p, s, found[head].0)
      ensures found[head].1 + 1 <= |p|
    {
      if |p| - 1 < found[head].1 {
        BfsCoversShortWalk(edge, s, found, head, p);
      }
    }
  }
}
