/** Breadth-first search over vertices numbered below `n`, in the order in which it reads the cells of
    a matrix: what it has found when it comes to scan an entry, where a cell it needs may be missing, and
    what that says in terms of distance. A source may also have a negative number. */
module SearchOrder {
  import opened Graphs

  type Edges = (int, int) -> bool

  predicate IsIndex(n: int, i: int) {
    -n <= i < n
  }

  /** All edges lead to vertices numbered from zero up. */
  ghost predicate Confined(edge: Edges, n: nat) {
    forall u, v :: edge(u, v) ==> 0 <= v < n
  }

  ghost function Vertices(found: seq<(int, nat)>): (s: set<int>)
    ensures forall i :: i in s <==> Found(found, i)
  {
    set k | 0 <= k < |found| :: found[k].0
  }

  lemma VerticesGrow(found: seq<(int, nat)>, entry: (int, nat))
    ensures Vertices(found + [entry]) == Vertices(found) + {entry.0}
  {
    forall j
      ensures Found(found + [entry], j) <==> Found(found, j) || j == entry.0
    {
      FoundInConcat(found, [entry], j);
      assert [entry][0].0 == entry.0;
    }
  }

  // ---- The order of a search, and the cells it reads -------------------------

  /** The vertices below `i` that scanning entry `head` adds: those it has an edge to, unless found before. */
  ghost function NewFinds(edge: Edges, found: seq<(int, nat)>, head: nat, i: nat): seq<(int, nat)>
    requires head < |found|
  {
    if i == 0 then []
    else
      NewFinds(edge, found, head, i - 1) +
      if !Found(found, i - 1) && edge(found[head].0, i - 1) then [(i - 1, found[head].1 + 1)] else []
  }

  /** What a search has found, in order and with depths, once it has scanned the first `k` entries; a
      missing cell counts as no edge. */
  ghost function Scanned(edge: Edges, n: nat, source: int, k: nat): seq<(int, nat)> {
    if k == 0 then [(source, 0)]
    else
      var before := Scanned(edge, n, source, k - 1);
      if k - 1 < |before| then before + NewFinds(edge, before, k - 1, n) else before
  }

  /** When entry `k` comes to be scanned vertex `v` has not been found, and the cell for the pair is missing. */
  ghost predicate Gap(edge: Edges, lacks: Edges, n: nat, source: int, k: nat, v: nat) {
    var found := Scanned(edge, n, source, k);
    k < |found| && v < n && !Found(found, v) && lacks(found[k].0, v)
  }

  /** The search needs a cell that is missing. */
  ghost predicate MeetsGap(edge: Edges, lacks: Edges, n: nat, source: int) {
    exists k: nat, v: nat :: Gap(edge, lacks, n, source, k, v)
  }

  ghost predicate NoGapBefore(edge: Edges, lacks: Edges, n: nat, source: int, head: nat) {
    forall k: nat, v: nat :: k < head ==> !Gap(edge, lacks, n, source, k, v)
  }

  /** The first gap, in the order in which the search reads the cells. */
  ghost predicate StopsAt(edge: Edges, lacks: Edges, n: nat, source: int, k: nat, v: nat) {
    && Gap(edge, lacks, n, source, k, v)
    && NoGapBefore(edge, lacks, n, source, k)
    && forall w: nat :: w < v ==> !Gap(edge, lacks, n, source, k, w)
  }

  /** What has been found when the search stops at the gap of entry `k` and vertex `v`. */
  ghost function FoundUntil(edge: Edges, lacks: Edges, n: nat, source: int, k: nat, v: nat): seq<(int, nat)>
    requires Gap(edge, lacks, n, source, k, v)
  {
    var found := Scanned(edge, n, source, k);
    found + NewFinds(edge, found, k, v)
  }

  /** `reached` is what a search that meets a gap has found by then. */
  ghost predicate StoppedWith(edge: Edges, lacks: Edges, n: nat, source: int, reached: set<int>) {
    exists k: nat, v: nat ::
      StopsAt(edge, lacks, n, source, k, v) && reached == Vertices(FoundUntil(edge, lacks, n, source, k, v))
  }

  lemma {:induction false} NewFindsBelow(edge: Edges, found: seq<(int, nat)>, head: nat, i: nat, v: int)
    requires head < |found|
    ensures Found(NewFinds(edge, found, head, i), v) <==>
            0 <= v < i && !Found(found, v) && edge(found[head].0, v)
  {
    if i > 0 {
      NewFindsBelow(edge, found, head, i - 1, v);
      var d: nat := found[head].1 + 1;
      var last: seq<(int, nat)> :=
        if !Found(found, i - 1) && edge(found[head].0, i - 1) then [(i - 1, d)] else [];
      assert last != [] ==> last[0].0 == i - 1;
      FoundInConcat(NewFinds(edge, found, head, i - 1), last, v);
    }
  }

  lemma FoundInConcat(a: seq<(int, nat)>, b: seq<(int, nat)>, v: int)
    ensures Found(a + b, v) <==> Found(a, v) || Found(b, v)
  {
    if Found(a, v) {
      var m :| 0 <= m < |a| && a[m].0 == v;
      assert (a + b)[m].0 == v;
    }
    if Found(b, v) {
      var m :| 0 <= m < |b| && b[m].0 == v;
      assert (a + b)[|a| + m].0 == v;
    }
  }

  /** One more vertex is looked at while entry `head` is scanned. */
  lemma OneMoreLook(edge: Edges, before: seq<(int, nat)>, head: nat, i: nat, found: seq<(int, nat)>)
    requires head < |before| && found == before + NewFinds(edge, before, head, i)
    ensures Found(found, i) <==> Found(before, i)
    ensures Found(found, i) || !edge(before[head].0, i) ==> found == before + NewFinds(edge, before, head, i + 1)
    ensures !Found(found, i) && edge(before[head].0, i) ==>
              found + [(i, before[head].1 + 1)] == before + NewFinds(edge, before, head, i + 1)
  {
    NewFindsBelow(edge, before, head, i, i);
    FoundInConcat(before, NewFinds(edge, before, head, i), i);
  }

  /** The cell for entry `head` and vertex `v` is there, or is never asked for. */
  ghost predicate CellRead(lacks: Edges, found: seq<(int, nat)>, head: nat, v: nat)
    requires head < |found|
  {
    Found(found, v) || !lacks(found[head].0, v)
  }

  /** The cells for entry `head` and the vertices below `i` that it may find are all there. */
  ghost predicate CellsRead(lacks: Edges, found: seq<(int, nat)>, head: nat, i: nat)
    requires head < |found|
  {
    forall v: nat :: v < i ==> CellRead(lacks, found, head, v)
  }

  /** An entry is scanned in full, and no cell was missing. */
  lemma ScanDone(edge: Edges, lacks: Edges, n: nat, source: int, head: nat, found: seq<(int, nat)>)
    requires var before := Scanned(edge, n, source, head);
             head < |before| && found == before + NewFinds(edge, before, head, n) && CellsRead(lacks, before, head, n)
    requires NoGapBefore(edge, lacks, n, source, head)
    ensures found == Scanned(edge, n, source, head + 1) && NoGapBefore(edge, lacks, n, source, head + 1)
  {
    var before := Scanned(edge, n, source, head);
    forall v: nat
      ensures !Gap(edge, lacks, n, source, head, v)
    {
      assert v < n ==> CellRead(lacks, before, head, v);
    }
  }

  /** A scan stops at the first missing cell. */
  lemma ScanStops(edge: Edges, lacks: Edges, n: nat, source: int, head: nat, i: nat)
    requires NoGapBefore(edge, lacks, n, source, head) && Gap(edge, lacks, n, source, head, i)
    requires CellsRead(lacks, Scanned(edge, n, source, head), head, i)
    ensures StopsAt(edge, lacks, n, source, head, i)
  {
    forall w: nat | w < i
      ensures !Gap(edge, lacks, n, source, head, w)
    {
      assert CellRead(lacks, Scanned(edge, n, source, head), head, w);
    }
  }

  /** Once everything found has been scanned nothing changes any more. */
  lemma {:induction false} ScannedIsStable(edge: Edges, n: nat, source: int, head: nat, k: nat)
    requires head <= k && |Scanned(edge, n, source, head)| <= head
    ensures Scanned(edge, n, source, k) == Scanned(edge, n, source, head)
    decreases k - head
  {
    if head < k {
      ScannedIsStable(edge, n, source, head, k - 1);
    }
  }

  /** A search that has scanned everything without a gap meets none. */
  lemma NoGapAtAll(edge: Edges, lacks: Edges, n: nat, source: int, head: nat)
    requires NoGapBefore(edge, lacks, n, source, head) && |Scanned(edge, n, source, head)| <= head
    ensures !MeetsGap(edge, lacks, n, source)
  {
    forall k: nat, v: nat
      ensures !Gap(edge, lacks, n, source, k, v)
    {
      if head <= k {
        ScannedIsStable(edge, n, source, head, k);
      }
    }
  }

  // ---- The search is breadth first -----------------------------------------------

  lemma LookStep(edge: Edges, source: int, sofar: seq<(int, nat)>, head: nat, v: nat, after: seq<(int, nat)>)
    requires BfsInvariant(edge, source, sofar, head) && head < |sofar|
    requires after == if !Found(sofar, v) && edge(sofar[head].0, v) then sofar + [(v, sofar[head].1 + 1)] else sofar
    ensures BfsInvariant(edge, source, after, head)
  {
    if !Found(sofar, v) && edge(sofar[head].0, v) {
      BfsDiscover(edge, source, sofar, head, v);
    }
  }

  /** Scanning one entry vertex by vertex keeps the breadth-first invariant. */
  lemma {:induction false} ScanStep(edge: Edges, n: nat, source: int, found: seq<(int, nat)>, head: nat, i: nat)
    requires BfsInvariant(edge, source, found, head) && head < |found| && i <= n
    ensures BfsInvariant(edge, source, found + NewFinds(edge, found, head, i), head)
  {
    if i == 0 {
      assert found + [] == found;
    } else {
      ScanStep(edge, n, source, found, head, i - 1);
      var sofar := found + NewFinds(edge, found, head, i - 1);
      OneMoreLook(edge, found, head, i - 1, sofar);
      assert sofar[head] == found[head];
      LookStep(edge, source, sofar, head, i - 1, found + NewFinds(edge, found, head, i));
    }
  }

  function Least(x: nat, y: nat): nat {
    if x <= y then x else y
  }

  lemma FullScan(edge: Edges, n: nat, source: int, before: seq<(int, nat)>, head: nat)
    requires Confined(edge, n) && BfsInvariant(edge, source, before, head) && head < |before|
    ensures BfsInvariant(edge, source, before + NewFinds(edge, before, head, n), head + 1)
  {
    var finds := NewFinds(edge, before, head, n);
    ScanStep(edge, n, source, before, head, n);
    forall v | edge(before[head].0, v)
      ensures Found(before + finds, v)
    {
      NewFindsBelow(edge, before, head, n, v);
      FoundInConcat(before, finds, v);
    }
    BfsAdvance(edge, source, before + finds, head);
  }

  lemma NextScan(edge: Edges, n: nat, source: int, before: seq<(int, nat)>, k: nat, after: seq<(int, nat)>)
    requires Confined(edge, n) && BfsInvariant(edge, source, before, Least(k, |before|))
    requires after == if k < |before| then before + NewFinds(edge, before, k, n) else before
    ensures BfsInvariant(edge, source, after, Least(k + 1, |after|))
  {
    if k < |before| {
      FullScan(edge, n, source, before, k);
    }
  }

  lemma {:induction false} ScannedIsBreadthFirst(edge: Edges, n: nat, source: int, k: nat)
    requires Confined(edge, n)
    ensures var found := Scanned(edge, n, source, k);
            BfsInvariant(edge, source, found, Least(k, |found|))
  {
    if k == 0 {
      BfsStart(edge, source);
    } else {
      ScannedIsBreadthFirst(edge, n, source, k - 1);
      NextScan(edge, n, source, Scanned(edge, n, source, k - 1), k - 1, Scanned(edge, n, source, k));
    }
  }

  /** While an entry is scanned nothing found is more than one level deeper. */
  lemma DepthsRise(edge: Edges, n: nat, source: int, head: nat, i: nat)
    requires Confined(edge, n) && head < |Scanned(edge, n, source, head)| && i <= n
    ensures var before := Scanned(edge, n, source, head);
            var found := before + NewFinds(edge, before, head, i);
            found[|found| - 1].1 <= before[head].1 + 1
  {
    ScannedIsBreadthFirst(edge, n, source, head);
    ScanStep(edge, n, source, Scanned(edge, n, source, head), head, i);
  }

  /** Nothing found is more than one level below the entry in hand. */
  ghost predicate Shallow(found: seq<(int, nat)>, head: nat) {
    head < |found| && found[|found| - 1].1 <= found[head].1 + 1
  }

  lemma ScannedIsShallow(edge: Edges, n: nat, source: int, head: nat)
    requires Confined(edge, n) && head < |Scanned(edge, n, source, head)|
    ensures Shallow(Scanned(edge, n, source, head), head)
  {
    var before := Scanned(edge, n, source, head);
    assert before + NewFinds(edge, before, head, 0) == before;
    DepthsRise(edge, n, source, head, 0);
  }

  lemma {:induction false} StaysShallow(edge: Edges, before: seq<(int, nat)>, head: nat, i: nat)
    requires Shallow(before, head)
    ensures var found := before + NewFinds(edge, before, head, i);
            found[|found| - 1].1 <= before[head].1 + 1
  {
    if i > 0 {
      StaysShallow(edge, before, head, i - 1);
      assert NewFinds(edge, before, head, i) == NewFinds(edge, before, head, i - 1) +
        if !Found(before, i - 1) && edge(before[head].0, i - 1) then [(i - 1, before[head].1 + 1)] else [];
    }
  }

  lemma {:induction false} ScannedGrows(edge: Edges, n: nat, source: int, k: nat, more: nat)
    requires k <= more
    ensures Scanned(edge, n, source, k) <= Scanned(edge, n, source, more)
    decreases more
  {
    if k < more {
      ScannedGrows(edge, n, source, k, more - 1);
    }
  }

  lemma FoundAreIndices(edge: Edges, n: nat, source: int, found: seq<(int, nat)>, head: nat, k: nat)
    requires Confined(edge, n) && IsIndex(n, source) && BfsInvariant(edge, source, found, head) && k < |found|
    ensures IsIndex(n, found[k].0)
  {
    assert WalkedTo(edge, source, found, k);
    if found[k].0 != source {
      NowhereElse(edge, n, source, found[k].0);
    }
  }

  /** Beyond its source a search reaches only vertices numbered from zero up. */
  lemma NowhereElse(edge: Edges, n: nat, source: int, i: int)
    requires Confined(edge, n) && Reachable(edge, source, i) && i != source
    ensures 0 <= i < n
  {
    var p :| WalkFromTo(edge, p, source, i);
    WalkEdge(edge, p, |p| - 2);
    var last := p[|p| - 2];
    assert edge(last, i);
  }

  /** No search finds more entries than there are indices. */
  lemma ScannedFits(edge: Edges, n: nat, source: int, k: nat)
    requires Confined(edge, n) && IsIndex(n, source)
    ensures |Scanned(edge, n, source, k)| <= 2 * n
  {
    var found := Scanned(edge, n, source, k);
    ScannedIsBreadthFirst(edge, n, source, k);
    OrderedPairs(found);
    var order := seq(|found|, m requires 0 <= m < |found| => found[m].0 + n);
    forall i | i in order
      ensures 0 <= i < 2 * n
    {
      var m :| 0 <= m < |order| && order[m] == i;
      FoundAreIndices(edge, n, source, found, Least(k, |found|), m);
    }
    DistinctFits(order, 2 * n);
  }

  // ---- When a search meets a gap --------------------------------------------------

  /** Every reachable vertex comes to be scanned, at its distance from the source. */
  lemma AffectedIsScanned(edge: Edges, n: nat, source: int, u: int, d: nat) returns (k: nat)
    requires Confined(edge, n) && IsIndex(n, source) && IsDistance(edge, source, u, d)
    ensures k < |Scanned(edge, n, source, k)| && Scanned(edge, n, source, k)[k] == (u, d)
  {
    var all := Scanned(edge, n, source, 2 * n);
    ScannedFits(edge, n, source, 2 * n);
    ScannedIsBreadthFirst(edge, n, source, 2 * n);
    BfsFindsReachable(edge, source, all, u);
    k :| 0 <= k < |all| && all[k].0 == u;
    BfsFindsDistance(edge, source, all, k);
    SameDistance(edge, source, u, d, all[k].1);
    if |Scanned(edge, n, source, k)| <= k {
      ScannedIsStable(edge, n, source, k, 2 * n);
    }
    ScannedGrows(edge, n, source, k, 2 * n);
  }

  /** A cell missing between a reachable vertex and one at least two steps farther, or out of reach,
      stops the search: ... */
  lemma FarGapStops(edge: Edges, lacks: Edges, n: nat, source: int, u: int, d: nat, v: nat)
    requires Confined(edge, n) && IsIndex(n, source) && IsDistance(edge, source, u, d)
    requires v < n && lacks(u, v) && !ReachedWithin(edge, source, v, d + 1)
    ensures MeetsGap(edge, lacks, n, source)
  {
    var k := AffectedIsScanned(edge, n, source, u, d);
    ScannedIsBreadthFirst(edge, n, source, k);
    var found := Scanned(edge, n, source, k);
    if Found(found, v) {
      var m :| 0 <= m < |found| && found[m].0 == v;
      NoFartherThanNext(edge, source, found, k, m);
    }
    assert Gap(edge, lacks, n, source, k, v);
  }

  /** ... and whatever stops it is a cell missing between a reachable vertex and one farther than it. */
  lemma OnlyFartherGapStops(edge: Edges, lacks: Edges, n: nat, source: int) returns (u: int, d: nat, v: nat)
    requires Confined(edge, n) && IsIndex(n, source) && MeetsGap(edge, lacks, n, source)
    ensures IsIndex(n, u) && IsDistance(edge, source, u, d)
    ensures v < n && lacks(u, v) && !ReachedWithin(edge, source, v, d)
  {
    var k: nat, w: nat :| Gap(edge, lacks, n, source, k, w);
    v := w;
    var found := Scanned(edge, n, source, k);
    u, d := found[k].0, found[k].1;
    ScannedIsBreadthFirst(edge, n, source, k);
    BfsDistanceAtHead(edge, source, found, k);
    FoundAreIndices(edge, n, source, found, k, k);
    if ReachedWithin(edge, source, v, d) {
      var p :| WalkFromTo(edge, p, source, v) && |p| <= d + 1;
      BfsCoversShortWalk(edge, source, found, k, p);
    }
  }
}
