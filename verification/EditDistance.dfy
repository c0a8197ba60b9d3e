/** `ConsistencyIndex._edit_distance`: the full Levenshtein table, its meaning as the
    least number of single-element edits, and the metric laws that follow. */
module EditDistance {

  function Min(x: nat, y: nat): nat {
    if x <= y then x else y
  }

  function Abs(x: int): nat {
    if x < 0 then -x else x
  }

  function Cost<T(==)>(x: T, y: T): nat {
    if x == y then 0 else 1
  }

  /** The table's recurrence, read from the end of both sequences. */
  function Distance<T(==)>(a: seq<T>, b: seq<T>): nat
    decreases |a| + |b|
  {
    if |a| == 0 then |b|
    else if |b| == 0 then |a|
    else
      var a', b' := a[..|a| - 1], b[..|b| - 1];
      Min(Min(Distance(a', b) + 1, Distance(a, b') + 1),
          Distance(a', b') + Cost(a[|a| - 1], b[|b| - 1]))
  }

  /** The entry the table should hold at row `i`, column `j`. */
  ghost function Entry<T>(a: seq<T>, b: seq<T>, i: nat, j: nat): nat
    requires i <= |a| && j <= |b|
  {
    Distance(a[..i], b[..j])
  }

  lemma EntryRecurrence<T>(a: seq<T>, b: seq<T>, i: nat, j: nat)
    requires 1 <= i <= |a| && 1 <= j <= |b|
    ensures Entry(a, b, i, j) ==
            Min(Min(Entry(a, b, i - 1, j) + 1, Entry(a, b, i, j - 1) + 1),
                Entry(a, b, i - 1, j - 1) + Cost(a[i - 1], b[j - 1]))
  {
    assert a[..i][..i - 1] == a[..i - 1] && b[..j][..j - 1] == b[..j - 1];
  }

  /** The first `width` cells of row `i` are filled in. */
  ghost predicate RowDone<T>(dp: array2<nat>, a: seq<T>, b: seq<T>, i: nat, width: nat)
    requires i <= |a| && width <= |b| + 1
    requires dp.Length0 == |a| + 1 && dp.Length1 == |b| + 1
    reads dp
  {
    forall l :: 0 <= l < width ==> dp[i, l] == Entry(a, b, i, l)
  }

  /** The table as the source fills it: two border loops, then row by row. */
  method Compute<T(==)>(a: seq<T>, b: seq<T>) returns (d: nat)
    ensures d == Distance(a, b)
  {
    var m, n := |a|, |b|;
    var dp := new nat[m + 1, n + 1]((i, j) => 0);
    for i := 0 to m + 1
      invariant forall k :: 0 <= k < i ==> dp[k, 0] == k
    {
      dp[i, 0] := i;
    }
    for j := 0 to n + 1
      invariant forall k :: 0 <= k <= m ==> dp[k, 0] == k
      invariant forall l :: 0 <= l < j ==> dp[0, l] == l
    {
      dp[0, j] := j;
    }
    for i := 1 to m + 1
      invariant forall k :: 0 <= k <= m ==> dp[k, 0] == k
      invariant RowDone(dp, a, b, i - 1, n + 1)
    {
      for j := 1 to n + 1
        invariant forall k :: 0 <= k <= m ==> dp[k, 0] == k
        invariant RowDone(dp, a, b, i - 1, n + 1)
        invariant RowDone(dp, a, b, i, j)
      {
        var cost := if a[i - 1] == b[j - 1] then 0 else 1;
        dp[i, j] := Min(Min(dp[i - 1, j] + 1, dp[i, j - 1] + 1), dp[i - 1, j - 1] + cost);
        EntryRecurrence(a, b, i, j);
      }
    }
    assert a[..m] == a && b[..n] == b;
    return dp[m, n];
  }

  // ---- What the number means: sequences of single edits -------------------

  /** One insertion, deletion or substitution: a block of at most one element is
      replaced by another block of at most one element, and the blocks differ. */
  ghost predicate EditAt<T(!new)>(s: seq<T>, t: seq<T>, p: seq<T>, u: seq<T>, v: seq<T>, q: seq<T>) {
    s == p + u + q && t == p + v + q && |u| <= 1 && |v| <= 1 && u != v
  }

  ghost predicate SingleEdit<T(!new)>(s: seq<T>, t: seq<T>) {
    exists p: seq<T>, u: seq<T>, v: seq<T>, q: seq<T> :: EditAt(s, t, p, u, v, q)
  }

  /** `path` turns its first sequence into its last, one edit at a time. */
  ghost predicate EditPath<T(!new)>(path: seq<seq<T>>, a: seq<T>, b: seq<T>) {
    |path| >= 1 && path[0] == a && path[|path| - 1] == b &&
    forall k :: 0 <= k < |path| - 1 ==> SingleEdit(path[k], path[k + 1])
  }

  // ---- Metric laws ---------------------------------------------------------

  lemma {:induction false} Bounds<T(!new)>(a: seq<T>, b: seq<T>)
    ensures Abs(|a| - |b|) <= Distance(a, b) <= if |a| >= |b| then |a| else |b|
    decreases |a| + |b|
  {
    if |a| == 0 || |b| == 0 {
    } else {
      var a', b' := a[..|a| - 1], b[..|b| - 1];
      Bounds(a', b);
      Bounds(a, b');
      Bounds(a', b');
    }
  }

  lemma {:induction false} Symmetric<T(!new)>(a: seq<T>, b: seq<T>)
    ensures Distance(a, b) == Distance(b, a)
    decreases |a| + |b|
  {
    if |a| == 0 || |b| == 0 {
    } else {
      var a', b' := a[..|a| - 1], b[..|b| - 1];
      Symmetric(a', b);
      Symmetric(a, b');
      Symmetric(a', b');
    }
  }

  lemma {:induction false} ZeroIffEqual<T(!new)>(a: seq<T>, b: seq<T>)
    ensures Distance(a, b) == 0 <==> a == b
    decreases |a| + |b|
  {
    if |a| == 0 || |b| == 0 {
    } else {
      var a', b' := a[..|a| - 1], b[..|b| - 1];
      assert a == a' + [a[|a| - 1]] && b == b' + [b[|b| - 1]];
      ZeroIffEqual(a', b');
    }
  }

  lemma {:induction false} Triangle<T(!new)>(a: seq<T>, b: seq<T>, c: seq<T>)
    ensures Distance(a, c) <= Distance(a, b) + Distance(b, c)
    decreases |a| + |b| + |c|
  {
    if |a| == 0 {
      Bounds(b, c);
    } else if |c| == 0 {
      Bounds(a, b);
    } else if |b| == 0 {
      Bounds(a, c);
    } else {
      var a', b', c' := a[..|a| - 1], b[..|b| - 1], c[..|c| - 1];
      Triangle(a', b, c);
      Triangle(a, b, c');
      Triangle(a, b', c);
      Triangle(a, b', c');
      Triangle(a', b', c);
      Triangle(a', b', c');
    }
  }

  // ---- Lower bound: no edit path is shorter --------------------------------

  lemma {:induction false} CommonSuffix<T(!new)>(x: seq<T>, y: seq<T>, q: seq<T>)
    ensures Distance(x + q, y + q) <= Distance(x, y)
    decreases |q|
  {
    if |q| == 0 {
      assert x + q == x && y + q == y;
    } else {
      var q' := q[..|q| - 1];
      CommonSuffix(x, y, q');
      assert (x + q)[..|x + q| - 1] == x + q' && (y + q)[..|y + q| - 1] == y + q';
    }
  }

  lemma SingleEditCostsOne<T(!new)>(s: seq<T>, t: seq<T>)
    requires SingleEdit(s, t)
    ensures Distance(s, t) == 1
  {
    var p, u, v, q :| EditAt(s, t, p, u, v, q);
    CommonSuffix(p + u, p + v, q);
    ZeroIffEqual(p, p);
    assert Distance(p + u, p + v) <= 1 by {
      if |u| == 1 { assert (p + u)[..|p + u| - 1] == p; }
      if |v| == 1 { assert (p + v)[..|p + v| - 1] == p; }
      if |u| == 0 { assert p + u == p; }
      if |v| == 0 { assert p + v == p; }
    }
    assert s != t by {
      assert s[|p|..|s| - |q|] == u && t[|p|..|t| - |q|] == v;
    }
    ZeroIffEqual(s, t);
  }

  /** No path of single edits is shorter than the computed distance. */
  lemma {:induction false} NoShorterPath<T(!new)>(path: seq<seq<T>>, a: seq<T>, b: seq<T>)
    requires EditPath(path, a, b)
    ensures Distance(a, b) <= |path| - 1
    decreases |path|
  {
    if |path| == 1 {
      ZeroIffEqual(a, b);
    } else {
      var front := path[..|path| - 1];
      var mid := path[|path| - 2];
      NoShorterPath(front, a, mid);
      assert SingleEdit(path[|path| - 2], path[|path| - 1]);
      SingleEditCostsOne(mid, b);
      Triangle(a, mid, b);
    }
  }

  // ---- Upper bound: a path of exactly that length exists -------------------

  lemma SingleEditLifts<T(!new)>(s: seq<T>, t: seq<T>, q: seq<T>)
    requires SingleEdit(s, t)
    ensures SingleEdit(s + q, t + q)
  {
    var p, u, v, r :| EditAt(s, t, p, u, v, r);
    assert s + q == p + u + (r + q) && t + q == p + v + (r + q);
    assert EditAt(s + q, t + q, p, u, v, r + q);
  }

  /** Appending the same tail to every sequence of a path leaves a path. */
  lemma PathLifts<T(!new)>(path: seq<seq<T>>, a: seq<T>, b: seq<T>, q: seq<T>) returns (lifted: seq<seq<T>>)
    requires EditPath(path, a, b)
    ensures EditPath(lifted, a + q, b + q) && |lifted| == |path|
  {
    lifted := seq(|path|, i requires 0 <= i < |path| => path[i] + q);
    forall k | 0 <= k < |path| - 1
      ensures SingleEdit(lifted[k], lifted[k + 1])
    {
      assert SingleEdit(path[k], path[k + 1]);
      SingleEditLifts(path[k], path[k + 1], q);
    }
  }

  lemma PathExtends<T(!new)>(path: seq<seq<T>>, a: seq<T>, b: seq<T>, c: seq<T>) returns (longer: seq<seq<T>>)
    requires EditPath(path, a, b) && SingleEdit(b, c)
    ensures EditPath(longer, a, c) && |longer| == |path| + 1
  {
    longer := path + [c];
  }

  lemma PathPrepends<T(!new)>(path: seq<seq<T>>, a: seq<T>, b: seq<T>, z: seq<T>) returns (longer: seq<seq<T>>)
    requires EditPath(path, a, b) && SingleEdit(z, a)
    ensures EditPath(longer, z, b) && |longer| == |path| + 1
  {
    longer := [z] + path;
  }

  lemma LastElementEdits<T(!new)>(s: seq<T>, x: T, y: T)
    ensures SingleEdit(s, s + [x]) && SingleEdit(s + [x], s)
    ensures x != y ==> SingleEdit(s + [x], s + [y])
  {
    assert EditAt(s, s + [x], s, [], [x], []);
    assert EditAt(s + [x], s, s, [x], [], []);
    assert x != y ==> EditAt(s + [x], s + [y], s, [x], [y], []);
  }

  /** A path of exactly `Distance(a, b)` edits, built along the table's choices. */
  lemma {:induction false} ShortestPath<T(!new)>(a: seq<T>, b: seq<T>) returns (path: seq<seq<T>>)
    ensures EditPath(path, a, b) && |path| == Distance(a, b) + 1
    decreases |a| + |b|
  {
    if |a| == 0 && |b| == 0 {
      path := [a];
    } else if |a| == 0 || (|b| > 0 && Distance(a, b) == Distance(a, b[..|b| - 1]) + 1) {
      var b', y := b[..|b| - 1], b[|b| - 1];
      assert b == b' + [y];
      path := ShortestPath(a, b');
      LastElementEdits(b', y, y);
      path := PathExtends(path, a, b', b);
    } else if |b| == 0 || Distance(a, b) == Distance(a[..|a| - 1], b) + 1 {
      var a', x := a[..|a| - 1], a[|a| - 1];
      assert a == a' + [x];
      path := ShortestPath(a', b);
      LastElementEdits(a', x, x);
      path := PathPrepends(path, a', b, a);
    } else {
      var a', x := a[..|a| - 1], a[|a| - 1];
      var b', y := b[..|b| - 1], b[|b| - 1];
      assert a == a' + [x] && b == b' + [y];
      path := ShortestPath(a', b');
      path := PathLifts(path, a', b', [x]);
      if x != y {
        LastElementEdits(b', x, y);
        path := PathExtends(path, a, b' + [x], b);
      }
    }
  }

  /** The whole meaning of the table's last cell: some path has that many edits, none has fewer. */
  lemma DistanceIsMinimum<T(!new)>(a: seq<T>, b: seq<T>, d: nat)
    ensures d == Distance(a, b) <==>
            (exists path: seq<seq<T>> :: EditPath(path, a, b) && |path| == d + 1) &&
            (forall path: seq<seq<T>> :: EditPath(path, a, b) ==> d + 1 <= |path|)
  {
    var shortest := ShortestPath(a, b);
    forall path: seq<seq<T>> | EditPath(path, a, b)
      ensures Distance(a, b) + 1 <= |path|
    {
      NoShorterPath(path, a, b);
    }
  }
}
