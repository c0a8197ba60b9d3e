/** `check_federation_compatibility_matrix`: every pair of agent cards is scored on seven symmetric
    dimensions, and the aggregate does not depend on the order of the cards. */
module CompatibilityMatrix {
  import opened Options
  import Graphs

  /** A protocol block; a card without one behaves like version "" and not enabled. */
  datatype Protocol = Protocol(version: string, enabled: bool)

  /** The trust score field: missing, a number, a mapping whose value may be missing, or unreadable. */
  datatype Trust = NoTrust | Number(x: real) | Mapping(value: Option<real>) | Unreadable

  /** What the seven dimensions read of a card. The two protocol blocks are those at the top level
      of the card: the pair functions are handed cards, not federation blocks. */
  datatype Card = Card(
    mcp: Protocol,
    a2a: Protocol,
    schemaVersion: Option<string>,
    cardVersion: Option<string>,
    authType: Option<string>,
    transferZones: set<string>,
    trust: Trust,
    role: string)

  const MCP_VERSIONS: set<string> := {"2025-03-26", "2024-11-05", "2024-10-01"}
  const A2A_VERSIONS: set<string> := {"1.0", "0.3"}
  const SECURE: set<string> := {"mTLS", "OAuth2"}

  function ProtocolCompat(known: set<string>, a: Protocol, b: Protocol): nat {
    if !a.enabled || !b.enabled then 0
    else if a.version in known && b.version in known then 20
    else if a.version == b.version then 20
    else 10
  }

  function SchemaOf(c: Card): string {
    c.schemaVersion.GetOr(c.cardVersion.GetOr("1.2"))
  }

  function SchemaCompat(a: Card, b: Card): nat {
    if SchemaOf(a) == SchemaOf(b) then 15 else 5
  }

  function AuthCompat(a: Card, b: Card): nat {
    var x, y := a.authType.GetOr("None"), b.authType.GetOr("None");
    if x in SECURE && y in SECURE then 15 else if x == y then 10 else 5
  }

  function CrossBorderCompat(a: Card, b: Card): nat {
    if a.transferZones == {} || b.transferZones == {} then 5
    else if a.transferZones * b.transferZones != {} then 10
    else 0
  }

  function TrustValue(t: Trust): real {
    match t
    case NoTrust => 0.5
    case Number(x) => x
    case Mapping(value) => value.GetOr(0.5)
    case Unreadable => 0.5
  }

  function TrustCompat(a: Card, b: Card): nat {
    var x, y := TrustValue(a.trust), TrustValue(b.trust);
    var delta := if x >= y then x - y else y - x;
    if delta <= 0.1 then 10 else if delta <= 0.3 then 5 else 0
  }

  const CONFLICT_PAIRS: set<(string, string)> := {("primary", "primary"), ("secondary", "")}

  function RoleCompat(a: Card, b: Card): nat {
    if a.role == "" || b.role == "" then 5
    else if (a.role, b.role) in CONFLICT_PAIRS || (b.role, a.role) in CONFLICT_PAIRS then 0
    else 10
  }

  /** The sum over all seven dimensions. */
  function PairScore(a: Card, b: Card): nat {
    ProtocolCompat(MCP_VERSIONS, a.mcp, b.mcp) + ProtocolCompat(A2A_VERSIONS, a.a2a, b.a2a) +
    SchemaCompat(a, b) + AuthCompat(a, b) + CrossBorderCompat(a, b) + TrustCompat(a, b) + RoleCompat(a, b)
  }

  lemma ProtocolSymmetric(known: set<string>, a: Protocol, b: Protocol)
    ensures ProtocolCompat(known, a, b) == ProtocolCompat(known, b, a)
  {
  }

  lemma AuthSymmetric(a: Card, b: Card)
    ensures AuthCompat(a, b) == AuthCompat(b, a)
  {
  }

  lemma RoleSymmetric(a: Card, b: Card)
    ensures RoleCompat(a, b) == RoleCompat(b, a)
  {
  }

  lemma CrossBorderSymmetric(a: Card, b: Card)
    ensures CrossBorderCompat(a, b) == CrossBorderCompat(b, a)
  {
    assert a.transferZones * b.transferZones == b.transferZones * a.transferZones;
  }

  /** Every dimension is symmetric, so the pair score is. */
  lemma PairScoreSymmetric(a: Card, b: Card)
    ensures PairScore(a, b) == PairScore(b, a)
  {
    ProtocolSymmetric(MCP_VERSIONS, a.mcp, b.mcp);
    ProtocolSymmetric(A2A_VERSIONS, a.a2a, b.a2a);
    AuthSymmetric(a, b);
    CrossBorderSymmetric(a, b);
    RoleSymmetric(a, b);
  }

  lemma PairScoreBounds(a: Card, b: Card)
    ensures 10 <= PairScore(a, b) <= 100
  {
  }

  /** Only the pair of primaries conflicts: an empty role never gets as far as the second entry. */
  lemma RoleConflictIsPrimaries(a: Card, b: Card)
    ensures RoleCompat(a, b) == 0 <==> a.role == "primary" && b.role == "primary"
  {
  }

  // ---- What a pair score says about the cards -------------------------------------------

  ghost predicate Agreed(p: Protocol, q: Protocol, known: set<string>) {
    p.enabled && q.enabled && (p.version == q.version || (p.version in known && q.version in known))
  }

  /** The trust score `x` is what the field amounts to: itself, or one half where there is none to read. */
  ghost predicate Trusts(t: Trust, x: real) {
    t == Number(x) || t == Mapping(Some(x)) || (x == 0.5 && t in {NoTrust, Unreadable, Mapping(None)})
  }

  ghost predicate Versioned(c: Card, v: string) {
    || c.schemaVersion == Some(v)
    || (c.schemaVersion == None && c.cardVersion == Some(v))
    || (c.schemaVersion == None && c.cardVersion == None && v == "1.2")
  }

  /** Full marks, read off the fields of the two cards. */
  ghost predicate Matched(a: Card, b: Card) {
    && Agreed(a.mcp, b.mcp, {"2025-03-26", "2024-11-05", "2024-10-01"})
    && Agreed(a.a2a, b.a2a, {"1.0", "0.3"})
    && (exists v :: Versioned(a, v) && Versioned(b, v))
    && a.authType in {Some("mTLS"), Some("OAuth2")} && b.authType in {Some("mTLS"), Some("OAuth2")}
    && !(a.transferZones !! b.transferZones)
    && (exists x, y :: Trusts(a.trust, x) && Trusts(b.trust, y) && -0.1 <= x - y <= 0.1)
    && a.role != "" && b.role != "" && !(a.role == "primary" && b.role == "primary")
  }

  lemma SchemaMeans(a: Card, b: Card)
    ensures SchemaCompat(a, b) == 15 <==> exists v :: Versioned(a, v) && Versioned(b, v)
  {
    assert Versioned(a, SchemaOf(a)) && Versioned(b, SchemaOf(b));
  }

  lemma AuthMeans(a: Card, b: Card)
    ensures AuthCompat(a, b) == 15 <==>
            a.authType in {Some("mTLS"), Some("OAuth2")} && b.authType in {Some("mTLS"), Some("OAuth2")}
  {
  }

  lemma TrustMeans(a: Card, b: Card)
    ensures TrustCompat(a, b) == 10 <==> exists x, y :: Trusts(a.trust, x) && Trusts(b.trust, y) && -0.1 <= x - y <= 0.1
  {
    assert Trusts(a.trust, TrustValue(a.trust)) && Trusts(b.trust, TrustValue(b.trust));
  }

  lemma ProtocolMeans(known: set<string>, p: Protocol, q: Protocol)
    ensures ProtocolCompat(known, p, q) == 20 <==> Agreed(p, q, known)
    ensures ProtocolCompat(known, p, q) == 0 <==> !(p.enabled && q.enabled)
    ensures ProtocolCompat(known, p, q) in {0, 10, 20}
  {
  }

  lemma ZonesMean(a: Card, b: Card)
    ensures CrossBorderCompat(a, b) == 10 <==> !(a.transferZones !! b.transferZones)
    ensures CrossBorderCompat(a, b) == 5 <==> a.transferZones == {} || b.transferZones == {}
    ensures CrossBorderCompat(a, b) in {0, 5, 10}
  {
    var shared := a.transferZones * b.transferZones;
    assert forall z :: z in a.transferZones && z in b.transferZones <==> z in shared;
  }

  lemma RoleMeans(a: Card, b: Card)
    ensures RoleCompat(a, b) == 10 <==> a.role != "" && b.role != "" && !(a.role == "primary" && b.role == "primary")
  {
  }

  lemma SumIsFull(a: Card, b: Card)
    ensures PairScore(a, b) == 100 <==>
            && ProtocolCompat(MCP_VERSIONS, a.mcp, b.mcp) == ProtocolCompat(A2A_VERSIONS, a.a2a, b.a2a) == 20
            && SchemaCompat(a, b) == AuthCompat(a, b) == 15
            && CrossBorderCompat(a, b) == TrustCompat(a, b) == RoleCompat(a, b) == 10
  {
  }

  /** A pair gets full marks exactly if both speak both protocols in a common or known version, have the
      same schema, authenticate securely, share a zone, are trusted within a tenth of each other, and have
      roles of which not both are primary. */
  lemma FullMarks(a: Card, b: Card)
    ensures PairScore(a, b) == 100 <==> Matched(a, b)
  {
    SumIsFull(a, b);
    ProtocolMeans(MCP_VERSIONS, a.mcp, b.mcp);
    ProtocolMeans(A2A_VERSIONS, a.a2a, b.a2a);
    SchemaMeans(a, b);
    AuthMeans(a, b);
    ZonesMean(a, b);
    TrustMeans(a, b);
    RoleMeans(a, b);
  }

  /** Whatever else the cards say: a protocol that is not enabled on both costs 20 points, and versions
      that neither agree nor are both known cost 10. */
  lemma McpCost(a: Card, b: Card, p: Protocol, q: Protocol)
    ensures PairScore(a.(mcp := p), b.(mcp := q)) == PairScore(a.(mcp := Protocol("", true)), b.(mcp := Protocol("", true))) -
            (if !p.enabled || !q.enabled then 20 else if Agreed(p, q, {"2025-03-26", "2024-11-05", "2024-10-01"}) then 0 else 10)
  {
    ProtocolMeans(MCP_VERSIONS, p, q);
    ProtocolMeans(MCP_VERSIONS, Protocol("", true), Protocol("", true));
  }

  lemma A2aCost(a: Card, b: Card, p: Protocol, q: Protocol)
    ensures PairScore(a.(a2a := p), b.(a2a := q)) == PairScore(a.(a2a := Protocol("", true)), b.(a2a := Protocol("", true))) -
            (if !p.enabled || !q.enabled then 20 else if Agreed(p, q, {"1.0", "0.3"}) then 0 else 10)
  {
    ProtocolMeans(A2A_VERSIONS, p, q);
    ProtocolMeans(A2A_VERSIONS, Protocol("", true), Protocol("", true));
  }

  /** Different schemas cost 10 points. */
  lemma SchemaCost(a: Card, b: Card, v: string, w: string)
    ensures PairScore(a.(schemaVersion := Some(v)), b.(schemaVersion := Some(w))) ==
            PairScore(a.(schemaVersion := Some("")), b.(schemaVersion := Some(""))) - (if v == w then 0 else 10)
  {
  }

  /** The same insecure authentication costs 5 points, different ones of which one is insecure cost 10. */
  lemma AuthCost(a: Card, b: Card, t: string, u: string)
    ensures PairScore(a.(authType := Some(t)), b.(authType := Some(u))) ==
            PairScore(a.(authType := Some("mTLS")), b.(authType := Some("mTLS"))) -
            (if t in {"mTLS", "OAuth2"} && u in {"mTLS", "OAuth2"} then 0 else if t == u then 5 else 10)
  {
  }

  /** No zones on either card cost 5 points, disjoint ones 10. */
  lemma ZonesCost(a: Card, b: Card, y: set<string>, z: set<string>)
    ensures PairScore(a.(transferZones := y), b.(transferZones := z)) ==
            PairScore(a.(transferZones := {"EU"}), b.(transferZones := {"EU"})) -
            (if y == {} || z == {} then 5 else if y !! z then 10 else 0)
  {
    ZonesMean(a.(transferZones := y), b.(transferZones := z));
    ZonesMean(a.(transferZones := {"EU"}), b.(transferZones := {"EU"}));
  }

  /** Trust further apart than a tenth costs 5 points, further than three tenths 10. */
  lemma TrustCost(a: Card, b: Card, x: real, y: real)
    ensures PairScore(a.(trust := Number(x)), b.(trust := Number(y))) ==
            PairScore(a.(trust := Number(0.0)), b.(trust := Number(0.0))) -
            (if -0.1 <= x - y <= 0.1 then 0 else if -0.3 <= x - y <= 0.3 then 5 else 10)
  {
  }

  /** A missing role costs 5 points, two primaries cost 10. */
  lemma RoleCost(a: Card, b: Card, r: string, s: string)
    ensures PairScore(a.(role := r), b.(role := s)) == PairScore(a.(role := "primary"), b.(role := "secondary")) -
            (if r == "" || s == "" then 5 else if r == "primary" && s == "primary" then 10 else 0)
  {
  }

  /** The schema version is what the two fields amount to: the card version where it is missing, and "1.2"
      where both are. */
  lemma SchemaReadings(a: Card, b: Card, schema: Option<string>, card: Option<string>, v: string)
    requires Versioned(b.(schemaVersion := schema, cardVersion := card), v)
    ensures PairScore(a, b.(schemaVersion := schema, cardVersion := card)) == PairScore(a, b.(schemaVersion := Some(v)))
  {
    assert SchemaOf(b.(schemaVersion := schema, cardVersion := card)) == v;
  }

  /** Missing authentication counts as "None". */
  lemma MissingAuth(a: Card, b: Card)
    ensures PairScore(a, b.(authType := None)) == PairScore(a, b.(authType := Some("None")))
  {
    assert AuthCompat(a, b.(authType := None)) == AuthCompat(a, b.(authType := Some("None")));
  }

  /** Trust is what the field amounts to, one half where that is no number. */
  lemma TrustReadings(a: Card, b: Card, t: Trust, x: real)
    requires Trusts(t, x)
    ensures PairScore(a, b.(trust := t)) == PairScore(a, b.(trust := Number(x)))
  {
    assert TrustValue(t) == x;
  }

  // ---- Sums over unordered pairs ------------------------------------------------------

  /** The sum of `f` over all pairs of one element and an element of `xs`. */
  function SumWith<T>(f: (T, T) -> nat, x: T, xs: seq<T>): nat {
    if xs == [] then 0 else f(x, xs[0]) + SumWith(f, x, xs[1..])
  }

  /** The sum of `f` over all pairs of positions. */
  function SumPairs<T>(f: (T, T) -> nat, xs: seq<T>): nat {
    if xs == [] then 0 else SumWith(f, xs[0], xs[1..]) + SumPairs(f, xs[1..])
  }

  ghost predicate Symmetric<T(!new)>(f: (T, T) -> nat) {
    forall x, y :: f(x, y) == f(y, x)
  }

  lemma {:induction false} SumWithConcat<T>(f: (T, T) -> nat, x: T, xs: seq<T>, ys: seq<T>)
    ensures SumWith(f, x, xs + ys) == SumWith(f, x, xs) + SumWith(f, x, ys)
  {
    if xs == [] {
      assert xs + ys == ys;
    } else {
      SumWithConcat(f, x, xs[1..], ys);
      assert (xs + ys)[1..] == xs[1..] + ys;
    }
  }

  /** Moving an element from inside a list to its front. */
  lemma {:induction false} SumPairsExtract<T(!new)>(f: (T, T) -> nat, xs: seq<T>, y: T, ys: seq<T>)
    requires Symmetric(f)
    ensures SumPairs(f, xs + [y] + ys) == SumWith(f, y, xs + ys) + SumPairs(f, xs + ys)
  {
    if xs == [] {
      assert xs + [y] + ys == [y] + ys && xs + ys == ys;
    } else {
      var x, rest := xs[0], xs[1..];
      SumPairsExtract(f, rest, y, ys);
      assert (xs + [y] + ys)[1..] == rest + [y] + ys && (xs + ys)[1..] == rest + ys;
      SumWithConcat(f, x, rest + [y], ys);
      SumWithConcat(f, x, rest, [y]);
      SumWithConcat(f, x, rest, ys);
      assert SumWith(f, x, [y]) == f(x, y);
      assert f(x, y) == f(y, x);
    }
  }

  lemma Split<T>(ys: seq<T>, x: T) returns (i: nat)
    requires x in ys
    ensures i < |ys| && ys[i] == x && ys == ys[..i] + [x] + ys[i + 1..]
    ensures multiset(ys[..i] + ys[i + 1..]) == multiset(ys) - multiset{x}
  {
    i :| 0 <= i < |ys| && ys[i] == x;
    assert ys == ys[..i] + [x] + ys[i + 1..];
    assert multiset(ys) == multiset(ys[..i]) + multiset{x} + multiset(ys[i + 1..]);
  }

  lemma RestMultiset<T>(xs: seq<T>)
    requires xs != []
    ensures multiset(xs[1..]) == multiset(xs) - multiset{xs[0]} && xs[0] in multiset(xs)
  {
    assert xs == [xs[0]] + xs[1..];
  }

  lemma {:induction false} SumWithOrder<T>(f: (T, T) -> nat, y: T, xs: seq<T>, ys: seq<T>)
    requires multiset(xs) == multiset(ys)
    ensures SumWith(f, y, xs) == SumWith(f, y, ys)
    decreases |xs|
  {
    if xs == [] {
      assert ys == [] by {
        if ys != [] { RestMultiset(ys); }
      }
    } else {
      RestMultiset(xs);
      var i := Split(ys, xs[0]);
      var rest := ys[..i] + ys[i + 1..];
      SumWithOrder(f, y, xs[1..], rest);
      SumWithConcat(f, y, ys[..i] + [xs[0]], ys[i + 1..]);
      SumWithConcat(f, y, ys[..i], [xs[0]]);
      SumWithConcat(f, y, ys[..i], ys[i + 1..]);
      assert SumWith(f, y, [xs[0]]) == f(y, xs[0]);
    }
  }

  /** For a symmetric function the sum over pairs depends on the elements alone, not their order. */
  lemma {:induction false} SumPairsOrder<T(!new)>(f: (T, T) -> nat, xs: seq<T>, ys: seq<T>)
    requires Symmetric(f) && multiset(xs) == multiset(ys)
    ensures SumPairs(f, xs) == SumPairs(f, ys)
    decreases |xs|
  {
    if xs == [] {
      assert ys == [] by {
        if ys != [] { RestMultiset(ys); }
      }
    } else {
      RestMultiset(xs);
      var i := Split(ys, xs[0]);
      var rest := ys[..i] + ys[i + 1..];
      SumPairsOrder(f, xs[1..], rest);
      SumWithOrder(f, xs[0], xs[1..], rest);
      SumPairsExtract(f, ys[..i], xs[0], ys[i + 1..]);
    }
  }

  // ---- The matrix and the aggregate, for any symmetric pair score --------------------------

  type Pairing<!T> = (T, T) -> nat

  /** One for every pair scored below fifty. */
  function Incompatible<T>(f: Pairing<T>): Pairing<T> {
    (x: T, y: T) => if f(x, y) < 50 then 1 else 0
  }

  function Entry<T>(f: Pairing<T>, cards: seq<T>, i: nat, j: nat): real
    requires i < |cards| && j < |cards|
  {
    if i == j then 100.0 else f(cards[i], cards[j]) as real
  }

  function Total(s: seq<nat>): nat {
    if s == [] then 0 else Total(s[..|s| - 1]) + s[|s| - 1]
  }

  function AtLeastZero(x: real): (r: real)
    ensures r >= 0.0 && r >= x && (r == x || r == 0.0)
  {
    if x < 0.0 then 0.0 else x
  }

  /** The mean pair score less ten points for every incompatible pair, but not below zero. */
  function Aggregate(sum: nat, pairs: nat, incompatible: nat): real
    requires pairs > 0
  {
    AtLeastZero(sum as real / pairs as real - (incompatible * 10) as real)
  }

  /** The number of unordered pairs of `n` cards. */
  function Pairs(n: nat): nat {
    if n == 0 then 0 else Pairs(n - 1) + n - 1
  }

  lemma SomePair(n: nat)
    requires n >= 2
    ensures Pairs(n) > 0
  {
  }

  ghost function AggregateOf<T>(f: Pairing<T>, cards: seq<T>): real
    requires |cards| >= 2
  {
    SomePair(|cards|);
    Aggregate(SumPairs(f, cards), Pairs(|cards|), SumPairs(Incompatible(f), cards))
  }

  lemma SumWithSnoc<T>(f: Pairing<T>, x: T, xs: seq<T>, j: nat)
    requires j < |xs|
    ensures SumWith(f, x, xs[..j + 1]) == SumWith(f, x, xs[..j]) + f(x, xs[j])
  {
    assert xs[..j + 1] == xs[..j] + [xs[j]];
    SumWithConcat(f, x, xs[..j], [xs[j]]);
    assert SumWith(f, x, [xs[j]]) == f(x, xs[j]);
  }

  lemma TotalSnoc(s: seq<nat>, x: nat)
    ensures Total(s + [x]) == Total(s) + x
  {
    assert (s + [x])[..|s|] == s;
  }

  ghost predicate Filled<T>(f: Pairing<T>, cards: seq<T>, matrix: array2<real>, r: nat, c: nat)
    requires matrix.Length0 == |cards| && matrix.Length1 == |cards| && r < |cards| && c < |cards|
    reads matrix
  {
    matrix[r, c] == Entry(f, cards, r, c)
  }

  /** The inner loop: fills row `i` right of the diagonal and column `i` below it. */
  method FillRow<T(!new)>(f: Pairing<T>, cards: seq<T>, matrix: array2<real>, i: nat, scores0: seq<nat>, incompatible0: nat)
    returns (scores: seq<nat>, incompatible: nat)
    requires Symmetric(f) && i < |cards| && matrix.Length0 == |cards| && matrix.Length1 == |cards|
    requires forall r, c :: 0 <= r < |cards| && 0 <= c < |cards| && (r < i || c < i) ==> Filled(f, cards, matrix, r, c)
    modifies matrix
    ensures forall r, c :: 0 <= r < |cards| && 0 <= c < |cards| && (r <= i || c <= i) ==> Filled(f, cards, matrix, r, c)
    ensures Total(scores) == Total(scores0) + SumWith(f, cards[i], cards[i + 1..])
    ensures incompatible == incompatible0 + SumWith(Incompatible(f), cards[i], cards[i + 1..])
    ensures |scores| == |scores0| + |cards| - i - 1
  {
    var n := |cards|;
    var rest := cards[i + 1..];
    scores, incompatible := scores0, incompatible0;
    matrix[i, i] := 100.0;
    forall r, c | 0 <= r < n && 0 <= c < n && (r < i || c < i)
      ensures Filled(f, cards, matrix, r, c)
    {
      assert old(Filled(f, cards, matrix, r, c));
    }
    assert Filled(f, cards, matrix, i, i);
    for k := 0 to |rest|
      invariant forall r, c :: 0 <= r < n && 0 <= c < n && (r < i || c < i || (r == i && c <= i + k) || (c == i && r <= i + k)) ==>
                  Filled(f, cards, matrix, r, c)
      invariant Total(scores) == Total(scores0) + SumWith(f, cards[i], rest[..k])
      invariant incompatible == incompatible0 + SumWith(Incompatible(f), cards[i], rest[..k])
      invariant |scores| == |scores0| + k
    {
      var j := i + 1 + k;
      var pairScore := f(cards[i], cards[j]);
      assert f(cards[j], cards[i]) == pairScore;
      label Here:
      matrix[i, j] := pairScore as real;
      matrix[j, i] := pairScore as real;
      forall r, c | 0 <= r < n && 0 <= c < n && (r < i || c < i || (r == i && c <= i + k + 1) || (c == i && r <= i + k + 1))
        ensures Filled(f, cards, matrix, r, c)
      {
        assert !(r == i && c == j) && !(r == j && c == i) ==> old@Here(Filled(f, cards, matrix, r, c));
      }
      TotalSnoc(scores, pairScore);
      SumWithSnoc(f, cards[i], rest, k);
      SumWithSnoc(Incompatible(f), cards[i], rest, k);
      scores := scores + [pairScore];
      if pairScore < 50 {
        incompatible := incompatible + 1;
      }
    }
    assert rest[..|rest|] == rest;
  }

  /** The outer loop; with fewer than two cards there is no matrix. */
  method BuildMatrix<T(!new)>(f: Pairing<T>, cards: seq<T>) returns (score: real, matrix: array2<real>)
    requires Symmetric(f)
    ensures fresh(matrix)
    ensures |cards| < 2 ==> score == 100.0 && matrix.Length0 == 0 && matrix.Length1 == 0
    ensures |cards| >= 2 ==>
              && score == AggregateOf(f, cards)
              && matrix.Length0 == |cards| && matrix.Length1 == |cards|
              && forall r, c :: 0 <= r < |cards| && 0 <= c < |cards| ==> Filled(f, cards, matrix, r, c)
  {
    var n := |cards|;
    if n < 2 {
      matrix := new real[0, 0];
      return 100.0, matrix;
    }
    matrix := new real[n, n]((i, j) => 0.0);
    var scores: seq<nat> := [];
    var incompatible: nat := 0;
    for i := 0 to n
      invariant forall r, c :: 0 <= r < n && 0 <= c < n && (r < i || c < i) ==> Filled(f, cards, matrix, r, c)
      invariant Total(scores) + SumPairs(f, cards[i..]) == SumPairs(f, cards)
      invariant incompatible + SumPairs(Incompatible(f), cards[i..]) == SumPairs(Incompatible(f), cards)
      invariant |scores| + Pairs(n - i) == Pairs(n)
    {
      assert cards[i..][0] == cards[i] && cards[i..][1..] == cards[i + 1..];
      scores, incompatible := FillRow(f, cards, matrix, i, scores, incompatible);
    }
    SomePair(n);
    assert cards[n..] == [];
    assert Total(scores) == SumPairs(f, cards) && |scores| == Pairs(n) && incompatible == SumPairs(Incompatible(f), cards);
    score := Aggregate(Total(scores), |scores|, incompatible);
  }

  lemma PairScoreIsSymmetric()
    ensures Symmetric(PairScore)
  {
    forall a: Card, b: Card
      ensures PairScore(a, b) == PairScore(b, a)
    {
      PairScoreSymmetric(a, b);
    }
  }

  // ---- What the aggregate says about the pairs ------------------------------------------------

  ghost predicate PairAt<T>(f: Pairing<T>, xs: seq<T>, i: nat, j: nat, p: nat)
    requires i < |xs| && j < |xs|
  {
    f(xs[i], xs[j]) == p
  }

  /** Every pair of two different positions scores `p`. */
  ghost predicate AllPairs<T>(f: Pairing<T>, xs: seq<T>, p: nat) {
    forall i, j :: 0 <= i < j < |xs| ==> PairAt(f, xs, i, j, p)
  }

  ghost predicate AtMost100<T(!new)>(f: Pairing<T>) {
    forall x, y :: f(x, y) <= 100
  }

  /** A sum over one row is 100 for each entry only if every entry is 100. */
  lemma {:induction false} RowAtMost<T(!new)>(f: Pairing<T>, x: T, xs: seq<T>)
    requires AtMost100(f)
    ensures SumWith(f, x, xs) <= 100 * |xs|
    ensures SumWith(f, x, xs) == 100 * |xs| <==> forall j :: 0 <= j < |xs| ==> f(x, xs[j]) == 100
  {
    if xs != [] {
      RowAtMost(f, x, xs[1..]);
      assert f(x, xs[0]) <= 100;
      RowSplits((y: T) => f(x, y) == 100, xs);
    }
  }

  lemma RowSplits<T>(good: T -> bool, xs: seq<T>)
    requires xs != []
    ensures (forall j :: 0 <= j < |xs| ==> good(xs[j])) <==>
            good(xs[0]) && forall j :: 0 <= j < |xs[1..]| ==> good(xs[1..][j])
  {
    if good(xs[0]) && (forall j :: 0 <= j < |xs[1..]| ==> good(xs[1..][j])) {
      forall j | 0 <= j < |xs|
        ensures good(xs[j])
      {
        if j > 0 {
          assert xs[j] == xs[1..][j - 1];
        }
      }
    }
  }

  lemma AllPairsSplit<T>(f: Pairing<T>, xs: seq<T>, p: nat)
    requires xs != []
    ensures AllPairs(f, xs, p) <==> (forall j :: 0 <= j < |xs[1..]| ==> f(xs[0], xs[1..][j]) == p) && AllPairs(f, xs[1..], p)
  {
    var rest := xs[1..];
    if AllPairs(f, xs, p) {
      forall j | 0 <= j < |rest|
        ensures f(xs[0], rest[j]) == p
      {
        assert PairAt(f, xs, 0, j + 1, p);
      }
      forall i, j | 0 <= i < j < |rest|
        ensures PairAt(f, rest, i, j, p)
      {
        assert PairAt(f, xs, i + 1, j + 1, p);
      }
    }
    if (forall j :: 0 <= j < |rest| ==> f(xs[0], rest[j]) == p) && AllPairs(f, rest, p) {
      forall i, j | 0 <= i < j < |xs|
        ensures PairAt(f, xs, i, j, p)
      {
        if i > 0 {
          assert PairAt(f, rest, i - 1, j - 1, p);
        } else {
          assert rest[j - 1] == xs[j];
        }
      }
    }
  }

  /** The sum over all pairs is 100 for each only if every pair is 100. */
  lemma {:induction false} PairsAtMost<T(!new)>(f: Pairing<T>, xs: seq<T>)
    requires AtMost100(f)
    ensures SumPairs(f, xs) <= 100 * Pairs(|xs|)
    ensures SumPairs(f, xs) == 100 * Pairs(|xs|) <==> AllPairs(f, xs, 100)
  {
    if xs != [] {
      PairsAtMost(f, xs[1..]);
      RowAtMost(f, xs[0], xs[1..]);
      AllPairsSplit(f, xs, 100);
    }
  }

  lemma {:induction false} UniformRow<T>(f: Pairing<T>, x: T, xs: seq<T>, p: nat)
    requires forall j :: 0 <= j < |xs| ==> f(x, xs[j]) == p
    ensures SumWith(f, x, xs) == p * |xs|
    ensures SumWith(Incompatible(f), x, xs) == if p < 50 then |xs| else 0
  {
    if xs != [] {
      UniformRow(f, x, xs[1..], p);
      assert p * |xs| == p * |xs[1..]| + p;
    }
  }

  lemma Distribute(p: nat, m: nat, n: nat)
    ensures p * (m + n) == p * m + p * n
  {
  }

  lemma {:induction false} UniformPairs<T>(f: Pairing<T>, xs: seq<T>, p: nat)
    requires AllPairs(f, xs, p)
    ensures SumPairs(f, xs) == p * Pairs(|xs|)
    ensures SumPairs(Incompatible(f), xs) == if p < 50 then Pairs(|xs|) else 0
  {
    if xs != [] {
      AllPairsSplit(f, xs, p);
      UniformRow(f, xs[0], xs[1..], p);
      UniformPairs(f, xs[1..], p);
      Distribute(p, Pairs(|xs[1..]|), |xs[1..]|);
    }
  }

  lemma {:induction false} PairsInClosedForm(n: nat)
    ensures 2 * Pairs(n) == n * n - n
  {
    if n > 0 {
      PairsInClosedForm(n - 1);
      assert (n - 1) * (n - 1) == n * n - 2 * n + 1;
    }
  }

  lemma MeanOfEqual(p: nat, n: nat)
    requires n > 0
    ensures (p * n) as real / n as real == p as real
  {
    assert (p * n) as real == p as real * n as real;
  }

  /** If all pairs of cards score the same, the aggregate is that score, less ten points for each of the
      n (n - 1) / 2 pairs if it is below fifty, and never below zero. */
  lemma UniformAggregate<T>(f: Pairing<T>, cards: seq<T>, p: nat)
    requires |cards| >= 2 && AllPairs(f, cards, p)
    ensures AggregateOf(f, cards) == AtLeastZero(p as real - if p < 50 then 5.0 * (|cards| * |cards| - |cards|) as real else 0.0)
  {
    UniformPairs(f, cards, p);
    SomePair(|cards|);
    MeanOfEqual(p, Pairs(|cards|));
    PairsInClosedForm(|cards|);
  }

  lemma ScaleUp(q: real, n: real)
    requires q >= 100.0 && n > 0.0
    ensures q * n >= 100.0 * n
  {
    assert (q - 100.0) * n >= 0.0;
  }

  lemma MeanBelow(sum: real, n: real)
    requires n > 0.0 && sum < 100.0 * n
    ensures sum / n < 100.0
  {
    var q := sum / n;
    assert q * n == sum;
    if q >= 100.0 {
      ScaleUp(q, n);
      assert false;
    }
  }

  lemma FullAggregate<T(!new)>(f: Pairing<T>, cards: seq<T>)
    requires |cards| >= 2 && AtMost100(f)
    ensures AggregateOf(f, cards) == 100.0 <==> AllPairs(f, cards, 100)
  {
    PairsAtMost(f, cards);
    SomePair(|cards|);
    if AllPairs(f, cards, 100) {
      UniformAggregate(f, cards, 100);
    } else {
      MeanBelow(SumPairs(f, cards) as real, Pairs(|cards|) as real);
    }
  }

  lemma PairScoreAtMost100()
    ensures AtMost100(PairScore)
  {
    forall a: Card, b: Card
      ensures PairScore(a, b) <= 100
    {
      PairScoreBounds(a, b);
    }
  }

  /** The aggregate is 100 exactly if every pair of cards gets full marks. */
  lemma PerfectFederation(cards: seq<Card>)
    requires |cards| >= 2
    ensures AggregateOf(PairScore, cards) == 100.0 <==> forall i, j :: 0 <= i < j < |cards| ==> Matched(cards[i], cards[j])
  {
    PairScoreAtMost100();
    FullAggregate(PairScore, cards);
    forall i, j | 0 <= i < j < |cards|
      ensures PairAt(PairScore, cards, i, j, 100) <==> Matched(cards[i], cards[j])
    {
      FullMarks(cards[i], cards[j]);
    }
  }

  /** Two cards: their pair score, or ten points less if that is below fifty. */
  lemma TwoCards(a: Card, b: Card)
    ensures AggregateOf(PairScore, [a, b]) == PairScore(a, b) as real - if PairScore(a, b) < 50 then 10.0 else 0.0
  {
    UniformAggregate(PairScore, [a, b], PairScore(a, b));
    PairScoreBounds(a, b);
  }

  /** The matrix and aggregate of the source. The aggregate is 100 exactly if every pair of cards gets full
      marks, and of two cards it is their pair score, less ten points if that is below fifty. */
  method CheckCompatibilityMatrix(cards: seq<Card>) returns (score: real, matrix: array2<real>)
    ensures fresh(matrix)
    ensures |cards| < 2 ==> score == 100.0 && matrix.Length0 == 0 && matrix.Length1 == 0
    ensures |cards| >= 2 ==> score == AggregateOf(PairScore, cards) && matrix.Length0 == |cards| && matrix.Length1 == |cards|
    ensures |cards| >= 2 ==> forall r, c :: 0 <= r < |cards| && 0 <= c < |cards| ==> Filled(PairScore, cards, matrix, r, c)
    ensures |cards| >= 2 ==> (score == 100.0 <==> forall i, j :: 0 <= i < j < |cards| ==> Matched(cards[i], cards[j]))
    ensures |cards| == 2 ==> score == matrix[0, 1] - if matrix[0, 1] < 50.0 then 10.0 else 0.0
  {
    PairScoreIsSymmetric();
    score, matrix := BuildMatrix(PairScore, cards);
    if |cards| >= 2 {
      PerfectFederation(cards);
    }
    if |cards| == 2 {
      assert cards == [cards[0], cards[1]];
      TwoCards(cards[0], cards[1]);
      assert Filled(PairScore, cards, matrix, 0, 1);
    }
  }

  /** The matrix is symmetric, 100 on the diagonal, and between 10 and 100 off it. */
  lemma MatrixShape(cards: seq<Card>, i: nat, j: nat)
    requires i < |cards| && j < |cards|
    ensures Entry(PairScore, cards, i, j) == Entry(PairScore, cards, j, i)
    ensures i == j ==> Entry(PairScore, cards, i, j) == 100.0
    ensures i != j ==> 10.0 <= Entry(PairScore, cards, i, j) <= 100.0
  {
    PairScoreSymmetric(cards[i], cards[j]);
    PairScoreBounds(cards[i], cards[j]);
  }

  // ---- Permuting the cards ------------------------------------------------------------------

  ghost predicate IsPermutation(p: seq<nat>, n: nat) {
    |p| == n && (forall i :: 0 <= i < n ==> p[i] < n) && Graphs.Distinct(p)
  }

  function Picked<T>(xs: seq<T>, p: seq<nat>): seq<T>
    requires forall i :: 0 <= i < |p| ==> p[i] < |xs|
  {
    seq(|p|, i requires 0 <= i < |p| => xs[p[i]])
  }

  function Iota(n: nat): (s: seq<nat>)
    ensures |s| == n && forall i :: 0 <= i < n ==> s[i] == i
  {
    if n == 0 then [] else Iota(n - 1) + [n - 1]
  }

  lemma {:induction false} DistinctOnce(p: seq<nat>, x: nat)
    requires Graphs.Distinct(p)
    ensures multiset(p)[x] == if x in p then 1 else 0
  {
    if p != [] {
      var front := p[..|p| - 1];
      assert p == front + [p[|p| - 1]];
      DistinctOnce(front, x);
    }
  }

  lemma PermutationHitsAll(p: seq<nat>, n: nat, x: nat)
    requires IsPermutation(p, n)
    ensures x in p <==> x < n
  {
    var positions: seq<int> := p;
    Graphs.DistinctCount(positions);
    var hit := set v | v in positions;
    forall v | v in hit
      ensures v in Graphs.Range(n)
    {
      var i :| 0 <= i < |p| && p[i] == v;
    }
    Graphs.SubsetCount(hit, Graphs.Range(n));
    assert hit == Graphs.Range(n);
    assert x in p <==> x in hit;
  }

  /** A permutation holds the same numbers as the identity. */
  lemma PermutationIsIota(p: seq<nat>, n: nat)
    requires IsPermutation(p, n)
    ensures multiset(p) == multiset(Iota(n))
  {
    assert IsPermutation(Iota(n), n);
    forall x: nat
      ensures multiset(p)[x] == multiset(Iota(n))[x]
    {
      DistinctOnce(p, x);
      DistinctOnce(Iota(n), x);
      PermutationHitsAll(p, n, x);
      PermutationHitsAll(Iota(n), n, x);
    }
  }

  lemma PickedConcat<T>(xs: seq<T>, p: seq<nat>, q: seq<nat>)
    requires forall i :: 0 <= i < |p + q| ==> (p + q)[i] < |xs|
    ensures forall i :: 0 <= i < |p| ==> p[i] < |xs|
    ensures forall i :: 0 <= i < |q| ==> q[i] < |xs|
    ensures Picked(xs, p + q) == Picked(xs, p) + Picked(xs, q)
  {
    assert forall i :: 0 <= i < |p| ==> (p + q)[i] == p[i];
    assert forall i :: 0 <= i < |q| ==> (p + q)[|p| + i] == q[i];
  }

  lemma PickedMiddle<T>(xs: seq<T>, p: seq<nat>, x: nat, q: seq<nat>)
    requires x < |xs| && (forall i :: 0 <= i < |p| ==> p[i] < |xs|) && (forall i :: 0 <= i < |q| ==> q[i] < |xs|)
    ensures forall i :: 0 <= i < |p + q| ==> (p + q)[i] < |xs|
    ensures forall i :: 0 <= i < |p + [x] + q| ==> (p + [x] + q)[i] < |xs|
    ensures multiset(Picked(xs, p + [x] + q)) == multiset{xs[x]} + multiset(Picked(xs, p + q))
  {
    PickedConcat(xs, p + [x], q);
    PickedConcat(xs, p, [x]);
    PickedConcat(xs, p, q);
    assert Picked(xs, [x]) == [xs[x]];
  }

  lemma PickedFirst<T>(xs: seq<T>, p: seq<nat>)
    requires p != [] && forall i :: 0 <= i < |p| ==> p[i] < |xs|
    ensures forall i :: 0 <= i < |p[1..]| ==> p[1..][i] < |xs|
    ensures multiset(Picked(xs, p)) == multiset{xs[p[0]]} + multiset(Picked(xs, p[1..]))
  {
    assert Picked(xs, p) == [xs[p[0]]] + Picked(xs, p[1..]);
  }

  /** What is picked depends on which positions are picked, not on their order. */
  lemma {:induction false} PickedOrder<T>(xs: seq<T>, p: seq<nat>, q: seq<nat>)
    requires forall i :: 0 <= i < |p| ==> p[i] < |xs|
    requires forall i :: 0 <= i < |q| ==> q[i] < |xs|
    requires multiset(p) == multiset(q)
    ensures multiset(Picked(xs, p)) == multiset(Picked(xs, q))
    decreases |p|
  {
    if p == [] {
      assert q == [] by {
        if q != [] { RestMultiset(q); }
      }
    } else {
      RestMultiset(p);
      var i := Split(q, p[0]);
      var before, after := q[..i], q[i + 1..];
      PickedMiddle(xs, before, p[0], after);
      PickedFirst(xs, p);
      PickedOrder(xs, p[1..], before + after);
    }
  }

  lemma PermutedElements<T>(xs: seq<T>, p: seq<nat>)
    requires IsPermutation(p, |xs|)
    ensures multiset(Picked(xs, p)) == multiset(xs)
  {
    PermutationIsIota(p, |xs|);
    PickedOrder(xs, p, Iota(|xs|));
    assert Picked(xs, Iota(|xs|)) == xs;
  }

  lemma IncompatibleSymmetric<T(!new)>(f: Pairing<T>)
    requires Symmetric(f)
    ensures Symmetric(Incompatible(f))
  {
    forall x: T, y: T
      ensures Incompatible(f)(x, y) == Incompatible(f)(y, x)
    {
      assert f(x, y) == f(y, x);
    }
  }

  /** Permuting the cards permutes rows and columns and leaves the aggregate unchanged. */
  lemma PermutationInvariance(cards: seq<Card>, p: seq<nat>)
    requires |cards| >= 2 && IsPermutation(p, |cards|)
    ensures AggregateOf(PairScore, Picked(cards, p)) == AggregateOf(PairScore, cards)
    ensures forall i, j :: 0 <= i < |p| && 0 <= j < |p| ==>
              Entry(PairScore, Picked(cards, p), i, j) == Entry(PairScore, cards, p[i], p[j])
  {
    PermutedElements(cards, p);
    PairScoreIsSymmetric();
    IncompatibleSymmetric(PairScore);
    SumPairsOrder(PairScore, Picked(cards, p), cards);
    SumPairsOrder(Incompatible(PairScore), Picked(cards, p), cards);
  }
}
