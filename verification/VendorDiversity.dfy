/** `check_vendor_diversity`: the Herfindahl-Hirschman concentration of the vendors named on a
    list of agent cards, and the diversity score drawn from it. */
module VendorDiversity {
  import opened Options

  /** The vendor named on a card and the one named in its federation block, where there is one. */
  datatype Card = Card(vendorId: Option<string>, federationVendorId: Option<string>)

  datatype Warning = NoCards | NoVendors | SingleVendor | MultiVendor

  type Counts = map<string, nat>

  // ---- Sums over a finite map -----------------------------------------------------

  ghost function Total(c: Counts, keys: set<string>): nat
    requires keys <= c.Keys
  {
    if keys == {} then 0
    else
      var k :| k in keys;
      c[k] + Total(c, keys - {k})
  }

  /** The sum does not depend on which key is taken first. */
  lemma {:induction false} TotalTakes(c: Counts, keys: set<string>, x: string)
    requires x in keys && keys <= c.Keys
    ensures Total(c, keys) == c[x] + Total(c, keys - {x})
    decreases |keys|
  {
    var k :| k in keys && Total(c, keys) == c[k] + Total(c, keys - {k});
    if k != x {
      TotalTakes(c, keys - {k}, x);
      TotalTakes(c, keys - {x}, k);
      assert keys - {k} - {x} == keys - {x} - {k};
    }
  }

  ghost function Squared(c: Counts): Counts {
    map k | k in c :: c[k] * c[k]
  }

  ghost function Squares(c: Counts, keys: set<string>): nat
    requires keys <= c.Keys
  {
    Total(Squared(c), keys)
  }

  lemma {:induction false} TotalAgrees(c: Counts, d: Counts, keys: set<string>)
    requires keys <= c.Keys && keys <= d.Keys && forall k :: k in keys ==> c[k] == d[k]
    ensures Total(c, keys) == Total(d, keys)
    decreases |keys|
  {
    if keys != {} {
      var k :| k in keys;
      TotalTakes(c, keys, k);
      TotalTakes(d, keys, k);
      TotalAgrees(c, d, keys - {k});
    }
  }

  // ---- Counting vendors -------------------------------------------------------------

  /** How often each vendor is named. */
  ghost function CountsOf(vendors: seq<string>): Counts {
    map v | v in vendors :: multiset(vendors)[v]
  }

  lemma {:induction false} CountsTotal(vendors: seq<string>)
    ensures Total(CountsOf(vendors), CountsOf(vendors).Keys) == |vendors|
  {
    if vendors != [] {
      var front, last := vendors[..|vendors| - 1], vendors[|vendors| - 1];
      assert vendors == front + [last];
      CountsTotal(front);
      var c, d := CountsOf(vendors), CountsOf(front);
      TotalTakes(c, c.Keys, last);
      var rest := c.Keys - {last};
      assert rest == d.Keys - {last};
      TotalAgrees(c, d, rest);
      if last in d {
        TotalTakes(d, d.Keys, last);
      } else {
        assert rest == d.Keys;
      }
    }
  }

  // ---- The concentration index --------------------------------------------------------

  /** Ten thousand times the sum of the squared shares. */
  ghost function Hhi(vendors: seq<string>): real
    requires vendors != []
  {
    Scale(Squares(CountsOf(vendors), CountsOf(vendors).Keys), |vendors|)
  }

  ghost function Scale(q: nat, n: nat): real
    requires n > 0
  {
    10000.0 * (q as real / (n * n) as real)
  }

  ghost function Diversity(vendors: seq<string>): real
    requires vendors != []
  {
    100.0 * (1.0 - Hhi(vendors) / 10000.0)
  }

  lemma SquaredShare(count: nat, n: nat, q: nat)
    requires n > 0
    ensures var share := count as real / n as real * 100.0;
            Scale(q, n) + share * share == Scale(q + count * count, n)
  {
    var x, m := count as real, n as real;
    var r := x / m;
    assert r * m == x;
    assert (r * 100.0) * (r * 100.0) == 10000.0 * (r * r);
    assert (r * r) * (m * m) == (r * m) * (r * m);
    assert r * r == (x * x) / (m * m);
    assert (n * n) as real == m * m && (count * count) as real == x * x;
    var d := (n * n) as real;
    assert q as real / d + (count * count) as real / d == (q + count * count) as real / d;
  }

  /** The source's loops: collect, count, sum the squared shares. */
  method CheckVendorDiversity(cards: seq<Card>) returns (score: real, warning: Option<Warning>)
    ensures cards == [] ==> score == 100.0 && warning == Some(NoCards)
    ensures cards != [] && VendorsOf(cards) == [] ==> score == 0.0 && warning == Some(NoVendors)
    ensures VendorsOf(cards) != [] ==>
              && score == Diversity(VendorsOf(cards))
              && var k := |CountsOf(VendorsOf(cards))|;
                 warning == if k == 1 then Some(SingleVendor) else if k >= 3 then Some(MultiVendor) else None
  {
    if cards == [] {
      return 100.0, Some(NoCards);
    }
    var vendors: seq<string> := [];
    for i := 0 to |cards|
      invariant vendors == VendorsOf(cards[..i])
    {
      assert cards[..i + 1][..i] == cards[..i];
      var c := cards[i];
      if c.vendorId.Some? && c.vendorId.value != "" {
        vendors := vendors + [c.vendorId.value];
      }
      if c.federationVendorId.Some? && c.federationVendorId.value != "" {
        vendors := vendors + [c.federationVendorId.value];
      }
    }
    assert cards[..|cards|] == cards;
    if vendors == [] {
      return 0.0, Some(NoVendors);
    }
    var shareMap := CountVendors(vendors);
    var hhi := SumShares(vendors, shareMap);
    score := 100.0 * (1.0 - hhi / 10000.0);
    DiversityBounds(vendors);
    score := if score < 0.0 then 0.0 else score;
    warning := if |shareMap| == 1 then Some(SingleVendor) else if |shareMap| >= 3 then Some(MultiVendor) else None;
  }

  /** The names on one card, empty ones skipped. */
  function NamesOn(c: Card): seq<string> {
    (if c.vendorId.Some? && c.vendorId.value != "" then [c.vendorId.value] else []) +
    (if c.federationVendorId.Some? && c.federationVendorId.value != "" then [c.federationVendorId.value] else [])
  }

  function VendorsOf(cards: seq<Card>): seq<string> {
    if cards == [] then [] else VendorsOf(cards[..|cards| - 1]) + NamesOn(cards[|cards| - 1])
  }

  /** The positions at which `v` is given. */
  ghost function Given(names: seq<Option<string>>, v: string): set<nat> {
    set i: nat | i < |names| && names[i] == Some(v)
  }

  lemma OneMoreGiven(front: seq<Option<string>>, name: Option<string>, v: string)
    ensures |Given(front + [name], v)| == |Given(front, v)| + if name == Some(v) then 1 else 0
  {
    var longer := front + [name];
    assert forall i :: 0 <= i < |front| ==> longer[i] == front[i];
    if name == Some(v) {
      assert Given(longer, v) == Given(front, v) + {|front|};
    } else {
      assert Given(longer, v) == Given(front, v);
    }
  }

  ghost function OwnNames(cards: seq<Card>): seq<Option<string>> {
    seq(|cards|, i requires 0 <= i < |cards| => cards[i].vendorId)
  }

  ghost function FederationNames(cards: seq<Card>): seq<Option<string>> {
    seq(|cards|, i requires 0 <= i < |cards| => cards[i].federationVendorId)
  }

  lemma OneMoreCard(front: seq<Card>, c: Card, v: string)
    ensures |Given(OwnNames(front + [c]), v)| == |Given(OwnNames(front), v)| + if c.vendorId == Some(v) then 1 else 0
    ensures |Given(FederationNames(front + [c]), v)| ==
            |Given(FederationNames(front), v)| + if c.federationVendorId == Some(v) then 1 else 0
  {
    OneMoreGiven(OwnNames(front), c.vendorId, v);
    OneMoreGiven(FederationNames(front), c.federationVendorId, v);
    assert OwnNames(front + [c]) == OwnNames(front) + [c.vendorId];
    assert FederationNames(front + [c]) == FederationNames(front) + [c.federationVendorId];
  }

  lemma NamesOnCount(c: Card, v: string)
    ensures multiset(NamesOn(c))[v] == if v == "" then 0 else
              (if c.vendorId == Some(v) then 1 else 0) + (if c.federationVendorId == Some(v) then 1 else 0)
  {
  }

  /** A vendor is counted once for every card that names it and once more for every card whose federation
      block does; the empty name is never counted. */
  lemma {:induction false} MentionsCount(cards: seq<Card>, v: string)
    ensures multiset(VendorsOf(cards))[v] == if v == "" then 0 else |Given(OwnNames(cards), v)| + |Given(FederationNames(cards), v)|
  {
    if cards == [] {
      assert Given(OwnNames(cards), v) == {} && Given(FederationNames(cards), v) == {};
    } else {
      var front, last := cards[..|cards| - 1], cards[|cards| - 1];
      assert cards == front + [last];
      MentionsCount(front, v);
      NamesOnCount(last, v);
      OneMoreCard(front, last, v);
    }
  }

  method CountVendors(vendors: seq<string>) returns (shareMap: Counts)
    ensures shareMap == CountsOf(vendors)
  {
    shareMap := map[];
    for i := 0 to |vendors|
      invariant shareMap == CountsOf(vendors[..i])
    {
      var v := vendors[i];
      assert vendors[..i + 1] == vendors[..i] + [v];
      shareMap := shareMap[v := (if v in shareMap then shareMap[v] else 0) + 1];
    }
    assert vendors[..|vendors|] == vendors;
  }

  method SumShares(vendors: seq<string>, shareMap: Counts) returns (hhi: real)
    requires vendors != [] && shareMap == CountsOf(vendors)
    ensures hhi == Hhi(vendors)
  {
    var n := |vendors|;
    hhi := 0.0;
    var pending := shareMap.Keys;
    while pending != {}
      invariant pending <= shareMap.Keys
      invariant hhi == Scale(Squares(shareMap, shareMap.Keys - pending), n)
      decreases pending
    {
      var v :| v in pending;
      ghost var before := shareMap.Keys - pending;
      pending := pending - {v};
      var share := shareMap[v] as real / n as real * 100.0;
      hhi := hhi + share * share;
      assert shareMap.Keys - pending == before + {v} && before + {v} - {v} == before;
      TotalTakes(Squared(shareMap), before + {v}, v);
      SquaredShare(shareMap[v], n, Squares(shareMap, before));
    }
    assert shareMap.Keys - {} == shareMap.Keys;
  }

  // ---- Bounds ---------------------------------------------------------------------------

  ghost predicate Positive(c: Counts, keys: set<string>)
    requires keys <= c.Keys
  {
    forall k :: k in keys ==> c[k] >= 1
  }

  lemma SquareOfDifference(x: int, y: int)
    ensures x * x + y * y >= 2 * (x * y)
  {
    var d := x - y;
    assert d * d >= 0;
    assert d * d == x * x - 2 * (x * y) + y * y;
  }

  lemma PositiveFactor(k: int, t: int)
    requires k > 0 && k * t >= 0
    ensures t >= 0
  {
  }

  lemma CauchyMean(n: nat, q: nat, k: nat, c: nat)
    requires k > 0 && n * n <= k * q
    ensures 2 * (n * c) <= q + k * (c * c)
  {
    SquareOfDifference(n, k * c);
    ScaledProducts(n, k, c);
    var s, nc := k * (c * c), n * c;
    Distributes(k, q, s, nc);
    PositiveFactor(k, q + s - 2 * nc);
  }

  lemma ScaledProducts(n: int, k: int, c: int)
    ensures (k * c) * (k * c) == k * (k * (c * c)) && n * (k * c) == k * (n * c)
  {
  }

  lemma Distributes(k: int, x: int, y: int, z: int)
    ensures k * (x + y - 2 * z) == k * x + k * y - 2 * (k * z)
  {
  }

  /** One more term in Cauchy's inequality. */
  lemma CauchyStep(n: nat, q: nat, k: nat, c: nat)
    requires n * n <= k * q && (k == 0 ==> n == 0)
    ensures (n + c) * (n + c) <= (k + 1) * (q + c * c)
  {
    var s, nc := c * c, n * c;
    assert (n + c) * (n + c) == n * n + 2 * nc + s;
    assert (k + 1) * (q + s) == k * q + k * s + q + s;
    if k > 0 {
      CauchyMean(n, q, k, c);
    } else {
      assert nc == 0 && k * s == 0;
    }
  }

  /** One more positive term leaves the sum of squares at most the squared sum. */
  lemma UpperStep(n: nat, q: nat, c: nat)
    requires q <= n * n && c >= 1
    ensures q + c * c <= (n + c) * (n + c)
    ensures n >= 1 ==> q + c * c < (n + c) * (n + c)
  {
    var nc := n * c;
    assert (n + c) * (n + c) == n * n + 2 * nc + c * c;
    assert n >= 1 ==> nc >= 1;
  }

  /** The sum of squares lies between the squared sum over the number of terms and the squared sum;
      the upper end is reached only by a single term. */
  lemma {:induction false} SquaresBetween(c: Counts, keys: set<string>)
    requires keys <= c.Keys && Positive(c, keys)
    ensures var n, q := Total(c, keys), Squares(c, keys);
            && n * n <= |keys| * q
            && q <= n * n
            && (|keys| >= 2 ==> q < n * n)
            && (keys != {} ==> n >= 1) && (keys == {} ==> n == 0)
    decreases |keys|
  {
    if keys != {} {
      var k :| k in keys;
      var rest := keys - {k};
      SquaresBetween(c, rest);
      TotalTakes(c, keys, k);
      TotalTakes(Squared(c), keys, k);
      CauchyStep(Total(c, rest), Squares(c, rest), |rest|, c[k]);
      UpperStep(Total(c, rest), Squares(c, rest), c[k]);
    }
  }

  lemma FromProduct(x: real, y: real, d: real)
    requires d > 0.0 && x * d >= y * d
    ensures x >= y
  {
    assert x < y ==> (y - x) * d > 0.0;
  }

  lemma DivideLess(x: real, y: real, d: real)
    requires d > 0.0
    ensures x < y ==> x / d < y / d
  {
  }

  lemma CrossMultiply(a: real, b: real, c: real, d: real)
    requires b > 0.0 && d > 0.0 && a * d <= c * b
    ensures a / b <= c / d
  {
    var f, g, bd := a / b, c / d, b * d;
    assert f * b == a && g * d == c;
    assert bd > 0.0 && f * bd == a * d && g * bd == c * b;
    FromProduct(g, f, bd);
  }

  lemma Reciprocal(k: nat)
    requires k >= 1
    ensures 10000.0 / k as real == 10000.0 * (1.0 / k as real)
  {
  }

  lemma SquareIsPositive(n: nat)
    requires n >= 1
    ensures n * n >= 1
  {
  }

  lemma ScaleAtMost(q: nat, n: nat)
    requires n >= 1 && q <= n * n
    ensures Scale(q, n) <= 10000.0
    ensures q < n * n ==> Scale(q, n) < 10000.0
  {
    SquareIsPositive(n);
    var whole := n * n;
    DivideLess(q as real, whole as real, whole as real);
    assert whole as real / whole as real == 1.0;
  }

  lemma ScaleAtLeast(q: nat, n: nat, k: nat)
    requires n >= 1 && k >= 1 && n * n <= k * q
    ensures Scale(q, n) >= 10000.0 / k as real
  {
    SquareIsPositive(n);
    var square, product := n * n, k * q;
    assert product as real == k as real * q as real;
    CrossMultiply(1.0, k as real, q as real, square as real);
    Reciprocal(k);
  }

  /** What the counts of the vendors add up to. */
  lemma CountsAddUp(vendors: seq<string>)
    requires vendors != []
    ensures var c, n := CountsOf(vendors), |vendors|;
            var q, k := Squares(c, c.Keys), |c|;
            k >= 1 && n * n <= k * q && q <= n * n && (k >= 2 ==> q < n * n) && (k == 1 ==> q == n * n)
  {
    var c := CountsOf(vendors);
    assert vendors[0] in c;
    assert |c| == |c.Keys|;
    CountsTotal(vendors);
    SquaresBetween(c, c.Keys);
  }

  /** The index lies between 10000/k and 10000, which it reaches only with one vendor. */
  lemma IndexBounds(vendors: seq<string>)
    requires vendors != []
    ensures var k := |CountsOf(vendors)|;
            && k >= 1
            && 10000.0 / k as real <= Hhi(vendors) <= 10000.0
            && (Hhi(vendors) == 10000.0 <==> k == 1)
  {
    var c := CountsOf(vendors);
    CountsAddUp(vendors);
    ScaleAtMost(Squares(c, c.Keys), |vendors|);
    ScaleAtLeast(Squares(c, c.Keys), |vendors|, |c|);
  }

  /** With k distinct vendors the index lies between 10000/k and 10000, and diversity between 0 and
      100 (1 - 1/k); it is 0 exactly for a single vendor. */
  lemma DiversityBounds(vendors: seq<string>)
    requires vendors != []
    ensures var k := |CountsOf(vendors)|;
            && k >= 1
            && 10000.0 / k as real <= Hhi(vendors) <= 10000.0
            && 0.0 <= Diversity(vendors) <= 100.0 * (1.0 - 1.0 / k as real)
            && (Diversity(vendors) == 0.0 <==> k == 1)
  {
    IndexBounds(vendors);
    Reciprocal(|CountsOf(vendors)|);
  }

  /** Only how often each vendor is named matters, not in which order. */
  lemma OrderIsIrrelevant(vendors: seq<string>, others: seq<string>)
    requires vendors != [] && others != [] && multiset(vendors) == multiset(others)
    ensures Diversity(vendors) == Diversity(others)
  {
    assert |vendors| == |multiset(vendors)| == |multiset(others)| == |others|;
    forall v
      ensures v in vendors <==> v in others
    {
      assert v in vendors <==> v in multiset(vendors);
      assert v in others <==> v in multiset(others);
    }
    assert CountsOf(vendors) == CountsOf(others);
  }

  // ---- Mergers ---------------------------------------------------------------------------

  /** Vendor `b` is taken over by vendor `a`: every mention of it becomes a mention of `a`. */
  function Merged(vendors: seq<string>, a: string, b: string): seq<string> {
    seq(|vendors|, i requires 0 <= i < |vendors| => if vendors[i] == b then a else vendors[i])
  }

  lemma {:induction false} MergedCount(vendors: seq<string>, a: string, b: string, v: string)
    requires a != b
    ensures multiset(Merged(vendors, a, b))[v] ==
            if v == b then 0 else if v == a then multiset(vendors)[a] + multiset(vendors)[b] else multiset(vendors)[v]
  {
    if vendors != [] {
      var front, last := vendors[..|vendors| - 1], vendors[|vendors| - 1];
      assert vendors == front + [last];
      assert Merged(vendors, a, b) == Merged(front, a, b) + [if last == b then a else last];
      MergedCount(front, a, b, v);
    } else {
      assert Merged(vendors, a, b) == [];
    }
  }

  lemma MergedCounts(vendors: seq<string>, a: string, b: string)
    requires a != b && a in vendors && b in vendors
    ensures var c, d := CountsOf(vendors), CountsOf(Merged(vendors, a, b));
            && d.Keys == c.Keys - {b}
            && d[a] == c[a] + c[b]
            && forall v :: v in d && v != a ==> d[v] == c[v]
  {
    var merged := Merged(vendors, a, b);
    var c, d := CountsOf(vendors), CountsOf(merged);
    forall v
      ensures v in d <==> v in c && v != b
      ensures v in d && v != a ==> d[v] == c[v]
      ensures v == a ==> v in d && d[v] == c[a] + c[b]
    {
      MergedCount(vendors, a, b, v);
      assert v in merged <==> multiset(merged)[v] > 0;
      assert v in vendors <==> multiset(vendors)[v] > 0;
      assert a in multiset(vendors);
    }
  }

  /** After the merger two terms of the sum of squares have become one larger one. */
  lemma MergedSquares(vendors: seq<string>, a: string, b: string)
    requires a != b && a in vendors && b in vendors
    ensures var c, d := CountsOf(vendors), CountsOf(Merged(vendors, a, b));
            Squares(d, d.Keys) == Squares(c, c.Keys) + 2 * (c[a] * c[b])
  {
    MergedCounts(vendors, a, b);
    var c, d := CountsOf(vendors), CountsOf(Merged(vendors, a, b));
    SquaresAfterMerger(c, d, a, b);
  }

  lemma SquaresAfterMerger(c: Counts, d: Counts, a: string, b: string)
    requires a != b && a in c && b in c && d.Keys == c.Keys - {b} && d[a] == c[a] + c[b]
    requires forall v :: v in d && v != a ==> d[v] == c[v]
    ensures Squares(d, d.Keys) == Squares(c, c.Keys) + 2 * (c[a] * c[b])
  {
    var rest := c.Keys - {a} - {b};
    assert d.Keys - {a} == rest;
    TotalTakes(Squared(d), d.Keys, a);
    TotalTakes(Squared(c), c.Keys, a);
    TotalTakes(Squared(c), c.Keys - {a}, b);
    TotalAgrees(Squared(c), Squared(d), rest);
    SquareOfSum(c[a], c[b]);
  }

  lemma SquareOfSum(x: int, y: int)
    ensures (x + y) * (x + y) == x * x + 2 * (x * y) + y * y
  {
  }

  lemma ScaleGrows(q: nat, r: nat, n: nat)
    requires n > 0 && q < r
    ensures Scale(q, n) < Scale(r, n)
  {
    assert n * n > 0;
    DivideLess(q as real, r as real, (n * n) as real);
  }

  lemma ProductIsPositive(x: nat, y: nat)
    requires x >= 1 && y >= 1
    ensures x * y >= 1
  {
  }

  lemma MergerRaisesIndex(vendors: seq<string>, a: string, b: string)
    requires a != b && a in vendors && b in vendors
    ensures Hhi(Merged(vendors, a, b)) > Hhi(vendors)
  {
    var c, d := CountsOf(vendors), CountsOf(Merged(vendors, a, b));
    MergedSquares(vendors, a, b);
    ProductIsPositive(c[a], c[b]);
    ScaleGrows(Squares(c, c.Keys), Squares(d, d.Keys), |vendors|);
  }

  /** Merging two vendors strictly lowers diversity. */
  lemma MergerLowersDiversity(vendors: seq<string>, a: string, b: string)
    requires a != b && a in vendors && b in vendors
    ensures Diversity(Merged(vendors, a, b)) < Diversity(vendors)
  {
    MergerRaisesIndex(vendors, a, b);
  }
}
