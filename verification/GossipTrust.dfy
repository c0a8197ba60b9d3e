/** `GossipTrustProtocol`: pairs of agents exchange opinions about everyone. A column holds what all
    agents think of one of them; honest exchanges average two entries of every column. */
module GossipTrust {
  import opened Options
  import Graphs

  // ---- Columns of real opinions ------------------------------------------------

  function Sum(s: seq<real>): real {
    if s == [] then 0.0 else Sum(s[..|s| - 1]) + s[|s| - 1]
  }

  function Mean(s: seq<real>): real
    requires s != []
  {
    Sum(s) / |s| as real
  }

  function Square(x: real): real {
    x * x
  }

  /** Sum of the squared distances from `m`. */
  function Spread(s: seq<real>, m: real): real {
    if s == [] then 0.0 else Spread(s[..|s| - 1], m) + Square(s[|s| - 1] - m)
  }

  /** Population variance, as `trust_variance` computes it for one column. */
  function Variance(s: seq<real>): real
    requires s != []
  {
    Spread(s, Mean(s)) / |s| as real
  }

  function Abs(x: real): real {
    if x < 0.0 then -x else x
  }

  ghost predicate Within(s: seq<real>, lo: real, hi: real) {
    forall i :: 0 <= i < |s| ==> lo <= s[i] <= hi
  }

  lemma {:induction false} SumUpdate(s: seq<real>, i: nat, v: real)
    requires i < |s|
    ensures Sum(s[i := v]) == Sum(s) - s[i] + v
  {
    var front := s[..|s| - 1];
    if i == |s| - 1 {
      assert s[i := v][..|s| - 1] == front;
    } else {
      SumUpdate(front, i, v);
      assert s[i := v][..|s| - 1] == front[i := v];
    }
  }

  lemma {:induction false} SpreadUpdate(s: seq<real>, m: real, i: nat, v: real)
    requires i < |s|
    ensures Spread(s[i := v], m) == Spread(s, m) - Square(s[i] - m) + Square(v - m)
  {
    var front := s[..|s| - 1];
    if i == |s| - 1 {
      assert s[i := v][..|s| - 1] == front;
    } else {
      SpreadUpdate(front, m, i, v);
      assert s[i := v][..|s| - 1] == front[i := v];
    }
  }

  // ---- One exchange ---------------------------------------------------------------

  /** What one meeting of agents `a` and `b` does to column `j`. A malicious first agent overwrites
      the other's opinion; otherwise a malicious second one does; honest agents meet half-way. */
  function Exchange(col: seq<real>, j: nat, a: nat, b: nat, malicious: set<nat>): (r: seq<real>)
    requires a < |col| && b < |col|
    ensures |r| == |col|
  {
    if a in malicious then col[b := if j == a then 0.9 else 0.1]
    else if b in malicious then col[a := if j == b then 0.9 else 0.1]
    else
      var avg := (col[a] + col[b]) / 2.0;
      col[a := avg][b := avg]
  }

  lemma HalfWay(x: real, y: real, m: real)
    ensures var avg := (x + y) / 2.0;
            Square(avg - m) + Square(avg - m) == Square(x - m) + Square(y - m) - Square(x - y) / 2.0
  {
    var u, w := x - m, y - m;
    assert (x + y) / 2.0 - m == (u + w) / 2.0 && x - y == u - w;
    var q := (u + w) / 2.0;
    assert 2.0 * q == u + w;
    assert (2.0 * q) * (2.0 * q) == (u + w) * (u + w);
    assert (u + w) * (u + w) == u * u + 2.0 * (u * w) + w * w;
    assert (u - w) * (u - w) == u * u - 2.0 * (u * w) + w * w;
  }

  /** An honest exchange keeps the column's sum and takes exactly half the squared difference of the
      two opinions out of its spread around any point. */
  lemma HonestExchange(col: seq<real>, j: nat, a: nat, b: nat, m: real)
    requires a < |col| && b < |col| && a != b
    ensures Sum(Exchange(col, j, a, b, {})) == Sum(col)
    ensures Spread(Exchange(col, j, a, b, {}), m) == Spread(col, m) - Square(col[a] - col[b]) / 2.0
  {
    var avg := (col[a] + col[b]) / 2.0;
    SumUpdate(col, a, avg);
    SumUpdate(col[a := avg], b, avg);
    SpreadUpdate(col, m, a, avg);
    SpreadUpdate(col[a := avg], m, b, avg);
    HalfWay(col[a], col[b], m);
  }

  lemma Drop(s: real, d: real, n: real)
    requires n > 0.0
    ensures (s - d / 2.0) / n == s / n - d / (2.0 * n)
  {
    var q := d / (2.0 * n);
    assert q * (2.0 * n) == d;
    assert (q * n) * 2.0 == d;
    assert (s / n - q) * n == s - d / 2.0;
  }

  /** Hence the column's variance falls by exactly the squared difference over twice the agents. */
  lemma HonestExchangeLowersVariance(col: seq<real>, j: nat, a: nat, b: nat)
    requires a < |col| && b < |col| && a != b
    ensures Variance(Exchange(col, j, a, b, {})) == Variance(col) - Square(col[a] - col[b]) / (2.0 * |col| as real)
  {
    var m := Mean(col);
    HonestExchange(col, j, a, b, m);
    var r := Exchange(col, j, a, b, {});
    assert Mean(r) == m;
    Drop(Spread(col, m), Square(col[a] - col[b]), |col| as real);
  }

  /** No exchange, honest or not, leaves a range that holds the column and both forged opinions. */
  lemma ExchangeStaysWithin(col: seq<real>, j: nat, a: nat, b: nat, malicious: set<nat>, lo: real, hi: real)
    requires a < |col| && b < |col| && Within(col, lo, hi)
    requires malicious == {} || (lo <= 0.1 && 0.9 <= hi)
    ensures Within(Exchange(col, j, a, b, malicious), lo, hi)
  {
  }

  // ---- One round ------------------------------------------------------------------

  ghost predicate Differ(order: seq<nat>, i: nat, k: nat)
    requires i < |order| && k < |order|
  {
    order[i] != order[k]
  }

  /** Any outcome of shuffling the agents' indices. */
  ghost predicate IsShuffle(order: seq<nat>, n: nat) {
    && |order| == n
    && (forall i :: 0 <= i < n ==> order[i] < n)
    && (forall i, k :: 0 <= i < k < n ==> Differ(order, i, k))
  }

  /** Leaving the indices as they are is one. */
  lemma OneShuffle(n: nat)
    ensures IsShuffle(seq(n, i => i), n)
  {
    var order: seq<nat> := seq(n, i => i);
    forall i, k | 0 <= i < k < n
      ensures Differ(order, i, k)
    {
    }
  }

  /** A column after the first `k` pairs of the round have met. */
  ghost function RoundColumn(col: seq<real>, j: nat, order: seq<nat>, malicious: set<nat>, k: nat): (r: seq<real>)
    requires IsShuffle(order, |col|) && 2 * k <= |col|
    ensures |r| == |col|
  {
    if k == 0 then col
    else Exchange(RoundColumn(col, j, order, malicious, k - 1), j, order[2 * (k - 1)], order[2 * (k - 1) + 1], malicious)
  }

  lemma SquareNonNegative(x: real)
    ensures Square(x) >= 0.0
  {
  }

  lemma FallsBy(after: real, before: real, x: real, n: real)
    requires n > 0.0 && after == before - Square(x) / (2.0 * n)
    ensures after <= before
  {
    SquareNonNegative(x);
    FractionNonNegative(Square(x), 2.0 * n);
  }

  lemma VarianceNeverRises(col: seq<real>, j: nat, a: nat, b: nat)
    requires a < |col| && b < |col| && a != b
    ensures Variance(Exchange(col, j, a, b, {})) <= Variance(col)
  {
    HonestExchangeLowersVariance(col, j, a, b);
    FallsBy(Variance(Exchange(col, j, a, b, {})), Variance(col), col[a] - col[b], |col| as real);
  }

  /** What an honest exchange leaves alone or lowers. */
  lemma HonestExchangeKeeps(col: seq<real>, j: nat, a: nat, b: nat, lo: real, hi: real)
    requires a < |col| && b < |col| && a != b && Within(col, lo, hi)
    ensures var r := Exchange(col, j, a, b, {});
            Sum(r) == Sum(col) && Variance(r) <= Variance(col) && Within(r, lo, hi)
  {
    HonestExchange(col, j, a, b, 0.0);
    VarianceNeverRises(col, j, a, b);
    ExchangeStaysWithin(col, j, a, b, {}, lo, hi);
  }

  /** A round without malicious agents keeps the sum, never raises the variance, never widens the range. */
  lemma {:induction false} HonestRound(col: seq<real>, j: nat, order: seq<nat>, k: nat, lo: real, hi: real)
    requires IsShuffle(order, |col|) && 2 * k <= |col| && col != [] && Within(col, lo, hi)
    ensures var r := RoundColumn(col, j, order, {}, k);
            Sum(r) == Sum(col) && Variance(r) <= Variance(col) && Within(r, lo, hi)
  {
    if k > 0 {
      HonestRound(col, j, order, k - 1, lo, hi);
      var r := RoundColumn(col, j, order, {}, k - 1);
      var a, b := order[2 * (k - 1)], order[2 * (k - 1) + 1];
      assert Differ(order, 2 * (k - 1), 2 * (k - 1) + 1);
      HonestExchangeKeeps(r, j, a, b, lo, hi);
    }
  }

  lemma FractionNonNegative(x: real, y: real)
    requires x >= 0.0 && y > 0.0
    ensures x / y >= 0.0
  {
  }

  /** With malicious agents a round still cannot leave a range that holds 0.1 and 0.9. */
  lemma {:induction false} RoundStaysWithin(col: seq<real>, j: nat, order: seq<nat>, malicious: set<nat>, k: nat, lo: real, hi: real)
    requires IsShuffle(order, |col|) && 2 * k <= |col| && Within(col, lo, hi)
    requires malicious == {} || (lo <= 0.1 && 0.9 <= hi)
    ensures Within(RoundColumn(col, j, order, malicious, k), lo, hi)
  {
    if k > 0 {
      RoundStaysWithin(col, j, order, malicious, k - 1, lo, hi);
      ExchangeStaysWithin(RoundColumn(col, j, order, malicious, k - 1), j, order[2 * (k - 1)], order[2 * (k - 1) + 1], malicious, lo, hi);
    }
  }

  // ---- Whole tables and whole runs ---------------------------------------------------

  /** The trust table column by column: entry `i` of column `j` is agent i's opinion of agent j. */
  type Columns = seq<seq<real>>

  ghost predicate Shaped(cols: Columns, n: nat) {
    n >= 1 && |cols| == n && forall j :: 0 <= j < n ==> |cols[j]| == n
  }

  /** What a meeting does to every column. */
  ghost function MeetTable(cols: Columns, a: nat, b: nat, malicious: set<nat>): (r: Columns)
    requires Shaped(cols, |cols|) && a < |cols| && b < |cols|
    ensures Shaped(r, |cols|)
  {
    seq(|cols|, j requires 0 <= j < |cols| => Exchange(cols[j], j, a, b, malicious))
  }

  /** The table after the first `k` pairs of the round have met. */
  ghost function RoundTable(cols: Columns, order: seq<nat>, malicious: set<nat>, k: nat): (r: Columns)
    requires Shaped(cols, |cols|) && IsShuffle(order, |cols|) && 2 * k <= |cols|
    ensures Shaped(r, |cols|)
  {
    if k == 0 then cols
    else MeetTable(RoundTable(cols, order, malicious, k - 1), order[2 * (k - 1)], order[2 * (k - 1) + 1], malicious)
  }

  lemma MeetByColumn(cols: Columns, a: nat, b: nat, malicious: set<nat>, j: nat)
    requires Shaped(cols, |cols|) && a < |cols| && b < |cols| && j < |cols|
    ensures MeetTable(cols, a, b, malicious)[j] == Exchange(cols[j], j, a, b, malicious)
  {
  }

  lemma {:induction false} RoundByColumn(cols: Columns, order: seq<nat>, malicious: set<nat>, k: nat, j: nat)
    requires Shaped(cols, |cols|) && IsShuffle(order, |cols|) && 2 * k <= |cols| && j < |cols|
    ensures RoundTable(cols, order, malicious, k)[j] == RoundColumn(cols[j], j, order, malicious, k)
  {
    if k > 0 {
      RoundByColumn(cols, order, malicious, k - 1, j);
      var before, a, b := RoundTable(cols, order, malicious, k - 1), order[2 * (k - 1)], order[2 * (k - 1) + 1];
      assert RoundTable(cols, order, malicious, k) == MeetTable(before, a, b, malicious);
      MeetByColumn(before, a, b, malicious, j);
    }
  }

  /** `shuffle(d)` is the d-th shuffle the generator draws. */
  ghost predicate Shuffles(shuffle: nat -> seq<nat>, n: nat) {
    forall d :: IsShuffle(shuffle(d), n)
  }

  /** The table after `k` more rounds, the generator having drawn `drawn` shuffles before. */
  ghost function AfterRounds(cols: Columns, malicious: set<nat>, shuffle: nat -> seq<nat>, drawn: nat, k: nat): (r: Columns)
    requires Shaped(cols, |cols|) && Shuffles(shuffle, |cols|)
    ensures Shaped(r, |cols|)
  {
    if k == 0 then cols
    else RoundTable(AfterRounds(cols, malicious, shuffle, drawn, k - 1), shuffle(drawn + k - 1), malicious, |cols| / 2)
  }

  lemma NextRound(cols: Columns, malicious: set<nat>, shuffle: nat -> seq<nat>, drawn: nat, k: nat)
    requires Shaped(cols, |cols|) && Shuffles(shuffle, |cols|)
    ensures AfterRounds(cols, malicious, shuffle, drawn, k + 1) ==
            RoundTable(AfterRounds(cols, malicious, shuffle, drawn, k), shuffle(drawn + k), malicious, |cols| / 2)
  {
  }

  ghost function Variances(cols: Columns): seq<real>
    requires Shaped(cols, |cols|)
  {
    seq(|cols|, j requires 0 <= j < |cols| => Variance(cols[j]))
  }

  ghost function TableVariance(cols: Columns): real
    requires Shaped(cols, |cols|)
  {
    Mean(Variances(cols))
  }

  ghost function Accuracies(cols: Columns, truth: seq<real>): seq<real>
    requires Shaped(cols, |cols|) && |truth| == |cols|
  {
    seq(|cols|, j requires 0 <= j < |cols| => 1.0 - Abs(Mean(cols[j]) - truth[j]))
  }

  ghost function TableAccuracy(cols: Columns, truth: seq<real>): real
    requires Shaped(cols, |cols|) && |truth| == |cols|
  {
    Mean(Accuracies(cols, truth))
  }

  lemma {:induction false} SumMonotone(s: seq<real>, t: seq<real>)
    requires |s| == |t| && forall i :: 0 <= i < |s| ==> s[i] <= t[i]
    ensures Sum(s) <= Sum(t)
  {
    if s != [] {
      SumMonotone(s[..|s| - 1], t[..|t| - 1]);
    }
  }

  lemma QuotientMonotone(x: real, y: real, n: real)
    requires x <= y && n > 0.0
    ensures x / n <= y / n
  {
  }

  ghost predicate SameSums(cols: Columns, cols': Columns)
    requires |cols| == |cols'|
  {
    forall j :: 0 <= j < |cols| ==> Sum(cols[j]) == Sum(cols'[j])
  }

  lemma HonestRoundTable(cols: Columns, order: seq<nat>, lo: real, hi: real)
    requires Shaped(cols, |cols|) && IsShuffle(order, |cols|) && AllWithin(cols, lo, hi)
    ensures var r := RoundTable(cols, order, {}, |cols| / 2);
            SameSums(r, cols) && TableVariance(r) <= TableVariance(cols) && AllWithin(r, lo, hi)
  {
    var r := RoundTable(cols, order, {}, |cols| / 2);
    forall j | 0 <= j < |cols|
      ensures Sum(r[j]) == Sum(cols[j]) && Variance(r[j]) <= Variance(cols[j]) && Within(r[j], lo, hi)
    {
      assert Within(cols[j], lo, hi);
      RoundByColumn(cols, order, {}, |cols| / 2, j);
      HonestRound(cols[j], j, order, |cols| / 2, lo, hi);
    }
    SumMonotone(Variances(r), Variances(cols));
    QuotientMonotone(Sum(Variances(r)), Sum(Variances(cols)), |cols| as real);
  }

  /** Whatever the schedule and however many rounds: without malicious agents every column keeps
      its sum, the trust variance never rises, and no opinion leaves the initial range. */
  lemma {:induction false} HonestRun(cols: Columns, shuffle: nat -> seq<nat>, drawn: nat, k: nat, lo: real, hi: real)
    requires Shaped(cols, |cols|) && Shuffles(shuffle, |cols|) && AllWithin(cols, lo, hi)
    ensures var r := AfterRounds(cols, {}, shuffle, drawn, k);
            SameSums(r, cols) && TableVariance(r) <= TableVariance(cols) && AllWithin(r, lo, hi)
  {
    if k > 0 {
      HonestRun(cols, shuffle, drawn, k - 1, lo, hi);
      HonestRoundTable(AfterRounds(cols, {}, shuffle, drawn, k - 1), shuffle(drawn + k - 1), lo, hi);
    }
  }

  /** A range that holds a whole column. */
  lemma {:induction false} SomeRange(s: seq<real>) returns (lo: real, hi: real)
    ensures Within(s, lo, hi) && lo <= hi
  {
    if s == [] {
      lo, hi := 0.0, 0.0;
    } else {
      lo, hi := SomeRange(s[..|s| - 1]);
      var x := s[|s| - 1];
      lo, hi := if x < lo then x else lo, if x > hi then x else hi;
      forall i | 0 <= i < |s|
        ensures lo <= s[i] <= hi
      {
        assert i < |s| - 1 ==> s[i] == s[..|s| - 1][i];
      }
    }
  }

  lemma {:induction false} SomeTableRange(cols: Columns, k: nat) returns (lo: real, hi: real)
    requires k <= |cols|
    ensures forall j :: 0 <= j < k ==> Within(cols[j], lo, hi)
  {
    if k == 0 {
      lo, hi := 0.0, 0.0;
    } else {
      lo, hi := SomeTableRange(cols, k - 1);
      var lo', hi' := SomeRange(cols[k - 1]);
      lo, hi := if lo' < lo then lo' else lo, if hi' > hi then hi' else hi;
    }
  }

  lemma SameSumsSameAccuracy(cols: Columns, cols': Columns, truth: seq<real>)
    requires Shaped(cols, |cols|) && Shaped(cols', |cols|) && |truth| == |cols| && SameSums(cols', cols)
    ensures TableAccuracy(cols', truth) == TableAccuracy(cols, truth)
  {
    assert Accuracies(cols', truth) == Accuracies(cols, truth);
  }

  /** So the consensus accuracy is settled by the initial table alone. */
  lemma AccuracyIsConserved(cols: Columns, shuffle: nat -> seq<nat>, drawn: nat, k: nat, truth: seq<real>)
    requires Shaped(cols, |cols|) && Shuffles(shuffle, |cols|) && |truth| == |cols|
    ensures TableAccuracy(AfterRounds(cols, {}, shuffle, drawn, k), truth) == TableAccuracy(cols, truth)
  {
    var lo, hi := SomeTableRange(cols, |cols|);
    HonestRun(cols, shuffle, drawn, k, lo, hi);
    SameSumsSameAccuracy(cols, AfterRounds(cols, {}, shuffle, drawn, k), truth);
  }

  ghost predicate AllWithin(cols: Columns, lo: real, hi: real) {
    forall j :: 0 <= j < |cols| ==> Within(cols[j], lo, hi)
  }

  /** With malicious agents, opinions that start between 0 and 1 stay there in every run. */
  lemma {:induction false} AnyRunStaysInUnit(cols: Columns, malicious: set<nat>, shuffle: nat -> seq<nat>, drawn: nat, k: nat)
    requires Shaped(cols, |cols|) && Shuffles(shuffle, |cols|) && AllWithin(cols, 0.0, 1.0)
    ensures AllWithin(AfterRounds(cols, malicious, shuffle, drawn, k), 0.0, 1.0)
  {
    if k > 0 {
      AnyRunStaysInUnit(cols, malicious, shuffle, drawn, k - 1);
      var before := AfterRounds(cols, malicious, shuffle, drawn, k - 1);
      var order := shuffle(drawn + k - 1);
      var after := RoundTable(before, order, malicious, |cols| / 2);
      forall j | 0 <= j < |after|
        ensures Within(after[j], 0.0, 1.0)
      {
        assert Within(before[j], 0.0, 1.0);
        RoundByColumn(before, order, malicious, |cols| / 2, j);
        RoundStaysWithin(before[j], j, order, malicious, |cols| / 2, 0.0, 1.0);
      }
    }
  }

  // ---- What the two measures measure ----------------------------------------------------

  lemma {:induction false} SumAtLeast(s: seq<real>)
    requires forall i :: 0 <= i < |s| ==> s[i] >= 0.0
    ensures Sum(s) >= 0.0
    ensures Sum(s) == 0.0 <==> forall i :: 0 <= i < |s| ==> s[i] == 0.0
  {
    if s != [] {
      SumAtLeast(s[..|s| - 1]);
      assert forall i :: 0 <= i < |s| - 1 ==> s[..|s| - 1][i] == s[i];
    }
  }

  lemma {:induction false} SpreadAtLeast(s: seq<real>, m: real)
    ensures Spread(s, m) >= 0.0
    ensures Spread(s, m) == 0.0 <==> forall i :: 0 <= i < |s| ==> s[i] == m
  {
    if s != [] {
      SpreadAtLeast(s[..|s| - 1], m);
      SquareIsZero(s[|s| - 1] - m);
      assert forall i :: 0 <= i < |s| - 1 ==> s[..|s| - 1][i] == s[i];
    }
  }

  lemma SquareIsZero(x: real)
    ensures Square(x) >= 0.0 && (Square(x) == 0.0 <==> x == 0.0)
  {
    if x != 0.0 {
      var q := 1.0 / x;
      assert q * x == 1.0;
      assert (q * q) * (x * x) == (q * x) * (q * x);
    }
  }

  lemma {:induction false} SumOfEqual(s: seq<real>, v: real)
    requires forall i :: 0 <= i < |s| ==> s[i] == v
    ensures Sum(s) == v * |s| as real
  {
    if s != [] {
      SumOfEqual(s[..|s| - 1], v);
      assert v * (|s| - 1) as real + v == v * |s| as real;
    }
  }

  lemma QuotientIsZero(x: real, y: real)
    requires y > 0.0
    ensures x / y == 0.0 <==> x == 0.0
  {
    assert (x / y) * y == x;
  }

  lemma QuotientOfProduct(v: real, y: real)
    requires y > 0.0
    ensures (v * y) / y == v
  {
    assert ((v * y) / y) * y == v * y;
  }

  /** A column on which everybody agrees has that opinion as its mean and no variance; any other has some. */
  lemma VarianceZeroIffAgreed(s: seq<real>)
    requires s != []
    ensures Variance(s) >= 0.0
    ensures Variance(s) == 0.0 <==> forall i :: 0 <= i < |s| ==> s[i] == s[0]
    ensures Variance(s) == 0.0 ==> Mean(s) == s[0]
  {
    var m, n := Mean(s), |s| as real;
    SpreadAtLeast(s, m);
    FractionNonNegative(Spread(s, m), n);
    QuotientIsZero(Spread(s, m), n);
    if forall i :: 0 <= i < |s| ==> s[i] == s[0] {
      SumOfEqual(s, s[0]);
      QuotientOfProduct(s[0], n);
    }
  }

  ghost predicate Unanimous(cols: Columns, j: nat)
    requires Shaped(cols, |cols|) && j < |cols|
  {
    forall i :: 0 <= i < |cols| ==> cols[j][i] == cols[j][0]
  }

  /** The trust variance is zero exactly when everybody agrees about everybody. */
  lemma TableVarianceZero(cols: Columns)
    requires Shaped(cols, |cols|)
    ensures TableVariance(cols) >= 0.0
    ensures TableVariance(cols) == 0.0 <==> forall j :: 0 <= j < |cols| ==> Unanimous(cols, j)
  {
    var vs := Variances(cols);
    forall j | 0 <= j < |cols|
      ensures vs[j] >= 0.0 && (vs[j] == 0.0 <==> Unanimous(cols, j))
    {
      VarianceZeroIffAgreed(cols[j]);
    }
    SumAtLeast(vs);
    FractionNonNegative(Sum(vs), |vs| as real);
    QuotientIsZero(Sum(vs), |vs| as real);
  }

  /** How far the mean opinion about agent `j` is from the truth, whichever way. */
  ghost predicate OffBy(cols: Columns, truth: seq<real>, j: nat, d: real)
    requires Shaped(cols, |cols|) && |truth| == |cols| && j < |cols|
  {
    d >= 0.0 && (Mean(cols[j]) == truth[j] + d || Mean(cols[j]) == truth[j] - d)
  }

  lemma {:induction false} SumOfRest(s: seq<real>, errors: seq<real>)
    requires |s| == |errors| && forall i :: 0 <= i < |s| ==> s[i] == 1.0 - errors[i]
    ensures Sum(s) == |s| as real - Sum(errors)
  {
    if s != [] {
      SumOfRest(s[..|s| - 1], errors[..|s| - 1]);
    }
  }

  lemma MeanOfRest(x: real, n: real)
    requires n > 0.0
    ensures (n - x) / n == 1.0 - x / n
  {
    var q := x / n;
    assert q * n == x;
    assert (1.0 - q) * n == n - x;
    Cancel((n - x) / n, 1.0 - q, n);
  }

  lemma Cancel(a: real, b: real, n: real)
    requires n > 0.0 && a * n == b * n
    ensures a == b
  {
    assert (a - b) * n == 0.0;
  }

  /** The accuracy is one less the mean of how far the mean opinions are off, so it is one exactly when
      every agent is, on average, seen as it is. */
  lemma AccuracyMeans(cols: Columns, truth: seq<real>, errors: seq<real>)
    requires Shaped(cols, |cols|) && |truth| == |cols| == |errors|
    requires forall j :: 0 <= j < |cols| ==> OffBy(cols, truth, j, errors[j])
    ensures TableAccuracy(cols, truth) == 1.0 - Mean(errors)
    ensures TableAccuracy(cols, truth) <= 1.0
    ensures TableAccuracy(cols, truth) == 1.0 <==> forall j :: 0 <= j < |cols| ==> errors[j] == 0.0
  {
    var acc := Accuracies(cols, truth);
    forall j | 0 <= j < |cols|
      ensures acc[j] == 1.0 - errors[j]
    {
      assert OffBy(cols, truth, j, errors[j]);
    }
    SumOfRest(acc, errors);
    MeanOfRest(Sum(errors), |errors| as real);
    assert forall j :: 0 <= j < |cols| ==> OffBy(cols, truth, j, errors[j]) ==> errors[j] >= 0.0;
    SumAtLeast(errors);
    FractionNonNegative(Sum(errors), |errors| as real);
    QuotientIsZero(Sum(errors), |errors| as real);
  }

  // ---- What a liar does ---------------------------------------------------------------

  /** What agent `i` thinks of agent `j`. */
  function Opinion(cols: Columns, i: nat, j: nat): real
    requires Shaped(cols, |cols|) && i < |cols| && j < |cols|
  {
    cols[j][i]
  }

  /** What a liar makes others think: the best of itself and the worst of everybody else. */
  ghost predicate TalkedRound(cols: Columns, listener: nat, liar: nat)
    requires Shaped(cols, |cols|) && listener < |cols|
  {
    forall j :: 0 <= j < |cols| ==> Opinion(cols, listener, j) == if j == liar then 0.9 else 0.1
  }

  /** Agent `i` thinks the same of everybody as before. */
  ghost predicate SameMind(cols: Columns, cols': Columns, i: nat)
    requires Shaped(cols, |cols|) && Shaped(cols', |cols'|) && |cols'| == |cols| && i < |cols|
  {
    forall j :: 0 <= j < |cols| ==> Opinion(cols', i, j) == Opinion(cols, i, j)
  }

  /** How the opinions of `a` and `b`, who meet in that order, about agent `j` come to change: a malicious
      first agent keeps its opinion and forges the other's, otherwise a malicious second one does so, and
      two honest agents meet half-way. */
  ghost predicate EntriesMet(col: seq<real>, col': seq<real>, j: nat, a: nat, b: nat, malicious: set<nat>)
    requires a < |col| == |col'| && b < |col|
  {
    if a in malicious then col'[a] == col[a] && col'[b] == if j == a then 0.9 else 0.1
    else if b in malicious then col'[b] == col[b] && col'[a] == if j == b then 0.9 else 0.1
    else col'[a] == col'[b] == (col[a] + col[b]) / 2.0
  }

  /** The same about everybody. */
  ghost predicate Met(cols: Columns, cols': Columns, a: nat, b: nat, malicious: set<nat>)
    requires Shaped(cols, |cols|) && Shaped(cols', |cols'|) && |cols'| == |cols| && a < |cols| && b < |cols|
  {
    forall j :: 0 <= j < |cols| ==> EntriesMet(cols[j], cols'[j], j, a, b, malicious)
  }

  /** For a liar that is: it keeps its own mind and talks the other one round. */
  lemma LiarTalksRound(cols: Columns, cols': Columns, liar: nat, other: nat, malicious: set<nat>)
    requires Shaped(cols, |cols|) && Shaped(cols', |cols'|) && |cols'| == |cols| && liar < |cols| && other < |cols|
    requires liar in malicious
    requires Met(cols, cols', liar, other, malicious) || (other !in malicious && Met(cols, cols', other, liar, malicious))
    ensures SameMind(cols, cols', liar) && TalkedRound(cols', other, liar)
  {
    forall j | 0 <= j < |cols|
      ensures Opinion(cols', liar, j) == Opinion(cols, liar, j)
      ensures Opinion(cols', other, j) == if j == liar then 0.9 else 0.1
    {
      assert EntriesMet(cols[j], cols'[j], j, other, liar, malicious) ==> EntriesMet(cols[j], cols'[j], j, liar, other, malicious);
    }
  }

  /** A meeting changes the minds of the two that meet, as stated above, and of nobody else. */
  lemma MeetingMeans(cols: Columns, a: nat, b: nat, malicious: set<nat>, i: nat)
    requires Shaped(cols, |cols|) && a < |cols| && b < |cols| && a != b && i < |cols|
    ensures Met(cols, MeetTable(cols, a, b, malicious), a, b, malicious)
    ensures i != a && i != b ==> SameMind(cols, MeetTable(cols, a, b, malicious), i)
  {
    var r := MeetTable(cols, a, b, malicious);
    forall j | 0 <= j < |cols|
      ensures EntriesMet(cols[j], r[j], j, a, b, malicious)
      ensures i != a && i != b ==> Opinion(r, i, j) == Opinion(cols, i, j)
    {
      MeetByColumn(cols, a, b, malicious, j);
    }
  }

  lemma SameMindTwice(x: Columns, y: Columns, z: Columns, i: nat)
    requires Shaped(x, |x|) && Shaped(y, |y|) && Shaped(z, |z|) && |x| == |y| == |z| && i < |x|
    requires SameMind(x, y, i) && SameMind(y, z, i)
    ensures SameMind(x, z, i)
  {
    assert forall j :: 0 <= j < |x| ==> Opinion(y, i, j) == Opinion(x, i, j);
  }

  lemma ShuffledApart(order: seq<nat>, n: nat, i: nat, k: nat)
    requires IsShuffle(order, n) && i < n && k < n && i != k
    ensures order[i] != order[k]
  {
    assert if i < k then Differ(order, i, k) else Differ(order, k, i);
  }

  lemma OthersKeepTheirs(col: seq<real>, j: nat, a: nat, b: nat, malicious: set<nat>, i: nat)
    requires a < |col| && b < |col| && i < |col| && i != a && i != b
    ensures Exchange(col, j, a, b, malicious)[i] == col[i]
  {
  }

  /** Within a round, agent `i`, whose pair is not among the first `k`, has not met anybody. */
  lemma {:induction false} NotYetMet(col: seq<real>, j: nat, order: seq<nat>, malicious: set<nat>, k: nat, pos: nat, i: nat)
    requires IsShuffle(order, |col|) && 2 * k <= pos < |col| && order[pos] == i
    ensures RoundColumn(col, j, order, malicious, k)[i] == col[i]
  {
    if k > 0 {
      NotYetMet(col, j, order, malicious, k - 1, pos, i);
      ShuffledApart(order, |col|, 2 * (k - 1), pos);
      ShuffledApart(order, |col|, 2 * (k - 1) + 1, pos);
      OthersKeepTheirs(RoundColumn(col, j, order, malicious, k - 1), j, order[2 * (k - 1)], order[2 * (k - 1) + 1], malicious, i);
    }
  }

  /** And one that has met its partner meets nobody else. */
  lemma {:induction false} MetOnce(col: seq<real>, j: nat, order: seq<nat>, malicious: set<nat>, k: nat, pos: nat, i: nat, k': nat)
    requires IsShuffle(order, |col|) && 2 * k' <= |col| && pos < 2 * k && k <= k' && order[pos] == i
    ensures RoundColumn(col, j, order, malicious, k')[i] == RoundColumn(col, j, order, malicious, k)[i]
  {
    if k' > k {
      MetOnce(col, j, order, malicious, k, pos, i, k' - 1);
      ShuffledApart(order, |col|, 2 * (k' - 1), pos);
      ShuffledApart(order, |col|, 2 * (k' - 1) + 1, pos);
      OthersKeepTheirs(RoundColumn(col, j, order, malicious, k' - 1), j, order[2 * (k' - 1)], order[2 * (k' - 1) + 1], malicious, i);
    }
  }

  /** So each agent's column entry after a round is what its one meeting made of it. */
  lemma PairMeetsOnce(col: seq<real>, j: nat, order: seq<nat>, malicious: set<nat>, pair: nat, a: nat, b: nat)
    requires IsShuffle(order, |col|) && 2 * pair + 1 < |col| && order[2 * pair] == a && order[2 * pair + 1] == b
    ensures EntriesMet(col, RoundColumn(col, j, order, malicious, |col| / 2), j, a, b, malicious)
  {
    ShuffledApart(order, |col|, 2 * pair, 2 * pair + 1);
    NotYetMet(col, j, order, malicious, pair, 2 * pair, a);
    NotYetMet(col, j, order, malicious, pair, 2 * pair + 1, b);
    assert EntriesMet(col, RoundColumn(col, j, order, malicious, pair + 1), j, a, b, malicious);
    MetOnce(col, j, order, malicious, pair + 1, 2 * pair, a, |col| / 2);
    MetOnce(col, j, order, malicious, pair + 1, 2 * pair + 1, b, |col| / 2);
  }

  /** A whole round, whoever lies: of each pair in the shuffled order, a malicious first agent keeps its
      own mind and talks the second one round, otherwise a malicious second one does so to the first, and
      two honest agents meet half-way between what they thought before the round. */
  lemma RoundMeans(cols: Columns, order: seq<nat>, malicious: set<nat>, pair: nat, a: nat, b: nat)
    requires Shaped(cols, |cols|) && IsShuffle(order, |cols|) && 2 * pair + 1 < |cols| && order[2 * pair] == a && order[2 * pair + 1] == b
    ensures a != b && Met(cols, RoundTable(cols, order, malicious, |cols| / 2), a, b, malicious)
  {
    ShuffledApart(order, |cols|, 2 * pair, 2 * pair + 1);
    var r := RoundTable(cols, order, malicious, |cols| / 2);
    forall j | 0 <= j < |cols|
      ensures EntriesMet(cols[j], r[j], j, a, b, malicious)
    {
      RoundByColumn(cols, order, malicious, |cols| / 2, j);
      PairMeetsOnce(cols[j], j, order, malicious, pair, a, b);
    }
  }

  /** The last agent of an odd number meets nobody. */
  lemma OddOneOut(cols: Columns, order: seq<nat>, malicious: set<nat>, last: nat)
    requires Shaped(cols, |cols|) && IsShuffle(order, |cols|) && |cols| % 2 == 1 && order[|cols| - 1] == last
    ensures SameMind(cols, RoundTable(cols, order, malicious, |cols| / 2), last)
  {
    var r := RoundTable(cols, order, malicious, |cols| / 2);
    forall j | 0 <= j < |cols|
      ensures Opinion(r, last, j) == Opinion(cols, last, j)
    {
      RoundByColumn(cols, order, malicious, |cols| / 2, j);
      NotYetMet(cols[j], j, order, malicious, |cols| / 2, |cols| - 1, last);
    }
  }

  /** Every agent has a position in a shuffled order. */
  lemma PositionOf(order: seq<nat>, n: nat, agent: nat) returns (pos: nat)
    requires IsShuffle(order, n) && agent < n
    ensures pos < n && order[pos] == agent
  {
    var numbers: seq<int> := order;
    assert Graphs.Distinct(numbers) by {
      forall i, j | 0 <= i < j < |numbers|
        ensures numbers[i] != numbers[j]
      {
        assert Differ(order, i, j);
      }
    }
    Graphs.DistinctCount(numbers);
    var seen := set v | v in numbers;
    forall v | v in seen
      ensures v in Graphs.Range(n)
    {
      var i :| 0 <= i < |order| && order[i] == v;
    }
    Graphs.SubsetCount(seen, Graphs.Range(n));
    assert agent in seen;
    pos :| 0 <= pos < n && order[pos] == agent;
  }

  /** The `pair`-th pair of the shuffled order is `x` and `y`, in either order. */
  ghost predicate Paired(order: seq<nat>, pair: nat, x: nat, y: nat) {
    && 2 * pair + 1 < |order|
    && ((order[2 * pair] == x && order[2 * pair + 1] == y) || (order[2 * pair] == y && order[2 * pair + 1] == x))
  }

  /** In a round with a single liar, the agent it is paired with ends up talked round. */
  lemma LiarsPartner(cols: Columns, order: seq<nat>, liar: nat, other: nat, pair: nat)
    requires Shaped(cols, |cols|) && IsShuffle(order, |cols|) && Paired(order, pair, liar, other)
    ensures SameMind(cols, RoundTable(cols, order, {liar}, |cols| / 2), liar)
    ensures TalkedRound(RoundTable(cols, order, {liar}, |cols| / 2), other, liar)
  {
    RoundMeans(cols, order, {liar}, pair, order[2 * pair], order[2 * pair + 1]);
    LiarTalksRound(cols, RoundTable(cols, order, {liar}, |cols| / 2), liar, other, {liar});
  }

  /** An agent is in a pair, or the last of an odd number. */
  lemma PairOrLast(order: seq<nat>, n: nat, agent: nat) returns (pair: nat, other: nat)
    requires IsShuffle(order, n) && agent < n
    ensures Paired(order, pair, agent, other) || (n % 2 == 1 && order[n - 1] == agent)
  {
    var pos := PositionOf(order, n, agent);
    pair, other := pos / 2, 0;
    if pos == 2 * pair && pos + 1 < n {
      other := order[pos + 1];
    } else if pos == 2 * pair + 1 {
      other := order[pos - 1];
    }
  }

  /** And, paired or not, the liar keeps its own mind. */
  lemma LiarsMind(cols: Columns, order: seq<nat>, liar: nat)
    requires Shaped(cols, |cols|) && IsShuffle(order, |cols|) && liar < |cols|
    ensures SameMind(cols, RoundTable(cols, order, {liar}, |cols| / 2), liar)
  {
    var pair, other := PairOrLast(order, |cols|, liar);
    if Paired(order, pair, liar, other) {
      LiarsPartner(cols, order, liar, other, pair);
    } else {
      OddOneOut(cols, order, {liar}, liar);
    }
  }

  lemma {:induction false} LiarsMindForever(cols: Columns, liar: nat, shuffle: nat -> seq<nat>, drawn: nat, k: nat)
    requires Shaped(cols, |cols|) && Shuffles(shuffle, |cols|) && liar < |cols|
    ensures SameMind(cols, AfterRounds(cols, {liar}, shuffle, drawn, k), liar)
  {
    if k > 0 {
      LiarsMindForever(cols, liar, shuffle, drawn, k - 1);
      var before := AfterRounds(cols, {liar}, shuffle, drawn, k - 1);
      LiarsMind(before, shuffle(drawn + k - 1), liar);
      SameMindTwice(cols, before, AfterRounds(cols, {liar}, shuffle, drawn, k), liar);
    }
  }

  /** Whatever the schedule, a single liar never changes its own mind, and after any round the agent it
      was paired with in that round thinks the best of it and the worst of everybody else. */
  lemma LiarsRun(cols: Columns, liar: nat, shuffle: nat -> seq<nat>, drawn: nat, k: nat, other: nat, pair: nat)
    requires Shaped(cols, |cols|) && Shuffles(shuffle, |cols|) && liar < |cols|
    ensures SameMind(cols, AfterRounds(cols, {liar}, shuffle, drawn, k), liar)
    ensures k > 0 && Paired(shuffle(drawn + k - 1), pair, liar, other) ==>
              other < |cols| && TalkedRound(AfterRounds(cols, {liar}, shuffle, drawn, k), other, liar)
  {
    LiarsMindForever(cols, liar, shuffle, drawn, k);
    if k > 0 && Paired(shuffle(drawn + k - 1), pair, liar, other) {
      LiarsPartner(AfterRounds(cols, {liar}, shuffle, drawn, k - 1), shuffle(drawn + k - 1), liar, other, pair);
    }
  }

  // ---- The protocol object ---------------------------------------------------------------

  function Clamp(x: real): (r: real)
    ensures 0.0 <= r <= 1.0
  {
    if x < 0.0 then 0.0 else if x > 1.0 then 1.0 else x
  }

  function InitialOpinion(truth: seq<real>, noise: (nat, nat) -> real, i: nat, j: nat): real {
    if j >= |truth| then 0.0 else if i == j then truth[j] else Clamp(truth[j] + noise(i, j))
  }

  /** Everyone knows the truth about itself and guesses about the others, within [0, 1]. */
  ghost function InitialTable(truth: seq<real>, noise: (nat, nat) -> real): Columns {
    seq(|truth|, j requires 0 <= j < |truth| => seq(|truth|, i requires 0 <= i < |truth| => InitialOpinion(truth, noise, i, j)))
  }

  /** `x` cut to [0, 1]. */
  ghost predicate CutTo(x: real, r: real) {
    if 0.0 <= x <= 1.0 then r == x else if x < 0.0 then r == 0.0 else r == 1.0
  }

  /** At first everyone knows about itself what is true and is off about another agent by its noise. */
  lemma InitialMeans(truth: seq<real>, noise: (nat, nat) -> real, i: nat, j: nat)
    requires i < |truth| && j < |truth|
    ensures Shaped(InitialTable(truth, noise), |truth|)
    ensures i == j ==> Opinion(InitialTable(truth, noise), i, j) == truth[i]
    ensures i != j ==> CutTo(truth[j] + noise(i, j), Opinion(InitialTable(truth, noise), i, j))
  {
  }

  ghost predicate MeasuredAt(cols: Columns, malicious: set<nat>, shuffle: nat -> seq<nat>, drawn: nat, vs: seq<real>, i: nat)
    requires Shaped(cols, |cols|) && Shuffles(shuffle, |cols|) && i < |vs|
  {
    vs[i] == TableVariance(AfterRounds(cols, malicious, shuffle, drawn, i + 1))
  }

  /** `vs` lists the trust variance after each of the first rounds. */
  ghost predicate Measured(cols: Columns, malicious: set<nat>, shuffle: nat -> seq<nat>, drawn: nat, vs: seq<real>)
    requires Shaped(cols, |cols|) && Shuffles(shuffle, |cols|)
  {
    forall i :: 0 <= i < |vs| ==> MeasuredAt(cols, malicious, shuffle, drawn, vs, i)
  }

  lemma MeasuredGrows(cols: Columns, malicious: set<nat>, shuffle: nat -> seq<nat>, drawn: nat, vs: seq<real>, v: real)
    requires Shaped(cols, |cols|) && Shuffles(shuffle, |cols|) && Measured(cols, malicious, shuffle, drawn, vs)
    requires v == TableVariance(AfterRounds(cols, malicious, shuffle, drawn, |vs| + 1))
    ensures Measured(cols, malicious, shuffle, drawn, vs + [v])
  {
    var longer := vs + [v];
    forall i | 0 <= i < |longer|
      ensures MeasuredAt(cols, malicious, shuffle, drawn, longer, i)
    {
      if i < |vs| {
        assert MeasuredAt(cols, malicious, shuffle, drawn, vs, i) && longer[i] == vs[i];
      } else {
        assert longer[i] == v;
      }
    }
  }

  class GossipTrustProtocol {
    const n: nat
    /** The true trustworthiness of each agent, 0.5 where the table of truths is silent. */
    const truth: seq<real>
    /** The shuffles the seeded generator will draw, and how many it has drawn. */
    const shuffle: nat -> seq<nat>
    var drawn: nat
    var malicious: set<nat>
    const trust: array2<real>
    var roundsRun: nat
    var convergedAt: Option<int>
    /** The trust array, column by column. */
    ghost var table: Columns

    ghost predicate Holds(i: nat, j: nat)
      requires trust.Length0 == n && trust.Length1 == n && Shaped(table, n) && i < n && j < n
      reads this`table, trust
    {
      table[j][i] == trust[i, j]
    }

    ghost predicate Valid()
      reads this`table, trust
    {
      && trust.Length0 == n && trust.Length1 == n && |truth| == n
      && Shuffles(shuffle, n)
      && Shaped(table, n)
      && forall i, j :: 0 <= i < n && 0 <= j < n ==> Holds(i, j)
    }

    /** `noise(i, j)` is the generator's draw for agent i's initial error about agent j. */
    constructor (n: nat, truth: seq<real>, noise: (nat, nat) -> real, shuffle: nat -> seq<nat>)
      requires n >= 1 && |truth| == n && Shuffles(shuffle, n)
      ensures Valid() && this.n == n && this.truth == truth && this.shuffle == shuffle && fresh(trust)
      ensures drawn == 0 && malicious == {} && roundsRun == 0 && convergedAt == None
      ensures table == InitialTable(truth, noise)
      ensures forall i, j :: 0 <= i < n && 0 <= j < n ==>
                if i == j then trust[i, j] == truth[i] else CutTo(truth[j] + noise(i, j), trust[i, j])
    {
      this.n := n;
      this.truth := truth;
      this.shuffle := shuffle;
      drawn, malicious, roundsRun, convergedAt := 0, {}, 0, None;
      trust := new real[n, n]((i: nat, j: nat) => InitialOpinion(truth, noise, i, j));
      table := InitialTable(truth, noise);
      new;
      assert forall i, j :: 0 <= i < n && 0 <= j < n ==> Holds(i, j);
    }

    method AddMalicious(idx: nat)
      modifies this`malicious
      ensures malicious == old(malicious) + {idx}
    {
      malicious := malicious + {idx};
    }

    /** Agents `a` and `b` meet: column after column, the source's three-way branch. */
    method Meet(a: nat, b: nat)
      requires Valid() && a < n && b < n && a != b
      modifies this`table, trust
      ensures Valid() && table == MeetTable(old(table), a, b, malicious)
    {
      ghost var cols := table;
      for j := 0 to n
        invariant Valid()
        invariant forall c :: 0 <= c < n ==> table[c] == if c < j then Exchange(cols[c], c, a, b, malicious) else cols[c]
      {
        assert Holds(a, j) && Holds(b, j);
        label Here:
        if a in malicious {
          trust[b, j] := if j == a then 0.9 else 0.1;
        } else if b in malicious {
          trust[a, j] := if j == b then 0.9 else 0.1;
        } else {
          var avg := (trust[a, j] + trust[b, j]) / 2.0;
          trust[a, j] := avg;
          trust[b, j] := avg;
        }
        table := table[j := Exchange(cols[j], j, a, b, malicious)];
        forall i, c | 0 <= i < n && 0 <= c < n
          ensures Holds(i, c)
        {
          assert old@Here(Holds(i, c));
        }
      }
    }

    method Round()
      requires Valid()
      modifies this`drawn, this`roundsRun, this`table, trust
      ensures Valid() && table == RoundTable(old(table), shuffle(old(drawn)), malicious, n / 2)
      ensures drawn == old(drawn) + 1 && roundsRun == old(roundsRun) + 1
    {
      var order := shuffle(drawn);
      drawn := drawn + 1;
      assert IsShuffle(order, n);
      for k := 0 to n / 2
        invariant Valid() && drawn == old(drawn) + 1 && roundsRun == old(roundsRun)
        invariant table == RoundTable(old(table), order, malicious, k)
      {
        MeetPair(old(table), order, k);
      }
      roundsRun := roundsRun + 1;
    }

    /** The next pair of the shuffled order meets. */
    method MeetPair(ghost before: Columns, order: seq<nat>, k: nat)
      requires Valid() && IsShuffle(order, n) && 2 * k + 1 < n
      requires Shaped(before, n) && table == RoundTable(before, order, malicious, k)
      modifies this`table, trust
      ensures Valid() && table == RoundTable(before, order, malicious, k + 1)
    {
      assert Differ(order, 2 * k, 2 * k + 1);
      Meet(order[2 * k], order[2 * k + 1]);
    }

    method ReadColumn(j: nat) returns (opinions: seq<real>)
      requires Valid() && j < n
      ensures opinions == table[j]
    {
      opinions := [];
      for i := 0 to n
        invariant opinions == table[j][..i]
      {
        assert Holds(i, j);
        opinions := opinions + [trust[i, j]];
      }
    }

    method TrustVariance() returns (v: real)
      requires Valid()
      ensures v == TableVariance(table)
    {
      var variances: seq<real> := [];
      for j := 0 to n
        invariant variances == Variances(table)[..j]
      {
        var opinions := ReadColumn(j);
        variances := variances + [Variance(opinions)];
      }
      assert variances == Variances(table);
      return Mean(variances);
    }

    /** One round and the variance after it. */
    method RoundAndMeasure(ghost cols: Columns, ghost drawn0: nat, ghost vs: seq<real>) returns (v: real, ghost seen: seq<real>)
      requires Valid() && Shaped(cols, n) && drawn == drawn0 + |vs|
      requires table == AfterRounds(cols, malicious, shuffle, drawn0, |vs|)
      requires Measured(cols, malicious, shuffle, drawn0, vs)
      modifies this`drawn, this`roundsRun, this`table, trust
      ensures Valid() && drawn == old(drawn) + 1 && roundsRun == old(roundsRun) + 1
      ensures seen == vs + [v]
      ensures table == AfterRounds(cols, malicious, shuffle, drawn0, |seen|)
      ensures Measured(cols, malicious, shuffle, drawn0, seen)
    {
      ghost var k := |vs| + 1;
      NextRound(cols, malicious, shuffle, drawn0, |vs|);
      ghost var next := AfterRounds(cols, malicious, shuffle, drawn0, k);
      assert next == RoundTable(table, shuffle(drawn), malicious, n / 2);
      Round();
      assert table == next;
      v := TrustVariance();
      assert table == next;
      MeasuredGrows(cols, malicious, shuffle, drawn0, vs, v);
      seen := vs + [v];
      assert |seen| == k;
    }

    /** The rounds of a run: until one ends with the variance below the threshold, or they run out. */
    method Gossip(maxRounds: int, threshold: real) returns (stopped: bool, ghost vs: seq<real>)
      requires Valid()
      modifies this`drawn, this`roundsRun, this`table, trust
      ensures Valid() && drawn == old(drawn) + |vs| && roundsRun == old(roundsRun) + |vs|
      ensures table == AfterRounds(old(table), malicious, shuffle, old(drawn), |vs|)
      ensures Measured(old(table), malicious, shuffle, old(drawn), vs)
      ensures forall i :: 0 <= i < |vs| - 1 ==> vs[i] >= threshold
      ensures stopped <==> vs != [] && vs[|vs| - 1] < threshold
      ensures if stopped then |vs| <= maxRounds else |vs| == if maxRounds > 0 then maxRounds else 0
    {
      ghost var cols, drawn0 := table, drawn;
      stopped := false;
      vs := [];
      var i := 0;
      while i < maxRounds && !stopped
        invariant 0 <= i == |vs| && (i == 0 || i <= maxRounds)
        invariant Valid() && drawn == drawn0 + |vs| && roundsRun == old(roundsRun) + |vs|
        invariant table == AfterRounds(cols, malicious, shuffle, drawn0, |vs|)
        invariant Measured(cols, malicious, shuffle, drawn0, vs)
        invariant forall k :: 0 <= k < |vs| - 1 ==> vs[k] >= threshold
        invariant stopped <==> vs != [] && vs[|vs| - 1] < threshold
        decreases maxRounds - i
      {
        var v;
        v, vs := RoundAndMeasure(cols, drawn0, vs);
        stopped := v < threshold;
        i := i + 1;
      }
    }

    /** Gossips until a round ends with the variance below the threshold, or the rounds run out;
        `vs` are the variances it saw. */
    method RunUntilConvergence(maxRounds: int := 100, threshold: real := 0.001) returns (at: int, ghost vs: seq<real>)
      requires Valid()
      modifies this`drawn, this`roundsRun, this`convergedAt, this`table, trust
      ensures Valid() && convergedAt == Some(at)
      ensures drawn == old(drawn) + |vs| && roundsRun == old(roundsRun) + |vs|
      ensures table == AfterRounds(old(table), malicious, shuffle, old(drawn), |vs|)
      ensures Measured(old(table), malicious, shuffle, old(drawn), vs)
      ensures forall i :: 0 <= i < |vs| - 1 ==> vs[i] >= threshold
      ensures if vs != [] && vs[|vs| - 1] < threshold then at == roundsRun && |vs| <= maxRounds
              else at == maxRounds && |vs| == if maxRounds > 0 then maxRounds else 0
    {
      var stopped;
      stopped, vs := Gossip(maxRounds, threshold);
      at := if stopped then roundsRun else maxRounds;
      convergedAt := Some(at);
    }

    method MeasureAccuracy() returns (accuracy: real)
      requires Valid()
      ensures accuracy == TableAccuracy(table, truth)
    {
      var accuracies: seq<real> := [];
      for j := 0 to n
        invariant accuracies == Accuracies(table, truth)[..j]
      {
        var opinions := ReadColumn(j);
        accuracies := accuracies + [1.0 - Abs(Mean(opinions) - truth[j])];
      }
      assert accuracies == Accuracies(table, truth);
      return Mean(accuracies);
    }

    /** Without malicious agents the answer is that of the table as it stands before any gossip. */
    method ConsensusAccuracy() returns (accuracy: real)
      requires Valid()
      modifies this`drawn, this`roundsRun, this`convergedAt, this`table, trust
      ensures Valid() && accuracy == TableAccuracy(table, truth)
      ensures malicious == {} ==> accuracy == TableAccuracy(old(table), truth)
    {
      if convergedAt == None {
        var _, vs := RunUntilConvergence();
        if malicious == {} {
          AccuracyIsConserved(old(table), shuffle, old(drawn), |vs|, truth);
        }
      }
      accuracy := MeasureAccuracy();
    }
  }
}
