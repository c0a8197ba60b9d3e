/** The sidecar's `HMACAuditChain` and the evaluation bridge that re-verifies and unwraps its
    export. The two verifiers were written separately; here they are compared on every input.
    Signing is any function of a secret and an entry without its hash. */
module SidecarChains {
  import opened Options

  /** Parsed JSON. */
  datatype Json = Null | Bool(b: bool) | Num(x: real) | Str(s: string) | Arr(items: seq<Json>) | Obj(fields: map<string, Json>)

  type Fields = map<string, Json>

  type Signer = (string, Fields) -> string

  const GENESIS := Str("GENESIS")

  /** The part of an entry that is signed. */
  function Unsigned(entry: Fields): Fields {
    entry - {"hash"}
  }

  function Signature(sign: Signer, secret: string, entry: Fields): Json {
    Str(sign(secret, Unsigned(entry)))
  }

  // ---- The chain's own verifier ---------------------------------------------------

  /** A missing key makes the sidecar's verifier raise KeyError. */
  datatype Answer = Verified(ok: bool) | KeyError

  /** The verdict of `verify_chain` on the entries from `i` on, `prev` being the hash before them. */
  function ChainVerdict(sign: Signer, secret: string, chain: seq<Fields>, i: nat, prev: Json): Answer
    requires i <= |chain|
    decreases |chain| - i
  {
    if i == |chain| then Verified(true)
    else
      var entry := chain[i];
      if "previous_hash" !in entry then KeyError
      else if entry["previous_hash"] != prev then Verified(false)
      else if "hash" !in entry then KeyError
      else if entry["hash"] != Signature(sign, secret, entry) then Verified(false)
      else ChainVerdict(sign, secret, chain, i + 1, entry["hash"])
  }

  method VerifyChain(sign: Signer, secret: string, chain: seq<Fields>) returns (answer: Answer)
    ensures answer == ChainVerdict(sign, secret, chain, 0, GENESIS)
  {
    var prev := GENESIS;
    for i := 0 to |chain|
      invariant ChainVerdict(sign, secret, chain, 0, GENESIS) == ChainVerdict(sign, secret, chain, i, prev)
    {
      var entry := chain[i];
      if "previous_hash" !in entry {
        return KeyError;
      }
      if entry["previous_hash"] != prev {
        return Verified(false);
      }
      var expected := Signature(sign, secret, entry);
      if "hash" !in entry {
        return KeyError;
      }
      if entry["hash"] != expected {
        return Verified(false);
      }
      prev := entry["hash"];
    }
    return Verified(true);
  }

  // ---- The bridge -------------------------------------------------------------------

  predicate IsChainShaped(entry: Json) {
    entry.Obj? && "decision" in entry.fields && "previous_hash" in entry.fields
  }

  /** The bridge's verdict on the items from `i` on. */
  function BridgeVerdict(sign: Signer, secret: string, items: seq<Json>, i: nat, prev: Json): bool
    requires i <= |items|
    decreases |items| - i
  {
    i == |items| ||
    (IsChainShaped(items[i]) &&
     var entry := items[i].fields;
     entry["previous_hash"] == prev &&
     "hash" in entry && entry["hash"] == Signature(sign, secret, entry) &&
     BridgeVerdict(sign, secret, items, i + 1, entry["hash"]))
  }

  method VerifyChainIntegrity(sign: Signer, export_: Json, secret: string) returns (ok: bool)
    ensures ok <==> export_.Arr? && secret != "" && BridgeVerdict(sign, secret, export_.items, 0, GENESIS)
  {
    if !export_.Arr? || secret == "" {
      return false;
    }
    var prev := GENESIS;
    var items := export_.items;
    for i := 0 to |items|
      invariant BridgeVerdict(sign, secret, items, 0, GENESIS) == BridgeVerdict(sign, secret, items, i, prev)
    {
      if !IsChainShaped(items[i]) {
        return false;
      }
      var entry := items[i].fields;
      if entry["previous_hash"] != prev {
        return false;
      }
      var expected := Signature(sign, secret, entry);
      if "hash" !in entry || entry["hash"] != expected {
        return false;
      }
      prev := entry["hash"];
    }
    return true;
  }

  /** What one item contributes to the runtime log. */
  function Unwrap(item: Json): seq<Json> {
    if !item.Obj? then []
    else if IsChainShaped(item) then (if item.fields["decision"].Obj? then [item.fields["decision"]] else [])
    else [item]
  }

  ghost function Ingested(items: seq<Json>): seq<Json> {
    if items == [] then [] else Ingested(items[..|items| - 1]) + Unwrap(items[|items| - 1])
  }

  method IngestAuditChain(export_: Json) returns (events: seq<Json>)
    ensures events == if export_.Arr? then Ingested(export_.items) else []
  {
    events := [];
    if !export_.Arr? {
      return;
    }
    var items := export_.items;
    for i := 0 to |items|
      invariant events == Ingested(items[..i])
    {
      assert items[..i + 1][..i] == items[..i];
      var item := items[i];
      if !item.Obj? {
        continue;
      }
      if IsChainShaped(item) {
        var decision := item.fields["decision"];
        if decision.Obj? {
          events := events + [decision];
        }
      } else {
        events := events + [item];
      }
    }
    assert items[..|items|] == items;
  }

  // ---- What a good chain is -----------------------------------------------------------------

  /** The hash an entry at position `i` must name as its predecessor. */
  function HashBefore(chain: seq<Fields>, i: nat): Json
    requires i <= |chain|
  {
    if i == 0 then GENESIS else if "hash" in chain[i - 1] then chain[i - 1]["hash"] else Null
  }

  ghost predicate Good(sign: Signer, secret: string, chain: seq<Fields>, i: nat)
    requires i < |chain|
  {
    var entry := chain[i];
    && "previous_hash" in entry && entry["previous_hash"] == HashBefore(chain, i)
    && "hash" in entry && entry["hash"] == Signature(sign, secret, entry)
  }

  ghost predicate AllGood(sign: Signer, secret: string, chain: seq<Fields>) {
    forall i :: 0 <= i < |chain| ==> Good(sign, secret, chain, i)
  }

  // ---- The two verifiers compared ------------------------------------------------------

  function AsItems(chain: seq<Fields>): seq<Json> {
    seq(|chain|, i requires 0 <= i < |chain| => Obj(chain[i]))
  }

  ghost predicate ShapedFrom(chain: seq<Fields>, i: nat) {
    forall k :: i <= k < |chain| ==> IsChainShaped(Obj(chain[k]))
  }

  /** The bridge accepts exactly what the sidecar accepts among chain-shaped entries; anything it
      accepts is chain-shaped. */
  lemma {:induction false} VerifiersAgreeFrom(sign: Signer, secret: string, chain: seq<Fields>, i: nat, prev: Json)
    requires i <= |chain|
    ensures BridgeVerdict(sign, secret, AsItems(chain), i, prev) <==>
            ChainVerdict(sign, secret, chain, i, prev) == Verified(true) && ShapedFrom(chain, i)
    decreases |chain| - i
  {
    if i < |chain| {
      var entry := chain[i];
      assert AsItems(chain)[i] == Obj(entry);
      if "hash" in entry {
        VerifiersAgreeFrom(sign, secret, chain, i + 1, entry["hash"]);
      }
      assert ShapedFrom(chain, i) <==> IsChainShaped(Obj(entry)) && ShapedFrom(chain, i + 1);
    }
  }

  /** Every entry before `k` is good and entry `k` has nothing to compare: it names no predecessor,
      or it names the right one but carries no hash. */
  ghost predicate RaisesAt(sign: Signer, secret: string, chain: seq<Fields>, k: nat)
    requires k < |chain|
  {
    && (forall j :: 0 <= j < k ==> Good(sign, secret, chain, j))
    && ("previous_hash" in chain[k] ==>
        chain[k]["previous_hash"] == HashBefore(chain, k) && "hash" !in chain[k])
  }

  lemma {:induction false} RaisesFrom(sign: Signer, secret: string, chain: seq<Fields>, i: nat)
    requires i <= |chain| && forall j :: 0 <= j < i ==> Good(sign, secret, chain, j)
    ensures ChainVerdict(sign, secret, chain, i, HashBefore(chain, i)) == KeyError <==>
            exists k :: i <= k < |chain| && RaisesAt(sign, secret, chain, k)
    decreases |chain| - i
  {
    if i < |chain| {
      if Good(sign, secret, chain, i) {
        RaisesFrom(sign, secret, chain, i + 1);
        assert !RaisesAt(sign, secret, chain, i);
      } else {
        assert forall k :: i < k < |chain| ==> !RaisesAt(sign, secret, chain, k);
        assert ChainVerdict(sign, secret, chain, i, HashBefore(chain, i)) == KeyError <==> RaisesAt(sign, secret, chain, i);
      }
    }
  }

  /** On any list of mappings and non-empty secret: the bridge accepts exactly the chain-shaped lists
      that the sidecar accepts; and the sidecar raises KeyError exactly when, after good entries only,
      one names no predecessor or names the right one and carries no hash. */
  lemma VerifiersCompared(sign: Signer, secret: string, chain: seq<Fields>)
    requires secret != ""
    ensures var bridge := BridgeVerdict(sign, secret, AsItems(chain), 0, GENESIS);
            var own := ChainVerdict(sign, secret, chain, 0, GENESIS);
            && (bridge <==> own == Verified(true) && ShapedFrom(chain, 0))
            && (own == KeyError <==> exists k :: 0 <= k < |chain| && RaisesAt(sign, secret, chain, k))
  {
    VerifiersAgreeFrom(sign, secret, chain, 0, GENESIS);
    RaisesFrom(sign, secret, chain, 0);
  }

  /** Entry `k` is chain-shaped and carries a hash. */
  ghost predicate Complete(chain: seq<Fields>, k: nat)
    requires k < |chain|
  {
    IsChainShaped(Obj(chain[k])) && "hash" in chain[k]
  }

  /** So where every entry has the keys of a chain entry the two verdicts are the same. */
  lemma VerifiersAgree(sign: Signer, secret: string, chain: seq<Fields>)
    requires secret != "" && forall k :: 0 <= k < |chain| ==> Complete(chain, k)
    ensures ChainVerdict(sign, secret, chain, 0, GENESIS) ==
            Verified(BridgeVerdict(sign, secret, AsItems(chain), 0, GENESIS))
  {
    VerifiersCompared(sign, secret, chain);
    forall k | 0 <= k < |chain|
      ensures IsChainShaped(Obj(chain[k])) && !RaisesAt(sign, secret, chain, k)
    {
      assert Complete(chain, k);
    }
  }

  /** The exception is real: a genesis entry whose hash was stripped. */
  lemma StrippedHashDivides(sign: Signer, secret: string)
    ensures var chain := [map["decision" := Null, "previous_hash" := GENESIS]];
            && ChainVerdict(sign, secret, chain, 0, GENESIS) == KeyError
            && !BridgeVerdict(sign, secret, AsItems(chain), 0, GENESIS)
  {
    var entry: Fields := map["decision" := Null, "previous_hash" := GENESIS];
    var chain := [entry];
    assert AsItems(chain)[0] == Obj(entry);
    assert "hash" !in entry;
  }

  // ---- Flat logs pass through unchanged --------------------------------------------------

  lemma {:induction false} IngestedIsNoLonger(items: seq<Json>)
    ensures |Ingested(items)| <= |items|
  {
    if items != [] {
      IngestedIsNoLonger(items[..|items| - 1]);
    }
  }

  lemma DecisionIsSmaller(entry: Json)
    requires IsChainShaped(entry)
    ensures entry.fields["decision"] != entry
  {
    assert entry.fields["decision"] < entry;
  }

  ghost predicate IsFlat(items: seq<Json>) {
    forall i :: 0 <= i < |items| ==> items[i].Obj? && !IsChainShaped(items[i])
  }

  /** Ingestion returns a list unchanged exactly when it is a flat list of mappings. */
  lemma {:induction false} UnchangedIffFlat(items: seq<Json>)
    ensures Ingested(items) == items <==> IsFlat(items)
  {
    if items != [] {
      var front, last := items[..|items| - 1], items[|items| - 1];
      assert items == front + [last];
      UnchangedIffFlat(front);
      IngestedIsNoLonger(front);
      assert IsFlat(items) <==> IsFlat(front) && last.Obj? && !IsChainShaped(last);
      if Ingested(items) == items {
        assert |Unwrap(last)| == 1;
        assert Ingested(front) == items[..|front|] && Unwrap(last)[0] == items[|front|];
        if IsChainShaped(last) {
          DecisionIsSmaller(last);
        }
      }
    }
  }

  // ---- The head hash commits to the chain ----------------------------------------------------

  /** The two entries have one signature although they differ. No signature excludes this for all
      entries there are; results below name the very entries it would have to happen to. */
  ghost predicate ClashAt(sign: Signer, secret: string, c: seq<Fields>, i: nat, d: seq<Fields>, j: nat)
    requires i < |c| && j < |d|
  {
    Unsigned(c[i]) != Unsigned(d[j]) && sign(secret, Unsigned(c[i])) == sign(secret, Unsigned(d[j]))
  }

  /** Somewhere among the first `m` entries of one chain and the first `n` of the other there is a clash. */
  ghost predicate Clash(sign: Signer, secret: string, c: seq<Fields>, m: nat, d: seq<Fields>, n: nat)
    requires m <= |c| && n <= |d|
  {
    exists i, j :: 0 <= i < m && 0 <= j < n && ClashAt(sign, secret, c, i, d, j)
  }

  ghost predicate GenesisAt(sign: Signer, secret: string, c: seq<Fields>, i: nat)
    requires i < |c|
  {
    sign(secret, Unsigned(c[i])) == "GENESIS"
  }

  /** One of the first `m` entries is signed with the genesis marker, which no hexadecimal text is. */
  ghost predicate HitsGenesis(sign: Signer, secret: string, c: seq<Fields>, m: nat)
    requires m <= |c|
  {
    exists i :: 0 <= i < m && GenesisAt(sign, secret, c, i)
  }

  lemma {:induction false} VerifiedFrom(sign: Signer, secret: string, chain: seq<Fields>, i: nat)
    requires i <= |chain|
    ensures ChainVerdict(sign, secret, chain, i, HashBefore(chain, i)) == Verified(true) <==>
            forall k :: i <= k < |chain| ==> Good(sign, secret, chain, k)
    decreases |chain| - i
  {
    if i < |chain| {
      VerifiedFrom(sign, secret, chain, i + 1);
      assert (forall k :: i <= k < |chain| ==> Good(sign, secret, chain, k)) <==>
             Good(sign, secret, chain, i) && forall k :: i + 1 <= k < |chain| ==> Good(sign, secret, chain, k);
    }
  }

  /** The chain verifies exactly when every entry names its predecessor's hash and carries its own signature. */
  lemma VerifiedMeansAllGood(sign: Signer, secret: string, chain: seq<Fields>)
    ensures ChainVerdict(sign, secret, chain, 0, GENESIS) == Verified(true) <==> AllGood(sign, secret, chain)
  {
    VerifiedFrom(sign, secret, chain, 0);
  }

  lemma SameUnsignedSameHash(a: Fields, b: Fields)
    requires Unsigned(a) == Unsigned(b) && "hash" in a && "hash" in b && a["hash"] == b["hash"]
    ensures a == b
  {
    assert a == Unsigned(a)["hash" := a["hash"]];
    assert b == Unsigned(b)["hash" := b["hash"]];
  }

  /** Where two good chains meet in a hash, they met one entry before, and that entry is the same. */
  lemma OneStepBack(sign: Signer, secret: string, c: seq<Fields>, d: seq<Fields>, m: nat, n: nat)
    requires AllGood(sign, secret, c) && AllGood(sign, secret, d)
    requires 0 < m <= |c| && 0 < n <= |d| && HashBefore(c, m) == HashBefore(d, n)
    requires !ClashAt(sign, secret, c, m - 1, d, n - 1)
    ensures HashBefore(c, m - 1) == HashBefore(d, n - 1) && c[m - 1] == d[n - 1]
  {
    assert Good(sign, secret, c, m - 1) && Good(sign, secret, d, n - 1);
    SameUnsignedSameHash(c[m - 1], d[n - 1]);
  }

  lemma OnlyTheStartIsGenesis(sign: Signer, secret: string, c: seq<Fields>, m: nat)
    requires AllGood(sign, secret, c) && 0 < m <= |c| && HashBefore(c, m) == GENESIS
    ensures HitsGenesis(sign, secret, c, m)
  {
    assert Good(sign, secret, c, m - 1);
    assert GenesisAt(sign, secret, c, m - 1);
  }

  /** Two chains that verify and end in the same hash are equal, or two of their own entries clash, or
      one of them is signed with the genesis marker: the last hash fixes every entry. */
  lemma {:induction false} HeadCommitsToChain(sign: Signer, secret: string, c: seq<Fields>, d: seq<Fields>, m: nat, n: nat)
    requires AllGood(sign, secret, c) && AllGood(sign, secret, d)
    requires m <= |c| && n <= |d| && HashBefore(c, m) == HashBefore(d, n)
    ensures || (m == n && c[..m] == d[..n])
            || Clash(sign, secret, c, m, d, n) || HitsGenesis(sign, secret, c, m) || HitsGenesis(sign, secret, d, n)
    decreases m
  {
    if m > 0 && n > 0 {
      if !ClashAt(sign, secret, c, m - 1, d, n - 1) {
        OneStepBack(sign, secret, c, d, m, n);
        HeadCommitsToChain(sign, secret, c, d, m - 1, n - 1);
        assert c[..m] == c[..m - 1] + [c[m - 1]] && d[..n] == d[..n - 1] + [d[n - 1]];
      }
    } else if m > 0 {
      OnlyTheStartIsGenesis(sign, secret, c, m);
    } else if n > 0 {
      OnlyTheStartIsGenesis(sign, secret, d, n);
    }
  }

  // ---- The chain object --------------------------------------------------------------------

  /** A decision as the caller holds it; the caller may go on changing it. */
  class Decision {
    var fields: Fields

    constructor (fields: Fields)
      ensures this.fields == fields
    {
      this.fields := fields;
    }
  }

  /** The signed part of a new entry. */
  function NewEntry(timestamp: real, previous: string, decision: Fields): Fields {
    map["timestamp" := Num(timestamp), "previous_hash" := Str(previous), "decision" := Obj(decision)]
  }

  /** What signing a new entry gives. */
  lemma SignedEntry(timestamp: real, previous: string, decision: Fields, hash: string)
    ensures var signed := NewEntry(timestamp, previous, decision)["hash" := Str(hash)];
            && signed == map["timestamp" := Num(timestamp), "previous_hash" := Str(previous), "decision" := Obj(decision), "hash" := Str(hash)]
            && Unsigned(signed) == NewEntry(timestamp, previous, decision)
            && "hash" in signed && signed["hash"] == Str(hash)
            && "previous_hash" in signed && signed["previous_hash"] == Str(previous)
            && IsChainShaped(Obj(signed)) && signed["decision"] == Obj(decision)
  {
  }

  /** An entry that builds on the last hash extends a good chain. */
  lemma GoodGrows(sign: Signer, secret: string, chain: seq<Fields>, entry: Fields)
    requires AllGood(sign, secret, chain)
    requires "previous_hash" in entry && entry["previous_hash"] == HashBefore(chain, |chain|)
    requires "hash" in entry && entry["hash"] == Signature(sign, secret, entry)
    ensures AllGood(sign, secret, chain + [entry])
    ensures HashBefore(chain + [entry], |chain| + 1) == entry["hash"]
  {
    forall i | 0 <= i < |chain + [entry]|
      ensures Good(sign, secret, chain + [entry], i)
    {
      assert i < |chain| ==> Good(sign, secret, chain, i);
    }
  }

  lemma ShapedGrows(chain: seq<Fields>, entry: Fields)
    requires ShapedFrom(chain, 0) && IsChainShaped(Obj(entry))
    ensures ShapedFrom(chain + [entry], 0)
  {
  }

  lemma IngestedGrows(chain: seq<Fields>, entry: Fields)
    requires IsChainShaped(Obj(entry)) && entry["decision"].Obj?
    ensures Ingested(AsItems(chain + [entry])) == Ingested(AsItems(chain)) + [entry["decision"]]
  {
    var items := AsItems(chain + [entry]);
    assert items[..|chain|] == AsItems(chain) && items[|chain|] == Obj(entry);
  }

  /** The secret given, or else the one in the environment; an empty or missing one is refused. */
  function ChosenSecret(given: Option<string>, environment: Option<string>): Option<string> {
    var secret := if given == None then environment else given;
    if secret == Some("") then None else secret
  }

  predicate EndsIn(entries: seq<Fields>, hash: string) {
    HashBefore(entries, |entries|) == Str(hash)
  }

  /** The list of entries, which the chain hands out on export and goes on using. */
  class EntryList {
    var entries: seq<Fields>

    constructor ()
      ensures entries == []
    {
      entries := [];
    }
  }

  class HMACAuditChain {
    const sign: Signer
    const secret: string
    const chain: EntryList
    var previousHash: string
    /** The entries as they were when added, and the decisions in them. */
    ghost var recorded: seq<Fields>
    ghost var decisions: seq<Json>

    /** What was recorded is a good chain. The list is not mentioned: a caller who has exported it may
        have changed it. */
    ghost predicate Valid()
      reads this
    {
      && secret != ""
      && AllGood(sign, secret, recorded) && ShapedFrom(recorded, 0)
      && EndsIn(recorded, previousHash)
      && Ingested(AsItems(recorded)) == decisions
    }

    /** Nobody has changed the list. */
    ghost predicate Untouched()
      reads this, chain
    {
      chain.entries == recorded
    }

    constructor (sign: Signer, secret: string)
      requires secret != ""
      ensures Valid() && Untouched() && fresh(chain)
      ensures recorded == [] && decisions == [] && this.sign == sign && this.secret == secret
    {
      this.sign := sign;
      this.secret := secret;
      chain := new EntryList();
      previousHash := "GENESIS";
      recorded := [];
      decisions := [];
    }

    /** The entry holds a deep copy of the decision: nothing the caller does to it later reaches the chain. */
    method AddEntry(decision: Decision, now: real) returns (entryHash: string)
      requires Valid()
      modifies this, chain
      ensures Valid() && (old(Untouched()) ==> Untouched())
      ensures decisions == old(decisions) + [Obj(decision.fields)]
      ensures recorded == old(recorded) + [map["timestamp" := Num(now), "previous_hash" := Str(old(previousHash)),
                                               "decision" := Obj(decision.fields), "hash" := Str(entryHash)]]
      ensures chain.entries == old(chain.entries) + [recorded[|recorded| - 1]]
      ensures entryHash == sign(secret, map["timestamp" := Num(now), "previous_hash" := Str(old(previousHash)),
                                            "decision" := Obj(decision.fields)])
      ensures previousHash == entryHash
    {
      var entry := NewEntry(now, previousHash, decision.fields);
      entryHash := sign(secret, entry);
      var signed := entry["hash" := Str(entryHash)];
      SignedEntry(now, previousHash, decision.fields, entryHash);
      GoodGrows(sign, secret, recorded, signed);
      IngestedGrows(recorded, signed);
      ShapedGrows(recorded, signed);
      chain.entries := chain.entries + [signed];
      previousHash := entryHash;
      recorded := recorded + [signed];
      decisions := decisions + [Obj(decision.fields)];
    }

    /** After any series of additions, whatever callers have done to their decisions since, the
        sidecar's own verifier and the bridge's both accept. If a caller has changed the exported list,
        acceptance together with the last hash still vouches for every entry: a changed list that passes
        and ends in the chain's own last hash exhibits a clash with what was recorded. */
    method Verify() returns (own: Answer, bridge: bool)
      requires Valid()
      ensures Untouched() ==> own == Verified(true) && bridge
      ensures bridge ==> own == Verified(true)
      ensures own == Verified(true) <==> AllGood(sign, secret, chain.entries)
      ensures own == Verified(true) && EndsIn(chain.entries, previousHash) ==> Untouched() || Excused(chain.entries)
    {
      VerifiedMeansAllGood(sign, secret, chain.entries);
      VerifiersCompared(sign, secret, chain.entries);
      HeadVouches(chain.entries);
      own := VerifyChain(sign, secret, chain.entries);
      bridge := VerifyChainIntegrity(sign, Arr(AsItems(chain.entries)), secret);
    }

    /** Some entry of the list, or of what was recorded, clashes or is signed with the genesis marker. */
    ghost predicate Excused(entries: seq<Fields>)
      reads this
    {
      || Clash(sign, secret, entries, |entries|, recorded, |recorded|)
      || HitsGenesis(sign, secret, entries, |entries|)
      || HitsGenesis(sign, secret, recorded, |recorded|)
    }

    lemma HeadVouches(entries: seq<Fields>)
      requires Valid()
      ensures AllGood(sign, secret, entries) && EndsIn(entries, previousHash) ==> entries == recorded || Excused(entries)
    {
      if AllGood(sign, secret, entries) && EndsIn(entries, previousHash) {
        HeadCommitsToChain(sign, secret, entries, recorded, |entries|, |recorded|);
        assert entries[..|entries|] == entries && recorded[..|recorded|] == recorded;
      }
    }

    /** The source hands out the list itself. */
    method Export() returns (list: EntryList)
      ensures list == chain
    {
      return chain;
    }

    /** Ingestion of the exported list gives back exactly the decisions recorded, in order, as long as
        nobody has changed it. */
    method ExportAndIngest() returns (events: seq<Json>)
      requires Valid()
      ensures events == Ingested(AsItems(chain.entries))
      ensures Untouched() ==> events == decisions
    {
      var list := Export();
      events := IngestAuditChain(Arr(AsItems(list.entries)));
    }
  }

  /** The constructor of the source, which refuses to work without a secret. */
  method MakeChain(sign: Signer, given: Option<string>, environment: Option<string>) returns (made: Option<HMACAuditChain>)
    ensures made == None <==> given == Some("") || (given == None && environment in {None, Some("")})
    ensures made.Some? ==> fresh(made.value) && made.value.Valid() && made.value.Untouched()
    ensures made.Some? ==> Some(made.value.secret) == given || (given == None && Some(made.value.secret) == environment)
  {
    var secret := ChosenSecret(given, environment);
    if secret == None {
      return None;
    }
    var chain := new HMACAuditChain(sign, secret.value);
    return Some(chain);
  }
}
