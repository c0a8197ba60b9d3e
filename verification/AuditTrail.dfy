/** The hash-chained `AuditTrail`: what `verify_chain` accepts, what each kind of tampering does
    to its answer, and what a caller who changes a recorded object afterwards does to it.
    The keyed hash is any function from a predecessor hash and a message to bytes; messages stand
    for the sorted JSON text of an entry, so that equal messages mean equal entries. */
module AuditTrails {
  import opened Options
  import opened Hex

  /** What the serialised entry says besides the predecessor hash. */
  datatype Body = Body(timestamp: string, sequence: int, payload: string)

  /** The hashed copy of an entry: everything but its own hash. */
  datatype Message = Message(body: Body, prevHash: Option<string>)

  /** An entry as found in a list; the two hash fields may be missing. */
  datatype Entry = Entry(body: Body, prevHash: Option<string>, hash: Option<string>)

  /** What the trail computes with: the keyed hash, and how hashes are written and read as text.
      The theory holds for any faithful spelling; the trail itself uses hexadecimal. */
  datatype Scheme = Scheme(hash: (Bytes, Message) -> Bytes, write: Bytes -> string, read: string -> Option<Bytes>)

  ghost predicate Faithful(mac: Scheme) {
    forall b: Bytes :: mac.read(mac.write(b)) == Some(b)
  }

  lemma HexIsFaithful(hash: (Bytes, Message) -> Bytes)
    ensures Faithful(Scheme(hash, ToHex, FromHex))
  {
    forall b: Bytes
      ensures FromHex(ToHex(b)) == Some(b)
    {
      HexRoundTrip(b);
    }
  }

  /** `n` copies of the character zero. */
  function Zeros(n: nat): Bytes {
    seq(n, _ => 48)
  }

  const GENESIS: Bytes := Zeros(32)

  /** `verify_chain` returns no error, or one; text that is not hexadecimal raises ValueError. */
  datatype Verdict = Intact | ChainBroken(index: nat) | HashMismatch(index: nat) | ValueError(index: nat)

  function StoredHash(mac: Scheme, e: Entry): Option<Bytes> {
    (mac.read)(e.hash.GetOr(""))
  }

  /** How the entry at `index` fails when the hash before it is `prev`, if it does. */
  function Fault(mac: Scheme, e: Entry, prev: Bytes, index: nat): Verdict {
    if StoredHash(mac, e) == None then ValueError(index)
    else if e.prevHash.GetOr("") != (mac.write)(prev) then ChainBroken(index)
    else if (mac.hash)(prev, Message(e.body, e.prevHash)) != StoredHash(mac, e).value then HashMismatch(index)
    else Intact
  }

  /** Which error an entry gives: text that cannot be read comes first, then a wrong predecessor, whatever
      the hash, and a wrong hash last. */
  lemma FaultsInOrder(mac: Scheme, e: Entry, prev: Bytes, index: nat)
    ensures var stored := (mac.read)(e.hash.GetOr(""));
            && (Fault(mac, e, prev, index) == ValueError(index) <==> stored == None)
            && (Fault(mac, e, prev, index) == ChainBroken(index) <==>
                stored != None && e.prevHash.GetOr("") != (mac.write)(prev))
            && (Fault(mac, e, prev, index) == HashMismatch(index) <==>
                stored != None && e.prevHash.GetOr("") == (mac.write)(prev) &&
                stored != Some((mac.hash)(prev, Message(e.body, e.prevHash))))
  {
  }

  /** The hash the entry at position `i` must build on. */
  function HashBefore(mac: Scheme, es: seq<Entry>, i: nat): Bytes
    requires i <= |es|
  {
    if i == 0 then GENESIS
    else if StoredHash(mac, es[i - 1]).Some? then StoredHash(mac, es[i - 1]).value else []
  }

  ghost predicate Good(mac: Scheme, es: seq<Entry>, i: nat)
    requires i < |es|
  {
    Fault(mac, es[i], HashBefore(mac, es, i), i) == Intact
  }

  /** Every hash is the keyed hash of its own entry and the hash before it, from genesis on. */
  ghost predicate AllGood(mac: Scheme, es: seq<Entry>) {
    forall i :: 0 <= i < |es| ==> Good(mac, es, i)
  }

  /** The verdict on the entries from position `i` on. */
  function VerifyFrom(mac: Scheme, es: seq<Entry>, i: nat): Verdict
    requires i <= |es|
    decreases |es| - i
  {
    if i == |es| then Intact
    else
      var fault := Fault(mac, es[i], HashBefore(mac, es, i), i);
      if fault != Intact then fault else VerifyFrom(mac, es, i + 1)
  }

  function Verify(mac: Scheme, es: seq<Entry>): Verdict {
    VerifyFrom(mac, es, 0)
  }

  method VerifyEntries(mac: Scheme, es: seq<Entry>) returns (v: Verdict)
    ensures v == Verify(mac, es)
  {
    var prev := GENESIS;
    for i := 0 to |es|
      invariant prev == HashBefore(mac, es, i)
      invariant Verify(mac, es) == VerifyFrom(mac, es, i)
    {
      var entry := es[i];
      var stored := StoredHash(mac, entry);
      if stored == None {
        return ValueError(i);
      }
      if entry.prevHash.GetOr("") != (mac.write)(prev) {
        return ChainBroken(i);
      }
      if (mac.hash)(prev, Message(entry.body, entry.prevHash)) != stored.value {
        return HashMismatch(i);
      }
      prev := stored.value;
    }
    return Intact;
  }

  lemma {:induction false} SkipGood(mac: Scheme, es: seq<Entry>, i: nat, k: nat)
    requires i <= k <= |es| && forall j :: i <= j < k ==> Good(mac, es, j)
    ensures VerifyFrom(mac, es, i) == VerifyFrom(mac, es, k)
    decreases k - i
  {
    if i < k {
      assert Good(mac, es, i);
      SkipGood(mac, es, i + 1, k);
    }
  }

  /** The first entry of a good trail names as its predecessor the spelling of 32 bytes, each the character
      zero, and its own hash is computed from those. */
  lemma FirstBuildsOnGenesis(mac: Scheme, es: seq<Entry>, genesis: Bytes)
    requires es != [] && AllGood(mac, es)
    requires |genesis| == 32 && forall k :: 0 <= k < 32 ==> genesis[k] == 48
    ensures es[0].prevHash.GetOr("") == (mac.write)(genesis)
    ensures (mac.read)(es[0].hash.GetOr("")) == Some((mac.hash)(genesis, Message(es[0].body, es[0].prevHash)))
  {
    assert Good(mac, es, 0);
    assert genesis == GENESIS;
  }

  /** Otherwise the verdict is about the first entry that is not good. */
  lemma {:induction false} VerdictIsFirstFault(mac: Scheme, es: seq<Entry>, i: nat)
    requires i <= |es|
    ensures var v := VerifyFrom(mac, es, i);
            if v == Intact then forall k :: i <= k < |es| ==> Good(mac, es, k)
            else
              && i <= v.index < |es| && !Good(mac, es, v.index)
              && v == Fault(mac, es[v.index], HashBefore(mac, es, v.index), v.index)
              && forall k :: i <= k < v.index ==> Good(mac, es, k)
    decreases |es| - i
  {
    if i < |es| {
      VerdictIsFirstFault(mac, es, i + 1);
    }
  }

  /** Verification finds nothing exactly when every entry is good. */
  lemma IntactMeansAllGood(mac: Scheme, es: seq<Entry>)
    ensures Verify(mac, es) == Intact <==> AllGood(mac, es)
  {
    VerdictIsFirstFault(mac, es, 0);
    if AllGood(mac, es) {
      SkipGood(mac, es, 0, |es|);
    }
  }

  // ---- Clashes of the hash function ------------------------------------------------

  /** What goes into the hash of an entry. */
  datatype Input = Input(prev: Bytes, message: Message)

  function InputAt(mac: Scheme, es: seq<Entry>, i: nat): Input
    requires i < |es|
  {
    Input(HashBefore(mac, es, i), Message(es[i].body, es[i].prevHash))
  }

  function HashOf(mac: Scheme, input: Input): Bytes {
    (mac.hash)(input.prev, input.message)
  }

  /** The two entries have one hash although different things go into it. No hash of fixed length
      excludes this for all inputs there are; results below name the very entries it would happen to. */
  ghost predicate ClashAt(mac: Scheme, es: seq<Entry>, i: nat, fs: seq<Entry>, j: nat)
    requires i < |es| && j < |fs|
  {
    InputAt(mac, es, i) != InputAt(mac, fs, j) && HashOf(mac, InputAt(mac, es, i)) == HashOf(mac, InputAt(mac, fs, j))
  }

  /** Somewhere among the first `m` entries of one list and the first `n` of the other there is a clash. */
  ghost predicate Clash(mac: Scheme, es: seq<Entry>, m: nat, fs: seq<Entry>, n: nat)
    requires m <= |es| && n <= |fs|
  {
    exists i, j :: 0 <= i < m && 0 <= j < n && ClashAt(mac, es, i, fs, j)
  }

  ghost predicate GenesisAt(mac: Scheme, es: seq<Entry>, i: nat)
    requires i < |es|
  {
    HashOf(mac, InputAt(mac, es, i)) == GENESIS
  }

  /** One of the first `m` entries hashes to the genesis value. */
  ghost predicate HitsGenesis(mac: Scheme, es: seq<Entry>, m: nat)
    requires m <= |es|
  {
    exists i :: 0 <= i < m && GenesisAt(mac, es, i)
  }

  /** A hash that is genesis but for its last byte, which numbers the entries. */
  function NumberingHash(prev: Bytes, message: Message): Bytes {
    GENESIS[..|GENESIS| - 1] + [message.body.sequence % 48]
  }

  lemma NumberTells(prev: Bytes, m: Message, other: Bytes, k: Message)
    ensures NumberingHash(prev, m) == NumberingHash(other, k) ==> m.body.sequence % 48 == k.body.sequence % 48
    ensures NumberingHash(prev, m) != GENESIS
  {
    var n := |GENESIS| - 1;
    assert NumberingHash(prev, m)[n] == m.body.sequence % 48 && NumberingHash(other, k)[n] == k.body.sequence % 48;
    assert GENESIS[n] == 48;
  }

  lemma NumbersDoNotClash(mac: Scheme, es: seq<Entry>, i: nat, j: nat)
    requires mac.hash == NumberingHash && i < |es| && j < |es|
    requires es[i].body.sequence == i < 48 && es[j].body.sequence == j < 48
    ensures !ClashAt(mac, es, i, es, j) && !GenesisAt(mac, es, i)
  {
    var x, y := InputAt(mac, es, i), InputAt(mac, es, j);
    NumberTells(x.prev, x.message, y.prev, y.message);
    assert HashOf(mac, x) == NumberingHash(x.prev, x.message) && HashOf(mac, y) == NumberingHash(y.prev, y.message);
  }

  /** Clashes can be absent: that hash has none on recorded trails of up to 48 entries. */
  lemma SomeHashesDoNotClash(mac: Scheme, es: seq<Entry>)
    requires mac.hash == NumberingHash
    requires |es| <= 48 && forall i :: 0 <= i < |es| ==> es[i].body.sequence == i
    ensures !Clash(mac, es, |es|, es, |es|) && !HitsGenesis(mac, es, |es|)
  {
    forall i, j | 0 <= i < |es| && 0 <= j < |es|
      ensures !ClashAt(mac, es, i, es, j)
    {
      NumbersDoNotClash(mac, es, i, j);
    }
    forall i | 0 <= i < |es|
      ensures !GenesisAt(mac, es, i)
    {
      NumbersDoNotClash(mac, es, i, i);
    }
  }

  /** What a good entry says. */
  lemma GoodSays(mac: Scheme, es: seq<Entry>, i: nat)
    requires i < |es| && Good(mac, es, i)
    ensures es[i].prevHash.GetOr("") == (mac.write)(HashBefore(mac, es, i))
    ensures HashOf(mac, InputAt(mac, es, i)) == HashBefore(mac, es, i + 1)
    ensures StoredHash(mac, es[i]) == Some(HashBefore(mac, es, i + 1))
  {
  }

  // ---- The head hash commits to the whole trail ------------------------------------

  /** Entries that verify alike: the same but for the spelling of their own hash. */
  ghost predicate SameRecord(mac: Scheme, e: Entry, f: Entry) {
    e.body == f.body && e.prevHash == f.prevHash && StoredHash(mac, e) == StoredHash(mac, f)
  }

  /** Lists that agree up to `n` have the same goodness up to `n`. */
  lemma SamePast(mac: Scheme, es: seq<Entry>, fs: seq<Entry>, n: nat)
    requires n <= |es| && n <= |fs| && es[..n] == fs[..n]
    ensures HashBefore(mac, es, n) == HashBefore(mac, fs, n)
    ensures forall k :: 0 <= k < n && Good(mac, es, k) ==> Good(mac, fs, k)
  {
    forall k | 0 <= k < n && Good(mac, es, k)
      ensures Good(mac, fs, k)
    {
      assert es[k] == es[..n][k] == fs[..n][k] == fs[k];
      assert k > 0 ==> es[k - 1] == es[..n][k - 1] == fs[..n][k - 1] == fs[k - 1];
    }
    assert n > 0 ==> es[n - 1] == es[..n][n - 1] == fs[..n][n - 1] == fs[n - 1];
  }

  lemma OnlyTheStartIsGenesis(mac: Scheme, es: seq<Entry>, m: nat)
    requires AllGood(mac, es) && 0 < m <= |es| && HashBefore(mac, es, m) == GENESIS
    ensures HitsGenesis(mac, es, m)
  {
    assert Good(mac, es, m - 1);
    GoodSays(mac, es, m - 1);
    assert GenesisAt(mac, es, m - 1);
  }

  /** Where two intact trails meet in a hash, they met one entry before, and that entry is the same. */
  lemma OneStepBack(mac: Scheme, es: seq<Entry>, fs: seq<Entry>, m: nat, n: nat)
    requires AllGood(mac, es) && AllGood(mac, fs)
    requires 0 < m <= |es| && 0 < n <= |fs| && HashBefore(mac, es, m) == HashBefore(mac, fs, n)
    requires !ClashAt(mac, es, m - 1, fs, n - 1)
    ensures HashBefore(mac, es, m - 1) == HashBefore(mac, fs, n - 1)
    ensures SameRecord(mac, es[m - 1], fs[n - 1])
  {
    assert Good(mac, es, m - 1) && Good(mac, fs, n - 1);
    GoodSays(mac, es, m - 1);
    GoodSays(mac, fs, n - 1);
  }

  /** Two intact trails with the same last hash are the same trail, entry by entry, or two of their own
      entries clash, or one of them hashes to genesis: nothing in the past can be added, dropped,
      reordered or altered without changing the head. */
  lemma {:induction false} HeadCommitsToTrail(mac: Scheme, es: seq<Entry>, fs: seq<Entry>, m: nat, n: nat)
    requires AllGood(mac, es) && AllGood(mac, fs)
    requires m <= |es| && n <= |fs| && HashBefore(mac, es, m) == HashBefore(mac, fs, n)
    ensures || (m == n && forall i :: 0 <= i < m ==> SameRecord(mac, es[i], fs[i]))
            || Clash(mac, es, m, fs, n) || HitsGenesis(mac, es, m) || HitsGenesis(mac, fs, n)
    decreases m
  {
    if m > 0 && n > 0 {
      if !ClashAt(mac, es, m - 1, fs, n - 1) {
        OneStepBack(mac, es, fs, m, n);
        HeadCommitsToTrail(mac, es, fs, m - 1, n - 1);
      }
    } else if m > 0 {
      OnlyTheStartIsGenesis(mac, es, m);
    } else if n > 0 {
      OnlyTheStartIsGenesis(mac, fs, n);
    }
  }

  // ---- Single acts of tampering -------------------------------------------------------

  /** A list that agrees with an intact one up to `n` is judged by what comes after. */
  lemma JudgedFrom(mac: Scheme, es: seq<Entry>, fs: seq<Entry>, n: nat)
    requires AllGood(mac, es) && n <= |es| && n <= |fs| && es[..n] == fs[..n]
    ensures Verify(mac, fs) == VerifyFrom(mac, fs, n)
    ensures HashBefore(mac, fs, n) == HashBefore(mac, es, n)
  {
    SamePast(mac, es, fs, n);
    forall k | 0 <= k < n
      ensures Good(mac, fs, k)
    {
      assert Good(mac, es, k);
    }
    SkipGood(mac, fs, 0, n);
  }

  /** A good entry put where a different hash comes before it breaks the chain there. */
  lemma MisplacedEntry(mac: Scheme, es: seq<Entry>, i: nat, fs: seq<Entry>, j: nat)
    requires Faithful(mac) && i < |es| && Good(mac, es, i) && j < |fs| && fs[j] == es[i]
    requires HashBefore(mac, fs, j) != HashBefore(mac, es, i)
    ensures VerifyFrom(mac, fs, j) == ChainBroken(j)
  {
    GoodSays(mac, es, i);
  }

  /** The same entries on top of the same hash are judged alike, whatever lies below. */
  lemma {:induction false} SameRest(mac: Scheme, es: seq<Entry>, i: nat, fs: seq<Entry>, j: nat)
    requires AllGood(mac, es) && i <= |es| && j <= |fs| && es[i..] == fs[j..]
    requires HashBefore(mac, es, i) == HashBefore(mac, fs, j)
    ensures VerifyFrom(mac, fs, j) == Intact
    decreases |fs| - j
  {
    if j < |fs| {
      assert es[i] == es[i..][0] == fs[j..][0] == fs[j];
      assert es[i + 1..] == es[i..][1..] == fs[j..][1..] == fs[j + 1..];
      assert Good(mac, es, i);
      SameRest(mac, es, i + 1, fs, j + 1);
    }
  }

  /** An entry's content is changed: whatever becomes of the entries after it, the one error reported
      is there, unless the old and the new content have the same hash in that place; then, and only
      then, it goes by unnoticed. */
  lemma ChangedBody(mac: Scheme, es: seq<Entry>, fs: seq<Entry>, i: nat, body: Body)
    requires AllGood(mac, es) && i < |es|
    requires i < |fs| && fs[..i] == es[..i] && fs[i] == es[i].(body := body)
    ensures Verify(mac, fs) ==
            if HashOf(mac, InputAt(mac, es, i).(message := Message(body, es[i].prevHash))) == HashOf(mac, InputAt(mac, es, i))
            then VerifyFrom(mac, fs, i + 1)
            else HashMismatch(i)
  {
    JudgedFrom(mac, es, fs, i);
    assert Good(mac, es, i);
    GoodSays(mac, es, i);
  }

  /** An entry is dropped from before the end: the entry after it no longer fits, unless the
      dropped entry's hash was also the one before it. */
  lemma DroppedEntry(mac: Scheme, es: seq<Entry>, i: nat)
    requires Faithful(mac) && AllGood(mac, es) && i < |es| - 1
    ensures Verify(mac, es[..i] + es[i + 1..]) ==
            if HashBefore(mac, es, i) == HashBefore(mac, es, i + 1) then Intact else ChainBroken(i)
  {
    var fs := es[..i] + es[i + 1..];
    assert fs[..i] == es[..i] && fs[i..] == es[i + 1..];
    JudgedFrom(mac, es, fs, i);
    if HashBefore(mac, es, i) == HashBefore(mac, es, i + 1) {
      SameRest(mac, es, i + 1, fs, i);
    } else {
      assert Good(mac, es, i + 1);
      MisplacedEntry(mac, es, i + 1, fs, i);
    }
  }

  /** An entry is slipped in before the end. If it does not itself fit there, that is the error; if
      it does (its maker held the key), the entry after it breaks instead, unless the two hashes agree. */
  lemma InsertedEntry(mac: Scheme, es: seq<Entry>, i: nat, x: Entry)
    requires Faithful(mac) && AllGood(mac, es) && i < |es|
    ensures var own := Fault(mac, x, HashBefore(mac, es, i), i);
            Verify(mac, es[..i] + [x] + es[i..]) ==
            if own != Intact then own
            else if StoredHash(mac, x) == Some(HashBefore(mac, es, i)) then Intact
            else ChainBroken(i + 1)
  {
    var fs := es[..i] + [x] + es[i..];
    assert fs[..i] == es[..i] && fs[i] == x && fs[i + 1..] == es[i..];
    JudgedFrom(mac, es, fs, i);
    if Fault(mac, x, HashBefore(mac, es, i), i) == Intact {
      assert VerifyFrom(mac, fs, i) == VerifyFrom(mac, fs, i + 1);
      if StoredHash(mac, x) == Some(HashBefore(mac, es, i)) {
        SameRest(mac, es, i, fs, i + 1);
      } else {
        assert Good(mac, es, i) && fs[i + 1] == es[i..][0];
        MisplacedEntry(mac, es, i, fs, i + 1);
      }
    }
  }

  /** Two neighbours change places: the later one breaks in the earlier one's place. */
  lemma SwappedNeighbours(mac: Scheme, es: seq<Entry>, i: nat)
    requires Faithful(mac) && AllGood(mac, es) && i + 1 < |es| && HashBefore(mac, es, i) != HashBefore(mac, es, i + 1)
    ensures Verify(mac, es[i := es[i + 1]][i + 1 := es[i]]) == ChainBroken(i)
  {
    var fs := es[i := es[i + 1]][i + 1 := es[i]];
    assert fs[..i] == es[..i];
    JudgedFrom(mac, es, fs, i);
    assert Good(mac, es, i + 1);
    MisplacedEntry(mac, es, i + 1, fs, i);
  }

  /** In a recorded trail, where sequence numbers differ, the exceptions above are the clashes: the
      hashes around an entry coincide exactly when it clashes with the entry before it or, as the first
      entry, hashes to genesis. */
  lemma RecordedHashesDiffer(mac: Scheme, es: seq<Entry>, i: nat)
    requires AllGood(mac, es) && i < |es|
    requires i > 0 ==> es[i].body.sequence != es[i - 1].body.sequence
    ensures HashBefore(mac, es, i) == HashBefore(mac, es, i + 1) <==>
            if i == 0 then GenesisAt(mac, es, 0) else ClashAt(mac, es, i - 1, es, i)
  {
    assert Good(mac, es, i);
    GoodSays(mac, es, i);
    if i > 0 {
      assert Good(mac, es, i - 1);
      GoodSays(mac, es, i - 1);
    }
  }

  /** Cutting entries off the end goes unnoticed. */
  lemma TruncationIsUnseen(mac: Scheme, es: seq<Entry>, k: nat)
    requires AllGood(mac, es) && k <= |es|
    ensures Verify(mac, es[..k]) == Intact
  {
    JudgedFrom(mac, es, es[..k], k);
  }

  /** So does rewriting an entry's own hash in another spelling of the same bytes. */
  lemma RespelledHash(mac: Scheme, es: seq<Entry>, i: nat, text: string)
    requires AllGood(mac, es) && i < |es| && mac.read(text) == StoredHash(mac, es[i])
    ensures Verify(mac, es[i := es[i].(hash := Some(text))]) == Intact
  {
    var fs := es[i := es[i].(hash := Some(text))];
    JudgedFrom(mac, es, fs, i);
    assert Good(mac, es, i);
    assert es[i + 1..] == fs[i + 1..];
    SameRest(mac, es, i + 1, fs, i + 1);
  }

  // ---- The trail ------------------------------------------------------------------------

  /** A caller's object: the trail keeps a reference to it, not a copy. */
  class Payload {
    var text: string

    constructor (text: string)
      ensures this.text == text
    {
      this.text := text;
    }
  }

  /** A stored record. */
  datatype Stored = Stored(timestamp: string, sequence: nat, prevHash: string, payload: Payload, hash: string)

  class AuditTrail {
    const mac: Scheme
    var records: seq<Stored>
    var lastHash: Bytes
    /** The text each payload had when it was recorded. */
    ghost var recorded: seq<string>

    function PayloadsOf(): set<Payload>
      reads this
    {
      set r | r in records :: r.payload
    }

    /** What the payloads say now. */
    function Texts(): (texts: seq<string>)
      reads this, PayloadsOf()
      ensures |texts| == |records|
    {
      seq(|records|, i requires 0 <= i < |records| reads this, PayloadsOf() => records[i].payload.text)
    }

    ghost predicate Valid()
      reads this
    {
      && Faithful(mac)
      && |recorded| == |records|
      && AllGood(mac, Compose(records, recorded))
      && lastHash == HashBefore(mac, Compose(records, recorded), |records|)
      && forall i :: 0 <= i < |records| ==> records[i].sequence == i
    }

    constructor (hash: (Bytes, Message) -> Bytes)
      ensures Valid() && records == [] && mac == Scheme(hash, ToHex, FromHex)
    {
      mac := Scheme(hash, ToHex, FromHex);
      records := [];
      lastHash := GENESIS;
      recorded := [];
      HexIsFaithful(hash);
    }

    method Record(payload: Payload, timestamp: string) returns (r: Stored)
      requires Valid()
      modifies this
      ensures Valid()
      ensures records == old(records) + [r] && recorded == old(recorded) + [payload.text]
      ensures r.payload == payload && r.timestamp == timestamp && r.sequence == |old(records)|
    {
      var body := Body(timestamp, |records|, payload.text);
      var prev := mac.write(lastHash);
      var entryHash := mac.hash(lastHash, Message(body, Some(prev)));
      r := Stored(timestamp, |records|, prev, payload, mac.write(entryHash));
      ghost var es := Compose(records, recorded);
      lastHash := entryHash;
      records := records + [r];
      recorded := recorded + [payload.text];
      ghost var fs := Compose(records, recorded);
      assert fs[..|es|] == es;
      SamePast(mac, es, fs, |es|);
      forall i | 0 <= i < |fs|
        ensures Good(mac, fs, i)
      {
        if i < |es| {
          assert Good(mac, es, i);
        }
      }
    }

    /** No caller has changed any of the first `k` payloads since it was recorded. */
    ghost predicate Untouched(k: nat)
      requires |recorded| == |records| && k <= |records|
      reads this, PayloadsOf()
    {
      forall i :: 0 <= i < k ==> records[i].payload.text == recorded[i]
    }

    /** Hashed as it is now in its place, the record gives the hash it was recorded with. */
    ghost predicate HashedAlike(i: nat)
      requires |recorded| == |records| && i < |records|
      reads this, PayloadsOf()
    {
      var es := Compose(records, recorded);
      var now := Message(es[i].body.(payload := records[i].payload.text), es[i].prevHash);
      HashOf(mac, InputAt(mac, es, i).(message := now)) == HashOf(mac, InputAt(mac, es, i))
    }

    /** Verification of what the trail holds now: intact if no recorded payload has been changed since;
        otherwise the first changed one is the error, unless its old and new text hash alike there. */
    method VerifyChain() returns (v: Verdict)
      requires Valid()
      ensures v == Verify(mac, Compose(records, Texts()))
      ensures Untouched(|records|) ==> v == Intact
      ensures forall i :: 0 <= i < |records| && Untouched(i) ==> (v == HashMismatch(i) <==> !HashedAlike(i))
    {
      var texts := Texts();
      var fs := Compose(records, texts);
      v := VerifyEntries(mac, fs);
      assert Texts() == texts;
      ghost var es := Compose(records, recorded);
      if Untouched(|records|) {
        assert fs == es;
        IntactMeansAllGood(mac, es);
      }
      forall i | 0 <= i < |records| && Untouched(i)
        ensures v == HashMismatch(i) <==> !HashedAlike(i)
      {
        assert fs[..i] == es[..i];
        ChangedBody(mac, es, fs, i, fs[i].body);
        VerdictIsFirstFault(mac, fs, i + 1);
      }
    }

    method Clear()
      requires Faithful(mac)
      modifies this
      ensures Valid() && records == []
    {
      records := [];
      lastHash := GENESIS;
      recorded := [];
    }
  }

  /** The entries that serialising `records` with these payload texts gives. */
  function Compose(records: seq<Stored>, texts: seq<string>): (es: seq<Entry>)
    requires |texts| == |records|
    ensures |es| == |records|
  {
    seq(|records|, i requires 0 <= i < |records| =>
      Entry(Body(records[i].timestamp, records[i].sequence, texts[i]), Some(records[i].prevHash), Some(records[i].hash)))
  }
}
