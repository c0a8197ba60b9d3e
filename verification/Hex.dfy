/** Hexadecimal text as Python's `bytes.hex` writes it and `bytes.fromhex` reads it back. */
module Hex {
  import opened Options

  type Byte = b: int | 0 <= b < 256
  type Bytes = seq<Byte>

  const DIGITS := "0123456789abcdef"

  function Digit(n: nat): char
    requires n < 16
  {
    DIGITS[n]
  }

  /** Either case is read, only lower case is written. */
  function DigitValue(c: char): (r: Option<nat>)
    ensures r.Some? ==> r.value < 16
  {
    if '0' <= c <= '9' then Some((c as int) - ('0' as int))
    else if 'a' <= c <= 'f' then Some((c as int) - ('a' as int) + 10)
    else if 'A' <= c <= 'F' then Some((c as int) - ('A' as int) + 10)
    else None
  }

  predicate IsSpace(c: char) {
    c == ' ' || '\t' <= c <= '\r'
  }

  function PairOf(b: Byte): string {
    [Digit(b / 16), Digit(b % 16)]
  }

  function ToHex(bytes: Bytes): string {
    if bytes == [] then "" else PairOf(bytes[0]) + ToHex(bytes[1..])
  }

  /** The byte that two characters spell. */
  function ByteOf(c: char, d: char): Option<Byte> {
    match (DigitValue(c), DigitValue(d))
    case (Some(hi), Some(lo)) => Some(hi * 16 + lo)
    case _ => None
  }

  function Prepend(b: Option<Byte>, rest: Option<Bytes>): Option<Bytes> {
    if b.Some? && rest.Some? then Some([b.value] + rest.value) else None
  }

  /** White space may stand between bytes; anything else that is not a pair of digits is an error. */
  function FromHex(s: string): Option<Bytes>
    decreases |s|
  {
    if s == "" then Some([])
    else if IsSpace(s[0]) then FromHex(s[1..])
    else if |s| == 1 then None
    else Prepend(ByteOf(s[0], s[1]), FromHex(s[2..]))
  }

  lemma DigitRoundTrip(n: nat)
    requires n < 16
    ensures DigitValue(Digit(n)) == Some(n) && !IsSpace(Digit(n))
  {
    assert n < 10 ==> Digit(n) as int == '0' as int + n;
    assert 10 <= n ==> Digit(n) as int == 'a' as int + n - 10;
  }

  lemma {:induction false} ReadPair(c: char, d: char, text: string)
    requires !IsSpace(c)
    ensures FromHex([c, d] + text) == Prepend(ByteOf(c, d), FromHex(text))
  {
    var longer := [c, d] + text;
    assert longer[0] == c && longer[1] == d && longer[2..] == text;
  }

  lemma {:induction false} ReadByte(b: Byte, text: string)
    ensures FromHex(PairOf(b) + text) == Prepend(Some(b), FromHex(text))
  {
    DigitRoundTrip(b / 16);
    DigitRoundTrip(b % 16);
    ReadPair(Digit(b / 16), Digit(b % 16), text);
  }

  lemma {:induction false} HexRoundTrip(bytes: Bytes)
    ensures FromHex(ToHex(bytes)) == Some(bytes)
  {
    if bytes != [] {
      HexRoundTrip(bytes[1..]);
      ReadByte(bytes[0], ToHex(bytes[1..]));
      assert bytes == [bytes[0]] + bytes[1..];
    }
  }

  // ---- What else is read ----------------------------------------------------------------

  function Upper(c: char): char {
    if 'a' <= c <= 'f' then c - 'a' + 'A' else c
  }

  function UpperCase(s: string): string {
    if s == "" then "" else [Upper(s[0])] + UpperCase(s[1..])
  }

  lemma UpperDigit(c: char)
    ensures DigitValue(Upper(c)) == DigitValue(c) && IsSpace(Upper(c)) == IsSpace(c)
  {
  }

  /** Letters may be in upper case. */
  lemma {:induction false} UpperReadsTheSame(s: string)
    ensures FromHex(UpperCase(s)) == FromHex(s) && |UpperCase(s)| == |s|
    decreases |s|
  {
    if s != "" {
      var upper := UpperCase(s);
      assert upper[0] == Upper(s[0]) && upper[1..] == UpperCase(s[1..]);
      UpperDigit(s[0]);
      UpperReadsTheSame(s[1..]);
      if |s| >= 2 {
        var rest := s[1..];
        assert upper[1] == Upper(rest[0]) && upper[2..] == UpperCase(rest[1..]) && rest[1..] == s[2..];
        UpperDigit(s[1]);
        UpperReadsTheSame(s[2..]);
      }
    }
  }

  /** The six white space characters, with codes 32 and 9 to 13, are skipped between bytes; no other
      character that is not a digit is read. */
  lemma OnlySpaceIsSkipped(c: char, s: string)
    requires DigitValue(c) == None
    ensures FromHex([c] + s) == if c as int == 32 || 9 <= c as int <= 13 then FromHex(s) else None
  {
    assert ([c] + s)[1..] == s;
  }
}
