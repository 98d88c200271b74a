/**
  Percent-encoding as done by Python's `urllib.parse.quote(s)` with its default
  arguments: the string is encoded as UTF-8 and every byte outside the
  unreserved set of section 2.3 of RFC 3986 (`A-Z a-z 0-9 - . _ ~`) and the
  default safe character `/` is written as `%XX` with upper-case hexadecimal
  digits (section 2.1 of RFC 3986).
 */
module PercentEncoding {
  import opened Wrappers
  import opened Strings
  import Utf8

  /** Characters `quote` leaves as they are. */
  predicate IsSafeChar(c: char) {
    || 'A' <= c <= 'Z' || 'a' <= c <= 'z' || '0' <= c <= '9'
    || c == '-' || c == '.' || c == '_' || c == '~'
    || c == '/'
  }

  predicate IsSafeByte(b: Utf8.Byte) {
    b < 0x80 && IsSafeChar(b as char)
  }

  predicate IsUpperHex(c: char) {
    '0' <= c <= '9' || 'A' <= c <= 'F'
  }

  function HexDigit(n: int): (c: char)
    requires 0 <= n < 16
    ensures IsUpperHex(c)
  {
    if n < 10 then ('0' as int + n) as char else ('A' as int + n - 10) as char
  }

  /** The value of a hexadecimal digit of either case. */
  function HexValue(c: char): Option<int> {
    if '0' <= c <= '9' then Some(c as int - '0' as int)
    else if 'A' <= c <= 'F' then Some(c as int - 'A' as int + 10)
    else if 'a' <= c <= 'f' then Some(c as int - 'a' as int + 10)
    else None
  }

  lemma HexValueDigit(n: int)
    requires 0 <= n < 16
    ensures HexValue(HexDigit(n)) == Some(n)
  {
  }

  /** An upper-case digit is the digit of its value. */
  lemma HexDigitValue(c: char)
    requires IsUpperHex(c)
    ensures HexValue(c).Some? && 0 <= HexValue(c).value < 16 && HexDigit(HexValue(c).value) == c
  {
  }

  /** The text `quote` emits for one byte. */
  function EscapeByte(b: Utf8.Byte): string {
    if IsSafeByte(b) then [b as char] else ['%', HexDigit(b / 16), HexDigit(b % 16)]
  }

  function QuoteBytes(bs: seq<Utf8.Byte>): string {
    if |bs| == 0 then [] else EscapeByte(bs[0]) + QuoteBytes(bs[1..])
  }

  /** The byte an escape triplet `%XY` with upper-case digits stands for. */
  function TripletByte(hi: char, lo: char): Utf8.Byte
    requires IsUpperHex(hi) && IsUpperHex(lo)
  {
    HexValue(hi).value * 16 + HexValue(lo).value
  }

  /** The shape of `quote`'s output: safe characters, and `%XX` triplets with
      upper-case digits for the bytes that are not safe; nothing else. */
  predicate WellEncoded(s: string)
    decreases |s|
  {
    || |s| == 0
    || (IsSafeChar(s[0]) && WellEncoded(s[1..]))
    || (&& |s| >= 3 && s[0] == '%' && IsUpperHex(s[1]) && IsUpperHex(s[2])
        && !IsSafeByte(TripletByte(s[1], s[2])) && WellEncoded(s[3..]))
  }

  /** Strict percent-decoding to bytes: `%` must start a triplet of two
      hexadecimal digits, and any other character must be ASCII. */
  function PercentDecode(s: string): Option<seq<Utf8.Byte>>
    decreases |s|
  {
    if |s| == 0 then Some([])
    else if s[0] == '%' then
      if |s| < 3 then None
      else
        match (HexValue(s[1]), HexValue(s[2]), PercentDecode(s[3..]))
        case (Some(hi), Some(lo), Some(rest)) =>
          assert 0 <= hi < 16 && 0 <= lo < 16;
          Some([hi * 16 + lo] + rest)
        case _ => None
    else if s[0] as int < 0x80 then
      match PercentDecode(s[1..])
      case Some(rest) => Some([s[0] as int] + rest)
      case None => None
    else None
  }

  /** Percent-decoding followed by strict UTF-8 decoding. */
  function Unquote(s: string): Option<string> {
    match PercentDecode(s)
    case None => None
    case Some(bs) => Utf8.Decode(bs)
  }

  /** `urllib.parse.quote(s)`: the percent-encoded form of `s` is well formed,
      free of whitespace, and decodes back to `s`. */
  function Quote(s: string): (r: string)
    ensures WellEncoded(r)
    ensures NoSpace(r)
    ensures Unquote(r) == Some(s)
  {
    var bs := Utf8.Encode(s);
    var r := QuoteBytes(bs);
    QuoteBytesWellEncoded(bs);
    WellEncodedNoSpace(r);
    QuoteBytesRoundTrip(bs);
    Utf8.DecodeEncode(s);
    r
  }

  lemma {:induction false} QuoteBytesWellEncoded(bs: seq<Utf8.Byte>)
    ensures WellEncoded(QuoteBytes(bs))
  {
    if |bs| > 0 {
      var e := EscapeByte(bs[0]);
      var rest := QuoteBytes(bs[1..]);
      QuoteBytesWellEncoded(bs[1..]);
      assert (e + rest)[|e|..] == rest;
      if !IsSafeByte(bs[0]) {
        HexValueDigit(bs[0] / 16);
        HexValueDigit(bs[0] % 16);
        assert TripletByte(e[1], e[2]) == bs[0];
      }
    }
  }

  lemma {:induction false} WellEncodedNoSpace(s: string)
    requires WellEncoded(s)
    ensures NoSpace(s)
    decreases |s|
  {
    if |s| > 0 {
      if IsSafeChar(s[0]) && WellEncoded(s[1..]) {
        WellEncodedNoSpace(s[1..]);
        assert forall i | 1 <= i < |s| :: s[i] == s[1..][i - 1];
      } else {
        WellEncodedNoSpace(s[3..]);
        assert forall i | 3 <= i < |s| :: s[i] == s[3..][i - 3];
      }
    }
  }

  /** Decoding the escape of one byte yields that byte, whatever follows. */
  lemma DecodeEscapeByte(b: Utf8.Byte, rest: string)
    ensures PercentDecode(EscapeByte(b) + rest) ==
      match PercentDecode(rest)
      case Some(tail) => Some([b] + tail)
      case None => None
  {
    var e := EscapeByte(b);
    var s := e + rest;
    assert s[|e|..] == rest;
    if !IsSafeByte(b) {
      HexValueDigit(b / 16);
      HexValueDigit(b % 16);
      assert b / 16 * 16 + b % 16 == b;
    }
  }

  /** Round trip on bytes: percent-decoding inverts the escaping. */
  lemma {:induction false} QuoteBytesRoundTrip(bs: seq<Utf8.Byte>)
    ensures PercentDecode(QuoteBytes(bs)) == Some(bs)
  {
    if |bs| > 0 {
      DecodeEscapeByte(bs[0], QuoteBytes(bs[1..]));
      QuoteBytesRoundTrip(bs[1..]);
      assert [bs[0]] + bs[1..] == bs;
    }
  }

  /** A string made of safe characters only is emitted unchanged. */
  lemma {:induction false} QuoteSafeIdentity(s: string)
    requires forall i | 0 <= i < |s| :: IsSafeChar(s[i])
    ensures Quote(s) == s
  {
    if |s| > 0 {
      QuoteSafeIdentity(s[1..]);
      var e := Utf8.EncodeChar(s[0]);
      assert Utf8.Encode(s) == e + Utf8.Encode(s[1..]);
      assert e == [s[0] as int];
      assert QuoteBytes(Utf8.Encode(s)) == EscapeByte(s[0] as int) + QuoteBytes(Utf8.Encode(s[1..]));
      assert [s[0]] + s[1..] == s;
    }
  }

  /** Escaping a concatenation escapes each part. */
  lemma {:induction false} QuoteBytesConcat(x: seq<Utf8.Byte>, y: seq<Utf8.Byte>)
    ensures QuoteBytes(x + y) == QuoteBytes(x) + QuoteBytes(y)
  {
    if |x| > 0 {
      assert (x + y)[0] == x[0] && (x + y)[1..] == x[1..] + y;
      QuoteBytesConcat(x[1..], y);
    } else {
      assert x + y == y;
    }
  }

  /** `quote` works piecewise: the encoding of a concatenation is the
      concatenation of the encodings. */
  lemma QuoteConcat(a: string, b: string)
    ensures Quote(a + b) == Quote(a) + Quote(b)
  {
    Utf8.EncodeConcat(a, b);
    QuoteBytesConcat(Utf8.Encode(a), Utf8.Encode(b));
  }

  /** Escaping what a well-formed encoding decodes to gives the encoding back. */
  lemma {:induction false} QuoteBytesOfDecode(s: string)
    requires WellEncoded(s) && PercentDecode(s).Some?
    ensures QuoteBytes(PercentDecode(s).value) == s
    decreases |s|
  {
    if |s| > 0 {
      var bs := PercentDecode(s).value;
      var k := if IsSafeChar(s[0]) && WellEncoded(s[1..]) then 1 else 3;
      DecodeStep(s, k);
      QuoteBytesOfDecode(s[k..]);
      assert bs[1..] == PercentDecode(s[k..]).value;
      assert s == s[..k] + s[k..];
    }
  }

  /** The first unit of a well-formed encoding, `k` characters long, is the
      escape of the first decoded byte, and the rest decodes to the rest. */
  lemma DecodeStep(s: string, k: nat)
    requires |s| > 0 && WellEncoded(s) && PercentDecode(s).Some?
    requires k == if IsSafeChar(s[0]) && WellEncoded(s[1..]) then 1 else 3
    ensures k <= |s| && WellEncoded(s[k..]) && PercentDecode(s[k..]).Some?
    ensures var bs := PercentDecode(s).value;
      |bs| > 0 && EscapeByte(bs[0]) == s[..k] && bs[1..] == PercentDecode(s[k..]).value
  {
    if k == 1 {
      SafeStep(s);
    } else {
      TripletStep(s);
    }
  }

  /** A safe character decodes to its own code, which escapes to itself. */
  lemma SafeStep(s: string)
    requires |s| > 0 && IsSafeChar(s[0]) && PercentDecode(s).Some?
    ensures PercentDecode(s[1..]).Some?
    ensures var bs := PercentDecode(s).value;
      |bs| > 0 && EscapeByte(bs[0]) == s[..1] && bs[1..] == PercentDecode(s[1..]).value
  {
    var b: Utf8.Byte := s[0] as int;
    assert s[0] != '%' && IsSafeByte(b);
    assert PercentDecode(s) == Some([b] + PercentDecode(s[1..]).value);
  }

  /** A triplet for a byte that is not safe is exactly that byte's escape. */
  lemma TripletStep(s: string)
    requires |s| >= 3 && s[0] == '%' && IsUpperHex(s[1]) && IsUpperHex(s[2])
    requires !IsSafeByte(TripletByte(s[1], s[2])) && PercentDecode(s).Some?
    ensures PercentDecode(s[3..]).Some?
    ensures var bs := PercentDecode(s).value;
      |bs| > 0 && EscapeByte(bs[0]) == s[..3] && bs[1..] == PercentDecode(s[3..]).value
  {
    HexDigitValue(s[1]);
    HexDigitValue(s[2]);
    var hi, lo := HexValue(s[1]).value, HexValue(s[2]).value;
    var b := TripletByte(s[1], s[2]);
    assert b / 16 == hi && b % 16 == lo;
    assert PercentDecode(s) == Some([b] + PercentDecode(s[3..]).value);
    assert EscapeByte(b) == ['%', s[1], s[2]];
  }

  /** `quote(x)` is the only well-formed encoding that decodes to `x`. */
  lemma QuoteUnique(x: string, e: string)
    requires WellEncoded(e) && Unquote(e) == Some(x)
    ensures e == Quote(x)
  {
    var bs := PercentDecode(e).value;
    Utf8.EncodeDecode(bs);
    QuoteBytesOfDecode(e);
  }
}
