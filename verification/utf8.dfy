/**
  UTF-8, the encoding `urllib.parse.quote` applies to a `str` before it
  percent-encodes (its default `encoding='utf-8'`, `errors='strict'`).

  A Dafny `char` is a Unicode scalar value, so every character has an
  encoding; the decoder is strict and accepts exactly the shortest forms of
  scalar values.
 */
module Utf8 {
  import opened Wrappers

  type Byte = b: int | 0 <= b < 0x100

  predicate IsContinuation(b: Byte) {
    0x80 <= b < 0xC0
  }

  /** The one to four bytes that encode `c`. Code points are split into
      six-bit groups from the low end. */
  function EncodeChar(c: char): (bs: seq<Byte>)
    ensures 1 <= |bs| <= 4
    ensures (c as int < 0x80) <==> (|bs| == 1)
    ensures |bs| == 1 ==> bs[0] == c as int
    ensures |bs| > 1 ==> 0xC2 <= bs[0] < 0xF5 && forall k | 1 <= k < |bs| :: IsContinuation(bs[k])
  {
    var cp := c as int;
    var q1, r1 := cp / 0x40, cp % 0x40;
    var q2, r2 := q1 / 0x40, q1 % 0x40;
    var q3, r3 := q2 / 0x40, q2 % 0x40;
    if cp < 0x80 then [cp]
    else if cp < 0x800 then [0xC0 + q1, 0x80 + r1]
    else if cp < 0x10000 then [0xE0 + q2, 0x80 + r2, 0x80 + r1]
    else [0xF0 + q3, 0x80 + r3, 0x80 + r2, 0x80 + r1]
  }

  /** The UTF-8 form of a whole string: the character encodings, in order. */
  function Encode(s: string): (bs: seq<Byte>)
    ensures |s| <= |bs| <= 4 * |s|
  {
    if |s| == 0 then [] else EncodeChar(s[0]) + Encode(s[1..])
  }

  /** Strict decoding of the first character of `bs`: the scalar value and the
      number of bytes it takes, or `None` for an ill-formed sequence
      (a stray continuation byte, a truncated sequence, an overlong form,
      a surrogate or a value above U+10FFFF). */
  function DecodeChar(bs: seq<Byte>): (r: Option<(char, nat)>)
    ensures r.Some? ==> 1 <= r.value.1 <= |bs|
  {
    if |bs| == 0 then None
    else
      var b0: int := bs[0];
      if b0 < 0x80 then
        Some((b0 as char, 1))
      else if 0xC2 <= b0 < 0xE0 then
        if |bs| < 2 || !IsContinuation(bs[1]) then None
        else Some((((b0 - 0xC0) * 0x40 + (bs[1] as int - 0x80)) as char, 2))
      else if 0xE0 <= b0 < 0xF0 then
        if |bs| < 3 || !IsContinuation(bs[1]) || !IsContinuation(bs[2]) then None
        else
          var cp := ((b0 - 0xE0) * 0x40 + (bs[1] as int - 0x80)) * 0x40 + (bs[2] as int - 0x80);
          if cp < 0x800 || 0xD800 <= cp < 0xE000 then None else Some((cp as char, 3))
      else if 0xF0 <= b0 < 0xF5 then
        if |bs| < 4 || !IsContinuation(bs[1]) || !IsContinuation(bs[2]) || !IsContinuation(bs[3]) then None
        else
          var cp := (((b0 - 0xF0) * 0x40 + (bs[1] as int - 0x80)) * 0x40 + (bs[2] as int - 0x80)) * 0x40 + (bs[3] as int - 0x80);
          if cp < 0x10000 || 0x110000 <= cp then None else Some((cp as char, 4))
      else None
  }

  /** Strict decoding of a whole byte sequence. */
  function Decode(bs: seq<Byte>): Option<string>
    decreases |bs|
  {
    if |bs| == 0 then Some([])
    else
      match DecodeChar(bs)
      case None => None
      case Some((c, n)) =>
        match Decode(bs[n..])
        case None => None
        case Some(rest) => Some([c] + rest)
  }

  /** Decoding reads back exactly the character that was encoded, and no more. */
  lemma DecodeEncodeChar(c: char, rest: seq<Byte>)
    ensures DecodeChar(EncodeChar(c) + rest) == Some((c, |EncodeChar(c)|))
  {
    var cp := c as int;
    var q1, r1 := cp / 0x40, cp % 0x40;
    var q2, r2 := q1 / 0x40, q1 % 0x40;
    var q3, r3 := q2 / 0x40, q2 % 0x40;
    assert cp == q1 * 0x40 + r1;
    assert q1 == q2 * 0x40 + r2;
    assert q2 == q3 * 0x40 + r3;
    var bs := EncodeChar(c) + rest;
    if cp < 0x80 {
    } else if cp < 0x800 {
      assert bs[0] == 0xC0 + q1 && bs[1] == 0x80 + r1;
    } else if cp < 0x10000 {
      assert bs[0] == 0xE0 + q2 && bs[1] == 0x80 + r2 && bs[2] == 0x80 + r1;
    } else {
      assert bs[0] == 0xF0 + q3 && bs[1] == 0x80 + r3 && bs[2] == 0x80 + r2 && bs[3] == 0x80 + r1;
    }
  }

  /** Round trip: strict decoding inverts the encoding of every string. */
  lemma {:induction false} DecodeEncode(s: string)
    ensures Decode(Encode(s)) == Some(s)
  {
    if |s| > 0 {
      var e := EncodeChar(s[0]);
      DecodeEncodeChar(s[0], Encode(s[1..]));
      assert (e + Encode(s[1..]))[|e|..] == Encode(s[1..]);
      DecodeEncode(s[1..]);
      assert [s[0]] + s[1..] == s;
    }
  }

  /** A six-bit group split off a value is recovered by division. */
  lemma SplitSixBits(q: int, r: int)
    requires 0 <= r < 0x40
    ensures (q * 0x40 + r) / 0x40 == q && (q * 0x40 + r) % 0x40 == r
  {
  }

  /** Whatever strict decoding reads from the front of `bs` is exactly the
      encoding of the character it returns. */
  lemma EncodeDecodeChar(bs: seq<Byte>)
    requires DecodeChar(bs).Some?
    ensures var (c, n) := DecodeChar(bs).value; bs[..n] == EncodeChar(c)
  {
    var (c, n) := DecodeChar(bs).value;
    var b0: int := bs[0];
    if b0 < 0x80 {
    } else if b0 < 0xE0 {
      SplitSixBits(b0 - 0xC0, bs[1] as int - 0x80);
    } else if b0 < 0xF0 {
      var q1 := (b0 - 0xE0) * 0x40 + (bs[1] as int - 0x80);
      SplitSixBits(q1, bs[2] as int - 0x80);
      SplitSixBits(b0 - 0xE0, bs[1] as int - 0x80);
    } else {
      var q2 := (b0 - 0xF0) * 0x40 + (bs[1] as int - 0x80);
      var q1 := q2 * 0x40 + (bs[2] as int - 0x80);
      SplitSixBits(q1, bs[3] as int - 0x80);
      SplitSixBits(q2, bs[2] as int - 0x80);
      SplitSixBits(b0 - 0xF0, bs[1] as int - 0x80);
    }
  }

  /** The other round trip: a byte sequence that decodes is the encoding of
      what it decodes to, so every string has exactly one UTF-8 form. */
  lemma {:induction false} EncodeDecode(bs: seq<Byte>)
    requires Decode(bs).Some?
    ensures Encode(Decode(bs).value) == bs
    decreases |bs|
  {
    if |bs| > 0 {
      var c, n := DecodeStep(bs);
      EncodeDecode(bs[n..]);
      var s := Decode(bs).value;
      assert s[0] == c && s[1..] == Decode(bs[n..]).value;
      assert bs == bs[..n] + bs[n..];
    }
  }

  /** One step of decoding a non-empty sequence that decodes: the first
      character, its encoding at the front, and the rest decoded. */
  lemma DecodeStep(bs: seq<Byte>) returns (c: char, n: nat)
    requires |bs| > 0 && Decode(bs).Some?
    ensures 1 <= n <= |bs| && bs[..n] == EncodeChar(c)
    ensures Decode(bs[n..]).Some? && Decode(bs).value == [c] + Decode(bs[n..]).value
  {
    c, n := DecodeChar(bs).value.0, DecodeChar(bs).value.1;
    EncodeDecodeChar(bs);
  }

  /** The encoding of a concatenation is the concatenation of the encodings. */
  lemma {:induction false} EncodeConcat(a: string, b: string)
    ensures Encode(a + b) == Encode(a) + Encode(b)
  {
    if |a| > 0 {
      assert (a + b)[0] == a[0] && (a + b)[1..] == a[1..] + b;
      EncodeConcat(a[1..], b);
    } else {
      assert a + b == b;
    }
  }
}
