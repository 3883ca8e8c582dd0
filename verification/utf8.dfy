/**
  UTF-8 (RFC 3629), the encoding Python's `str.encode('utf-8')` applies to a
  text before it is hashed. A Python `str` may hold lone surrogate code points
  (U+D800 to U+DFFF); UTF-8 has no encoding for them and the encoder fails.
*/
module Utf8 {
  import opened Wrappers
  import opened Bytes

  type CodePoint = c: int | 0 <= c < 0x11_0000

  predicate IsSurrogate(c: CodePoint)
  {
    0xD800 <= c < 0xE000
  }

  /** One code point, in 1 to 4 octets. */
  function EncodePoint(c: CodePoint): (r: seq<byte>)
    requires !IsSurrogate(c)
    ensures 1 <= |r| <= 4
    ensures |r| == 1 <==> c < 0x80
  {
    if c < 0x80 then [c as byte]
    else if c < 0x800 then [(0xC0 + c / 64) as byte, (0x80 + c % 64) as byte]
    else if c < 0x1_0000 then
      [(0xE0 + c / 4096) as byte, (0x80 + c / 64 % 64) as byte, (0x80 + c % 64) as byte]
    else
      [(0xF0 + c / 262144) as byte, (0x80 + c / 4096 % 64) as byte,
       (0x80 + c / 64 % 64) as byte, (0x80 + c % 64) as byte]
  }

  /** The text's octets, or None when it holds a surrogate. */
  function Encode(s: seq<CodePoint>): (r: Option<seq<byte>>)
    ensures r.Some? <==> forall i :: 0 <= i < |s| ==> !IsSurrogate(s[i])
    ensures r.Some? ==> |s| <= |r.value| <= 4 * |s|
    decreases |s|
  {
    if |s| == 0 then Some([])
    else if IsSurrogate(s[0]) then None
    else
      match Encode(s[1..])
      case None => None
      case Some(rest) => Some(EncodePoint(s[0]) + rest)
  }

  // ---------------------------------------------------------------- decoding

  datatype Decoded = Decoded(point: CodePoint, width: nat)

  predicate IsContinuation(b: byte)
  {
    0x80 <= b < 0xC0
  }

  /** The code point at the front of `b` and how many octets it takes; None on
      an invalid lead or continuation octet, an overlong form, a surrogate or a
      value above U+10FFFF. */
  function DecodePoint(b: seq<byte>): (r: Option<Decoded>)
    requires |b| > 0
    ensures r.Some? ==> 1 <= r.value.width <= |b|
  {
    var b0 := b[0] as int;
    if b0 < 0x80 then Some(Decoded(b0, 1))
    else if b0 < 0xC2 then None
    else if b0 < 0xE0 then
      if |b| < 2 || !IsContinuation(b[1]) then None
      else Some(Decoded((b0 - 0xC0) * 64 + (b[1] as int - 0x80), 2))
    else if b0 < 0xF0 then
      if |b| < 3 || !IsContinuation(b[1]) || !IsContinuation(b[2]) then None
      else
        var c := (b0 - 0xE0) * 4096 + (b[1] as int - 0x80) * 64 + (b[2] as int - 0x80);
        if c < 0x800 || 0xD800 <= c < 0xE000 then None else Some(Decoded(c, 3))
    else if b0 < 0xF5 then
      if |b| < 4 || !IsContinuation(b[1]) || !IsContinuation(b[2]) || !IsContinuation(b[3]) then None
      else
        var c := (b0 - 0xF0) * 262144 + (b[1] as int - 0x80) * 4096
          + (b[2] as int - 0x80) * 64 + (b[3] as int - 0x80);
        if c < 0x1_0000 || c >= 0x11_0000 then None else Some(Decoded(c, 4))
    else None
  }

  function Decode(b: seq<byte>): Option<seq<CodePoint>>
    decreases |b|
  {
    if |b| == 0 then Some([])
    else
      match DecodePoint(b)
      case None => None
      case Some(d) =>
        match Decode(b[d.width..])
        case None => None
        case Some(rest) => Some([d.point] + rest)
  }

  // ---------------------------------------------------------------- round trip

  lemma Digits64(c: int)
    requires 0 <= c
    ensures c == c / 64 * 64 + c % 64
    ensures c / 64 == c / 4096 * 64 + c / 64 % 64
    ensures c / 4096 == c / 262144 * 64 + c / 4096 % 64
  {
  }

  lemma {:induction false} DecodePointEncodePoint(c: CodePoint, rest: seq<byte>)
    requires !IsSurrogate(c)
    ensures DecodePoint(EncodePoint(c) + rest) == Some(Decoded(c, |EncodePoint(c)|))
  {
    Digits64(c);
    var b := EncodePoint(c) + rest;
    if c < 0x80 {
    } else if c < 0x800 {
      assert b[0] as int == 0xC0 + c / 64 && b[1] as int == 0x80 + c % 64;
    } else if c < 0x1_0000 {
      assert b[0] as int == 0xE0 + c / 4096;
      assert b[1] as int == 0x80 + c / 64 % 64;
      assert b[2] as int == 0x80 + c % 64;
    } else {
      assert b[0] as int == 0xF0 + c / 262144;
      assert b[1] as int == 0x80 + c / 4096 % 64;
      assert b[2] as int == 0x80 + c / 64 % 64;
      assert b[3] as int == 0x80 + c % 64;
    }
  }

  /** Decoding the octets of a surrogate-free text gives the text back, so two
      texts with the same UTF-8 octets are the same text. */
  lemma {:induction false} DecodeEncode(s: seq<CodePoint>)
    requires Encode(s).Some?
    ensures Decode(Encode(s).value) == Some(s)
    decreases |s|
  {
    if |s| != 0 {
      var head := EncodePoint(s[0]);
      var rest := Encode(s[1..]).value;
      DecodePointEncodePoint(s[0], rest);
      DecodeEncode(s[1..]);
      var b := head + rest;
      assert Encode(s).value == b;
      assert b[|head|..] == rest;
      assert s == [s[0]] + s[1..];
    }
  }

  /** Text made only of ASCII code points is hashed as those very values. */
  lemma {:induction false} EncodeAscii(s: seq<CodePoint>)
    requires forall i :: 0 <= i < |s| ==> s[i] < 0x80
    ensures Encode(s).Some?
    ensures |Encode(s).value| == |s|
    ensures forall i :: 0 <= i < |s| ==> Encode(s).value[i] as int == s[i]
    decreases |s|
  {
    if |s| != 0 {
      EncodeAscii(s[1..]);
    }
  }
}
