/**
  Base16 text of octets (section 8 of RFC 4648) in lower case, which is how
  Python's `hexdigest()` renders a digest: two digits per octet, high nibble first.
*/
module Hex {
  import opened Wrappers
  import opened Bytes

  predicate IsLowerHexDigit(c: char)
  {
    '0' <= c <= '9' || 'a' <= c <= 'f'
  }

  function DigitOf(v: int): char
    requires 0 <= v < 16
  {
    if v < 10 then (v + '0' as int) as char else (v - 10 + 'a' as int) as char
  }

  /** Digit value of either case; decoding exists to show that the rendering loses nothing. */
  function ValueOf(c: char): Option<int>
  {
    if '0' <= c <= '9' then Some(c as int - '0' as int)
    else if 'a' <= c <= 'f' then Some(c as int - 'a' as int + 10)
    else if 'A' <= c <= 'F' then Some(c as int - 'A' as int + 10)
    else None
  }

  function Encode(bytes: seq<byte>): (s: string)
    ensures |s| == 2 * |bytes|
    ensures forall i :: 0 <= i < |s| ==> IsLowerHexDigit(s[i])
    decreases |bytes|
  {
    if |bytes| == 0 then []
    else [DigitOf(bytes[0] as int / 16), DigitOf(bytes[0] as int % 16)] + Encode(bytes[1..])
  }

  function Decode(s: string): Option<seq<byte>>
    decreases |s|
  {
    if |s| == 0 then Some([])
    else if |s| == 1 then None
    else
      match (ValueOf(s[0]), ValueOf(s[1]), Decode(s[2..]))
      case (Some(hi), Some(lo), Some(rest)) =>
        assert 0 <= hi < 16 && 0 <= lo < 16;
        Some([(hi * 16 + lo) as byte] + rest)
      case _ => None
  }

  lemma ByteRoundTrip(b: byte)
    ensures ValueOf(DigitOf(b as int / 16)) == Some(b as int / 16)
    ensures ValueOf(DigitOf(b as int % 16)) == Some(b as int % 16)
    ensures (b as int / 16 * 16 + b as int % 16) as byte == b
  {
  }

  /** The hex text determines the octets: decoding the rendering gives them back. */
  lemma {:induction false} DecodeEncode(bytes: seq<byte>)
    ensures Decode(Encode(bytes)) == Some(bytes)
    decreases |bytes|
  {
    if |bytes| != 0 {
      var s := Encode(bytes);
      ByteRoundTrip(bytes[0]);
      DecodeEncode(bytes[1..]);
      assert s[2..] == Encode(bytes[1..]);
      assert bytes == [bytes[0]] + bytes[1..];
    }
  }
}
