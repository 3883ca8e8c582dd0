/**
  Base64 text encoding of octets, section 4 of RFC 4648: every 3 octets become
  4 digits of the 64-character alphabet, and a final group of 1 or 2 octets is
  completed with '='. The decoder is strict: it accepts only the alphabet, '='
  only at the end of the last group, and (section 3.5) zero pad bits, so that
  Encode and Decode are inverse bijections.
*/
module Base64 {
  import opened Wrappers
  import opened Bytes

  /** The value of one base64 digit. */
  type Sextet = v: int | 0 <= v < 64

  function DigitOf(v: Sextet): char
  {
    if v < 26 then (v + 'A' as int) as char
    else if v < 52 then (v - 26 + 'a' as int) as char
    else if v < 62 then (v - 52 + '0' as int) as char
    else if v == 62 then '+'
    else '/'
  }

  function ValueOf(c: char): Option<Sextet>
  {
    if 'A' <= c <= 'Z' then Some(c as int - 'A' as int)
    else if 'a' <= c <= 'z' then Some(c as int - 'a' as int + 26)
    else if '0' <= c <= '9' then Some(c as int - '0' as int + 52)
    else if c == '+' then Some(62)
    else if c == '/' then Some(63)
    else None
  }

  lemma ValueOfDigitOf(v: Sextet)
    ensures ValueOf(DigitOf(v)) == Some(v)
    ensures DigitOf(v) != '='
  {
  }

  lemma DigitOfValueOf(c: char)
    requires ValueOf(c).Some?
    ensures DigitOf(ValueOf(c).value) == c
  {
  }

  // ---------------------------------------------------------------- encoding

  function EncodeTriple(x: byte, y: byte, z: byte): string
  {
    var a, b, c := x as int, y as int, z as int;
    [DigitOf(a / 4), DigitOf(a % 4 * 16 + b / 16), DigitOf(b % 16 * 4 + c / 64), DigitOf(c % 64)]
  }

  function EncodePair(x: byte, y: byte): string
  {
    var a, b := x as int, y as int;
    [DigitOf(a / 4), DigitOf(a % 4 * 16 + b / 16), DigitOf(b % 16 * 4), '=']
  }

  function EncodeSingle(x: byte): string
  {
    var a := x as int;
    [DigitOf(a / 4), DigitOf(a % 4 * 16), '=', '=']
  }

  /** Base64 text of `bytes`; 4 characters for every started group of 3 octets. */
  function Encode(bytes: seq<byte>): (s: string)
    ensures |s| == 4 * ((|bytes| + 2) / 3)
    decreases |bytes|
  {
    if |bytes| == 0 then []
    else if |bytes| == 1 then EncodeSingle(bytes[0])
    else if |bytes| == 2 then EncodePair(bytes[0], bytes[1])
    else EncodeTriple(bytes[0], bytes[1], bytes[2]) + Encode(bytes[3..])
  }

  // ---------------------------------------------------------------- decoding

  function Octets(a: Sextet, b: Sextet, c: Sextet, d: Sextet): seq<byte>
  {
    var a, b, c, d := a as int, b as int, c as int, d as int;
    [(a * 4 + b / 16) as byte, (b % 16 * 16 + c / 4) as byte, (c % 4 * 64 + d) as byte]
  }

  /** A group of four digits, none of them padding. */
  function DecodeGroup(s: string): Option<seq<byte>>
    requires |s| == 4
  {
    match (ValueOf(s[0]), ValueOf(s[1]), ValueOf(s[2]), ValueOf(s[3]))
    case (Some(a), Some(b), Some(c), Some(d)) => Some(Octets(a, b, c, d))
    case _ => None
  }

  /** The last group, which may end in "==" (one octet) or "=" (two octets). */
  function DecodeFinal(s: string): Option<seq<byte>>
    requires |s| == 4
  {
    if s[2] == '=' && s[3] == '=' then
      match (ValueOf(s[0]), ValueOf(s[1]))
      case (Some(a), Some(b)) =>
        if b % 16 == 0 then Some(Octets(a, b, 0, 0)[..1]) else None
      case _ => None
    else if s[3] == '=' then
      match (ValueOf(s[0]), ValueOf(s[1]), ValueOf(s[2]))
      case (Some(a), Some(b), Some(c)) =>
        if c % 4 == 0 then Some(Octets(a, b, c, 0)[..2]) else None
      case _ => None
    else
      DecodeGroup(s)
  }

  /** Strict decoding: whole groups only, three octets per group less one per '='. */
  function Decode(s: string): (r: Option<seq<byte>>)
    ensures r.Some? ==> |s| % 4 == 0 && 4 * |r.value| <= 3 * |s| <= 4 * |r.value| + 8
    decreases |s|
  {
    if |s| % 4 != 0 then None
    else if |s| == 0 then Some([])
    else if |s| == 4 then DecodeFinal(s)
    else
      match DecodeGroup(s[..4])
      case None => None
      case Some(group) =>
        match Decode(s[4..])
        case None => None
        case Some(rest) => Some(group + rest)
  }

  // ---------------------------------------------------------------- round trips

  lemma Split4(q: int, r: int)
    requires 0 <= r < 4
    ensures (q * 4 + r) / 4 == q && (q * 4 + r) % 4 == r
  {
  }

  lemma Split16(q: int, r: int)
    requires 0 <= r < 16
    ensures (q * 16 + r) / 16 == q && (q * 16 + r) % 16 == r
  {
  }

  lemma Split64(q: int, r: int)
    requires 0 <= r < 64
    ensures (q * 64 + r) / 64 == q && (q * 64 + r) % 64 == r
  {
  }

  /** Splitting three octets into four sextets and joining them again is the identity. */
  lemma SplitJoin(x: byte, y: byte, z: byte)
    ensures var a, b, c := x as int, y as int, z as int;
      Octets(a / 4, a % 4 * 16 + b / 16, b % 16 * 4 + c / 64, c % 64) == [x, y, z]
  {
    var a, b, c := x as int, y as int, z as int;
    Split16(a % 4, b / 16);
    Split4(b % 16, c / 64);
  }

  /** Joining four sextets into three octets and splitting them again is the identity. */
  lemma JoinSplit(a: Sextet, b: Sextet, c: Sextet, d: Sextet)
    ensures var o := Octets(a, b, c, d); var x, y, z := o[0] as int, o[1] as int, o[2] as int;
      && x / 4 == a && x % 4 * 16 + y / 16 == b && y % 16 * 4 + z / 64 == c && z % 64 == d
  {
    var a, b, c, d := a as int, b as int, c as int, d as int;
    var x, y, z := a * 4 + b / 16, b % 16 * 16 + c / 4, c % 4 * 64 + d;
    Split4(a, b / 16);
    Split16(b % 16, c / 4);
    Split64(c % 4, d);
  }

  lemma TripleRoundTrip(x: byte, y: byte, z: byte)
    ensures DecodeGroup(EncodeTriple(x, y, z)) == Some([x, y, z])
    ensures DecodeFinal(EncodeTriple(x, y, z)) == Some([x, y, z])
  {
    var a, b, c := x as int, y as int, z as int;
    ValueOfDigitOf(a / 4);
    ValueOfDigitOf(a % 4 * 16 + b / 16);
    ValueOfDigitOf(b % 16 * 4 + c / 64);
    ValueOfDigitOf(c % 64);
    SplitJoin(x, y, z);
  }

  lemma PairRoundTrip(x: byte, y: byte)
    ensures DecodeFinal(EncodePair(x, y)) == Some([x, y])
  {
    var a, b := x as int, y as int;
    ValueOfDigitOf(a / 4);
    ValueOfDigitOf(a % 4 * 16 + b / 16);
    ValueOfDigitOf(b % 16 * 4);
    SplitJoin(x, y, 0);
    Split4(b % 16, 0);
    assert Octets(a / 4, a % 4 * 16 + b / 16, b % 16 * 4, 0)[..2] == [x, y];
  }

  lemma SingleRoundTrip(x: byte)
    ensures DecodeFinal(EncodeSingle(x)) == Some([x])
  {
    var a := x as int;
    ValueOfDigitOf(a / 4);
    ValueOfDigitOf(a % 4 * 16);
    SplitJoin(x, 0, 0);
    Split16(a % 4, 0);
    assert Octets(a / 4, a % 4 * 16, 0, 0)[..1] == [x];
  }

  /** A text of more than one group decodes as its first group followed by the rest. */
  lemma DecodeLonger(s: string)
    requires |s| % 4 == 0 && |s| > 4
    ensures Decode(s) ==
      if DecodeGroup(s[..4]).None? || Decode(s[4..]).None? then None
      else Some(DecodeGroup(s[..4]).value + Decode(s[4..]).value)
  {
  }

  /** Adding a group keeps a length a whole number of groups. */
  lemma MultipleOf4(n: int)
    requires n % 4 == 0
    ensures (n + 4) % 4 == 0
  {
  }

  /** Only whole groups decode. */
  lemma DecodedLength(s: string)
    requires Decode(s).Some?
    ensures |s| % 4 == 0
  {
  }

  /** A leading group of four digits decodes on its own, ahead of the rest. */
  lemma DecodeCons(g: string, t: string, gv: seq<byte>, tv: seq<byte>)
    requires |g| == 4 && DecodeGroup(g) == Some(gv)
    requires |t| > 0 && Decode(t) == Some(tv)
    ensures Decode(g + t) == Some(gv + tv)
  {
    var s := g + t;
    DecodedLength(t);
    assert |s| % 4 == 0 by { MultipleOf4(|t|); }
    assert s[..4] == g && s[4..] == t;
    DecodeLonger(s);
  }

  lemma DecodeEncodeOne(bytes: seq<byte>)
    requires |bytes| == 1
    ensures Decode(Encode(bytes)) == Some(bytes)
  {
    assert bytes == [bytes[0]];
    SingleRoundTrip(bytes[0]);
  }

  lemma DecodeEncodeTwo(bytes: seq<byte>)
    requires |bytes| == 2
    ensures Decode(Encode(bytes)) == Some(bytes)
  {
    assert bytes == [bytes[0], bytes[1]];
    PairRoundTrip(bytes[0], bytes[1]);
  }

  lemma DecodeEncodeThree(bytes: seq<byte>)
    requires |bytes| == 3
    ensures Decode(Encode(bytes)) == Some(bytes)
  {
    assert bytes == [bytes[0], bytes[1], bytes[2]];
    assert bytes[3..] == [];
    assert Encode(bytes) == EncodeTriple(bytes[0], bytes[1], bytes[2]);
    TripleRoundTrip(bytes[0], bytes[1], bytes[2]);
  }

  /** Decoding undoes encoding: no octet string is lost or altered in transport. */
  lemma {:induction false} DecodeEncode(bytes: seq<byte>)
    ensures Decode(Encode(bytes)) == Some(bytes)
    decreases |bytes|
  {
    if |bytes| == 0 {
    } else if |bytes| == 1 {
      DecodeEncodeOne(bytes);
    } else if |bytes| == 2 {
      DecodeEncodeTwo(bytes);
    } else if |bytes| == 3 {
      DecodeEncodeThree(bytes);
    } else {
      DecodeEncode(bytes[3..]);
      DecodeEncodeLonger(bytes);
    }
  }

  /** Past three octets, the first three are encoded as one group ahead of the rest. */
  lemma EncodeUnfold(bytes: seq<byte>)
    requires |bytes| > 3
    ensures Encode(bytes) == EncodeTriple(bytes[0], bytes[1], bytes[2]) + Encode(bytes[3..])
    ensures |Encode(bytes[3..])| > 0
    ensures bytes == [bytes[0], bytes[1], bytes[2]] + bytes[3..]
  {
    assert bytes == [bytes[0], bytes[1], bytes[2]] + bytes[3..];
  }

  /** Past three octets, the round trip of the rest carries over to the whole. */
  lemma DecodeEncodeLonger(bytes: seq<byte>)
    requires |bytes| > 3
    requires Decode(Encode(bytes[3..])) == Some(bytes[3..])
    ensures Decode(Encode(bytes)) == Some(bytes)
  {
    var x, y, z, rest := bytes[0], bytes[1], bytes[2], bytes[3..];
    EncodeUnfold(bytes);
    TripleRoundTrip(x, y, z);
    DecodeCons(EncodeTriple(x, y, z), Encode(rest), [x, y, z], rest);
  }

  lemma GroupCanonical(s: string)
    requires |s| == 4
    requires DecodeGroup(s).Some?
    ensures var o := DecodeGroup(s).value; |o| == 3 && EncodeTriple(o[0], o[1], o[2]) == s
  {
    var a, b, c, d := ValueOf(s[0]).value, ValueOf(s[1]).value, ValueOf(s[2]).value, ValueOf(s[3]).value;
    DigitOfValueOf(s[0]);
    DigitOfValueOf(s[1]);
    DigitOfValueOf(s[2]);
    DigitOfValueOf(s[3]);
    JoinSplit(a, b, c, d);
  }

  lemma FinalCanonical(s: string)
    requires |s| == 4
    requires DecodeFinal(s).Some?
    ensures var o := DecodeFinal(s).value;
      && 1 <= |o| <= 3
      && (|o| == 1 ==> EncodeSingle(o[0]) == s)
      && (|o| == 2 ==> EncodePair(o[0], o[1]) == s)
      && (|o| == 3 ==> EncodeTriple(o[0], o[1], o[2]) == s)
  {
    if s[2] == '=' && s[3] == '=' {
      var a, b := ValueOf(s[0]).value, ValueOf(s[1]).value;
      DigitOfValueOf(s[0]);
      DigitOfValueOf(s[1]);
      JoinSplit(a, b, 0, 0);
    } else if s[3] == '=' {
      var a, b, c := ValueOf(s[0]).value, ValueOf(s[1]).value, ValueOf(s[2]).value;
      DigitOfValueOf(s[0]);
      DigitOfValueOf(s[1]);
      DigitOfValueOf(s[2]);
      JoinSplit(a, b, c, 0);
    } else {
      GroupCanonical(s);
    }
  }

  /** Only canonical text decodes: whatever Decode accepts is exactly the
      encoding of what it returns. */
  lemma {:induction false} EncodeDecode(s: string)
    requires Decode(s).Some?
    ensures Encode(Decode(s).value) == s
    decreases |s|
  {
    if |s| == 0 {
    } else if |s| == 4 {
      FinalCanonical(s);
    } else {
      GroupCanonical(s[..4]);
      EncodeDecode(s[4..]);
      var g := DecodeGroup(s[..4]).value;
      var rest := Decode(s[4..]).value;
      var o := g + rest;
      assert Decode(s).value == o;
      assert |rest| > 0 by {
        assert |Encode(rest)| == |s| - 4 > 0;
      }
      assert o[3..] == rest;
      assert s == s[..4] + s[4..];
    }
  }

  /** Base64 text and octet strings correspond one to one. */
  lemma DecodeIff(s: string, bytes: seq<byte>)
    ensures Decode(s) == Some(bytes) <==> s == Encode(bytes)
  {
    if Decode(s) == Some(bytes) {
      EncodeDecode(s);
    }
    if s == Encode(bytes) {
      DecodeEncode(bytes);
    }
  }

  /** The number of '=' among the last two characters of a text of at least two. */
  function PadCount(s: string): nat
    requires |s| >= 2
  {
    (if s[|s| - 1] == '=' then 1 else 0) + (if s[|s| - 2] == '=' then 1 else 0)
  }

  /** The last group yields three octets, less one per '='. */
  lemma DecodeFinalSize(s: string)
    requires |s| == 4 && DecodeFinal(s).Some?
    ensures |DecodeFinal(s).value| == 3 - PadCount(s)
  {
    if !(s[3] == '=') {
      assert DecodeFinal(s) == DecodeGroup(s);
      assert ValueOf(s[2]).Some?;
    }
  }

  /** A decoded text yields exactly three octets per group, less one per '='. */
  lemma {:induction false} DecodeSize(s: string)
    requires |s| >= 4 && Decode(s).Some?
    ensures |Decode(s).value| == 3 * (|s| / 4) - PadCount(s)
    decreases |s|
  {
    DecodedLength(s);
    if |s| == 4 {
      DecodeFinalSize(s);
    } else {
      var t := s[4..];
      DecodeLonger(s);
      DecodeSize(t);
      assert t[|t| - 1] == s[|s| - 1] && t[|t| - 2] == s[|s| - 2];
      assert |t| / 4 == |s| / 4 - 1;
    }
  }
}
