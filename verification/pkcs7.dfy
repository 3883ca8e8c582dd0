/**
  PKCS#7 block padding (section 6.3 of RFC 5652) for the 8-octet block, as
  `Crypto.Util.Padding.pad` and `unpad` apply it: p octets of value p are
  appended, 1 <= p <= 8, a whole block of them when the input is already aligned.
*/
module Pkcs7 {
  import opened Wrappers
  import opened Bytes
  import opened BlockCipher

  function PadLength(n: nat): (p: nat)
    ensures 1 <= p <= BLOCK_SIZE
    ensures (n + p) % BLOCK_SIZE == 0
  {
    BLOCK_SIZE - n % BLOCK_SIZE
  }

  function Pad(data: seq<byte>): (r: seq<byte>)
    ensures |r| % BLOCK_SIZE == 0
    ensures |data| < |r| <= |data| + BLOCK_SIZE
    ensures |r| == BLOCK_SIZE * (|data| / BLOCK_SIZE + 1)
    ensures r[..|data|] == data
    ensures forall i :: |data| <= i < |r| ==> r[i] as int == |r| - |data|
  {
    var p := PadLength(|data|);
    data + seq(p, _ => p as byte)
  }

  /** Why `unpad` rejects its input. */
  datatype UnpadError =
    | ZeroLength         // nothing to unpad
    | NotAligned         // not a whole number of blocks
    | PaddingIncorrect   // last octet is 0 or larger than a block
    | Pkcs7Incorrect     // the pad octets are not all equal to the last one

  function Unpad(x: seq<byte>): (r: Result<seq<byte>, UnpadError>)
    ensures r == Failure(ZeroLength) <==> |x| == 0
    ensures r == Failure(NotAligned) <==> |x| > 0 && |x| % BLOCK_SIZE != 0
    ensures r == Failure(PaddingIncorrect) <==>
      |x| > 0 && |x| % BLOCK_SIZE == 0 && (x[|x| - 1] == 0 || x[|x| - 1] as int > BLOCK_SIZE)
    ensures r.Success? ==> |x| - BLOCK_SIZE <= |r.value| < |x| && r.value == x[..|r.value|]
  {
    if |x| == 0 then Failure(ZeroLength)
    else if |x| % BLOCK_SIZE != 0 then Failure(NotAligned)
    else
      var p := x[|x| - 1] as int;
      if p < 1 || p > BLOCK_SIZE then Failure(PaddingIncorrect)
      else if x[|x| - p..] != seq(p, _ => p as byte) then Failure(Pkcs7Incorrect)
      else Success(x[..|x| - p])
  }

  /** Unpadding removes exactly what padding added, whatever the input length. */
  lemma UnpadPad(data: seq<byte>)
    ensures Unpad(Pad(data)) == Success(data)
  {
    var x := Pad(data);
    var p := PadLength(|data|);
    assert x[|x| - 1] as int == p;
    assert x[|x| - p..] == seq(p, _ => p as byte);
  }

  /** Whatever unpads successfully is the padding of what it yields, so padding
      is the only input shape `unpad` accepts. */
  lemma PadUnpad(x: seq<byte>)
    requires Unpad(x).Success?
    ensures Pad(Unpad(x).value) == x
  {
    var p := x[|x| - 1] as int;
    var data := x[..|x| - p];
    assert PadLength(|data|) == p;
    assert x == data + x[|x| - p..];
  }

  /** A pad run that is not uniform is rejected even when its last octet is in range. */
  lemma UnpadRejectsMixedRun(x: seq<byte>)
    requires |x| > 0 && |x| % BLOCK_SIZE == 0
    requires 1 <= x[|x| - 1] as int <= BLOCK_SIZE
    requires exists i :: |x| - x[|x| - 1] as int <= i < |x| && x[i] != x[|x| - 1]
    ensures Unpad(x) == Failure(Pkcs7Incorrect)
  {
    var p := x[|x| - 1] as int;
    var i :| |x| - p <= i < |x| && x[i] != x[|x| - 1];
    assert x[|x| - p..][i - (|x| - p)] != p as byte;
  }
}
