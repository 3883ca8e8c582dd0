/**
  Cipher block chaining (section 6.2 of NIST SP 800-38A): each plaintext block
  is combined by exclusive or with the previous ciphertext block (the IV for
  the first) before it is enciphered.
*/
module Cbc {
  import opened Bytes
  import opened BlockCipher

  /** Block `i` of an aligned octet string. */
  function BlockAt(s: seq<byte>, i: nat): Block
    requires (i + 1) * BLOCK_SIZE <= |s|
  {
    s[i * BLOCK_SIZE..(i + 1) * BLOCK_SIZE]
  }

  /** The ciphertext block that chains into block `i`: the IV for block 0. */
  function Previous(iv: Block, ct: seq<byte>, i: nat): Block
    requires i * BLOCK_SIZE <= |ct|
  {
    if i == 0 then iv else BlockAt(ct, i - 1)
  }

  function Encrypt(c: Cipher, k: Key, iv: Block, p: seq<byte>): (ct: seq<byte>)
    requires |p| % BLOCK_SIZE == 0
    ensures |ct| == |p|
    decreases |p|
  {
    if |p| == 0 then []
    else
      var first := c.encrypt(k, XorBlock(p[..BLOCK_SIZE], iv));
      first + Encrypt(c, k, first, p[BLOCK_SIZE..])
  }

  function Decrypt(c: Cipher, k: Key, iv: Block, ct: seq<byte>): (p: seq<byte>)
    requires |ct| % BLOCK_SIZE == 0
    ensures |p| == |ct|
    decreases |ct|
  {
    if |ct| == 0 then []
    else XorBlock(c.decrypt(k, ct[..BLOCK_SIZE]), iv) + Decrypt(c, k, ct[..BLOCK_SIZE], ct[BLOCK_SIZE..])
  }

  lemma BlockAtShift(head: Block, tail: seq<byte>, i: nat)
    requires 0 < i && (i + 1) * BLOCK_SIZE <= |head| + |tail|
    ensures BlockAt(head + tail, i) == BlockAt(tail, i - 1)
  {
    var s := head + tail;
    assert s[i * BLOCK_SIZE..(i + 1) * BLOCK_SIZE] == tail[(i - 1) * BLOCK_SIZE..i * BLOCK_SIZE];
  }

  /** Every ciphertext block is the encipherment of its plaintext block chained
      with the ciphertext block before it (the IV for the first). */
  lemma {:induction false} EncryptChains(c: Cipher, k: Key, iv: Block, p: seq<byte>, i: nat)
    requires |p| % BLOCK_SIZE == 0 && (i + 1) * BLOCK_SIZE <= |p|
    ensures var ct := Encrypt(c, k, iv, p);
      BlockAt(ct, i) == c.encrypt(k, XorBlock(BlockAt(p, i), Previous(iv, ct, i)))
    decreases i
  {
    var ct := Encrypt(c, k, iv, p);
    var first := c.encrypt(k, XorBlock(p[..BLOCK_SIZE], iv));
    var tail := Encrypt(c, k, first, p[BLOCK_SIZE..]);
    assert ct == first + tail;
    if i == 0 {
      assert BlockAt(ct, 0) == first;
      assert BlockAt(p, 0) == p[..BLOCK_SIZE];
    } else {
      EncryptChains(c, k, first, p[BLOCK_SIZE..], i - 1);
      BlockAtShift(first, tail, i);
      BlockAtShift(p[..BLOCK_SIZE], p[BLOCK_SIZE..], i);
      assert p == p[..BLOCK_SIZE] + p[BLOCK_SIZE..];
      if i == 1 {
        assert BlockAt(ct, 0) == first;
      } else {
        BlockAtShift(first, tail, i - 1);
      }
    }
  }

  /** Decryption needs no chaining state: plaintext block `i` is the decipherment
      of ciphertext block `i` combined with ciphertext block `i - 1` (or the IV). */
  lemma {:induction false} DecryptBlocks(c: Cipher, k: Key, iv: Block, ct: seq<byte>, i: nat)
    requires |ct| % BLOCK_SIZE == 0 && (i + 1) * BLOCK_SIZE <= |ct|
    ensures BlockAt(Decrypt(c, k, iv, ct), i) == XorBlock(c.decrypt(k, BlockAt(ct, i)), Previous(iv, ct, i))
    decreases i
  {
    var first := XorBlock(c.decrypt(k, ct[..BLOCK_SIZE]), iv);
    var tail := Decrypt(c, k, ct[..BLOCK_SIZE], ct[BLOCK_SIZE..]);
    assert Decrypt(c, k, iv, ct) == first + tail;
    if i == 0 {
      assert BlockAt(ct, 0) == ct[..BLOCK_SIZE];
    } else {
      DecryptBlocks(c, k, ct[..BLOCK_SIZE], ct[BLOCK_SIZE..], i - 1);
      BlockAtShift(first, tail, i);
      BlockAtShift(ct[..BLOCK_SIZE], ct[BLOCK_SIZE..], i);
      assert ct == ct[..BLOCK_SIZE] + ct[BLOCK_SIZE..];
      if i == 1 {
        assert BlockAt(ct, 0) == ct[..BLOCK_SIZE];
      } else {
        BlockAtShift(ct[..BLOCK_SIZE], ct[BLOCK_SIZE..], i - 1);
      }
    }
  }

  /** With a block cipher, CBC decryption under the same key and IV recovers the plaintext. */
  lemma {:induction false} DecryptEncrypt(c: Cipher, k: Key, iv: Block, p: seq<byte>)
    requires IsPermutation(c)
    requires |p| % BLOCK_SIZE == 0
    ensures Decrypt(c, k, iv, Encrypt(c, k, iv, p)) == p
    decreases |p|
  {
    if |p| != 0 {
      var x := XorBlock(p[..BLOCK_SIZE], iv);
      var first := c.encrypt(k, x);
      var ct := Encrypt(c, k, iv, p);
      assert ct == first + Encrypt(c, k, first, p[BLOCK_SIZE..]);
      assert ct[..BLOCK_SIZE] == first;
      assert ct[BLOCK_SIZE..] == Encrypt(c, k, first, p[BLOCK_SIZE..]);
      XorBlockCancel(p[..BLOCK_SIZE], iv);
      DecryptEncrypt(c, k, first, p[BLOCK_SIZE..]);
      assert p == p[..BLOCK_SIZE] + p[BLOCK_SIZE..];
    }
  }

  /** ...and CBC encryption re-creates any ciphertext from its decryption, so
      distinct ciphertexts under one key and IV never decrypt alike. */
  lemma {:induction false} EncryptDecrypt(c: Cipher, k: Key, iv: Block, ct: seq<byte>)
    requires IsPermutation(c)
    requires |ct| % BLOCK_SIZE == 0
    ensures Encrypt(c, k, iv, Decrypt(c, k, iv, ct)) == ct
    decreases |ct|
  {
    if |ct| != 0 {
      var d := c.decrypt(k, ct[..BLOCK_SIZE]);
      var first := XorBlock(d, iv);
      var p := Decrypt(c, k, iv, ct);
      assert p == first + Decrypt(c, k, ct[..BLOCK_SIZE], ct[BLOCK_SIZE..]);
      assert p[..BLOCK_SIZE] == first;
      assert p[BLOCK_SIZE..] == Decrypt(c, k, ct[..BLOCK_SIZE], ct[BLOCK_SIZE..]);
      XorBlockCancel(d, iv);
      assert c.encrypt(k, d) == ct[..BLOCK_SIZE];
      EncryptDecrypt(c, k, ct[..BLOCK_SIZE], ct[BLOCK_SIZE..]);
      assert ct == ct[..BLOCK_SIZE] + ct[BLOCK_SIZE..];
    }
  }
}
