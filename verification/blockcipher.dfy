/**
  Triple-DES as an abstract keyed permutation on 8-octet blocks. Its internals
  (NIST SP 800-67) are not modelled: a cipher is any pair of block functions,
  and the envelope's properties hold for every pair that are inverse to each
  other, as the encryption and decryption of a block cipher are.
*/
module BlockCipher {
  import opened Bytes

  /** Octets of key material Triple-DES takes (192 bits). */
  const KEY_SIZE: nat := 24

  /** Triple-DES block size in octets (64 bits). */
  const BLOCK_SIZE: nat := 8

  type Key = k: seq<byte> | |k| == KEY_SIZE
    witness seq(24, _ => 0 as byte)

  type Block = b: seq<byte> | |b| == BLOCK_SIZE
    witness seq(8, _ => 0 as byte)

  datatype Cipher = Cipher(encrypt: (Key, Block) -> Block, decrypt: (Key, Block) -> Block)

  /** Under every key, decryption inverts encryption and encryption inverts decryption. */
  ghost predicate IsPermutation(c: Cipher)
  {
    && (forall k: Key, b: Block :: c.decrypt(k, c.encrypt(k, b)) == b)
    && (forall k: Key, b: Block :: c.encrypt(k, c.decrypt(k, b)) == b)
  }

  /** Octet-wise exclusive or of two blocks, the chaining step of CBC. */
  function XorBlock(a: Block, b: Block): Block
  {
    seq(BLOCK_SIZE, i requires 0 <= i < BLOCK_SIZE => Xor(a[i], b[i]))
  }

  lemma XorBlockCancel(a: Block, b: Block)
    ensures XorBlock(XorBlock(a, b), b) == a
  {
    forall i | 0 <= i < BLOCK_SIZE
      ensures XorBlock(XorBlock(a, b), b)[i] == a[i]
    {
      XorCancel(a[i], b[i]);
    }
  }

  /** Chaining the same block with two different masks gives two different blocks. */
  lemma XorBlockInjective(a: Block, m1: Block, m2: Block)
    requires XorBlock(a, m1) == XorBlock(a, m2)
    ensures m1 == m2
  {
    forall i | 0 <= i < BLOCK_SIZE
      ensures m1[i] == m2[i]
    {
      assert XorBlock(a, m1)[i] == XorBlock(a, m2)[i];
      XorInjective(a[i], m1[i], m2[i]);
    }
  }
}
