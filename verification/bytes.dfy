/** Raw octets, as Python's `bytes` holds them, and their bitwise exclusive or. */
module Bytes {

  newtype byte = x: int | 0 <= x < 256

  function Pow2(n: nat): nat
  {
    if n == 0 then 1 else 2 * Pow2(n - 1)
  }

  /** Exclusive or of the low `n` bits of `a` and `b`, least significant bit first. */
  function XorBits(a: nat, b: nat, n: nat): nat
    decreases n
  {
    if n == 0 then 0 else 2 * XorBits(a / 2, b / 2, n - 1) + (a % 2 + b % 2) % 2
  }

  lemma {:induction false} XorBitsBound(a: nat, b: nat, n: nat)
    ensures XorBits(a, b, n) < Pow2(n)
    decreases n
  {
    if n != 0 {
      XorBitsBound(a / 2, b / 2, n - 1);
    }
  }

  lemma Halve(q: int, r: int)
    requires 0 <= r < 2
    ensures (2 * q + r) / 2 == q && (2 * q + r) % 2 == r
  {
  }

  lemma HalfBound(a: nat, n: nat)
    requires 0 < n && a < Pow2(n)
    ensures a / 2 < Pow2(n - 1)
  {
  }

  lemma BitCancel(x: int, y: int)
    requires 0 <= x < 2 && 0 <= y < 2
    ensures ((x + y) % 2 + y) % 2 == x
  {
  }

  /** Exclusive or with the same mask twice gives back the original bits. */
  lemma {:induction false} XorBitsCancel(a: nat, b: nat, n: nat)
    requires a < Pow2(n)
    ensures XorBits(XorBits(a, b, n), b, n) == a
    decreases n
  {
    if n != 0 {
      var high := XorBits(a / 2, b / 2, n - 1);
      var low := (a % 2 + b % 2) % 2;
      var x := XorBits(a, b, n);
      assert x == 2 * high + low;
      Halve(high, low);
      HalfBound(a, n);
      XorBitsCancel(a / 2, b / 2, n - 1);
      BitCancel(a % 2, b % 2);
      assert XorBits(x, b, n) == 2 * XorBits(high, b / 2, n - 1) + (low + b % 2) % 2;
    }
  }

  lemma {:induction false} XorBitsCommutes(a: nat, b: nat, n: nat)
    ensures XorBits(a, b, n) == XorBits(b, a, n)
    decreases n
  {
    if n != 0 {
      XorBitsCommutes(a / 2, b / 2, n - 1);
    }
  }

  function Xor(a: byte, b: byte): byte
  {
    XorBitsBound(a as nat, b as nat, 8);
    XorBits(a as nat, b as nat, 8) as byte
  }

  lemma XorCancel(a: byte, b: byte)
    ensures Xor(Xor(a, b), b) == a
    ensures Xor(a, b) == Xor(b, a)
  {
    XorBitsCancel(a as nat, b as nat, 8);
    XorBitsCommutes(a as nat, b as nat, 8);
  }

  lemma XorInjective(a: byte, m1: byte, m2: byte)
    requires Xor(a, m1) == Xor(a, m2)
    ensures m1 == m2
  {
    XorCancel(m1, a);
    XorCancel(m2, a);
    assert Xor(m1, a) == Xor(m2, a);
  }
}
