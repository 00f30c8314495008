/** Unsigned 8-bit bytes and the bitwise XOR the encoding is built from. */
module Bytes {

  /** An unsigned 8-bit value, as `uint8_t`. */
  newtype byte = x: int | 0 <= x < 256

  function Pow2(n: nat): (p: nat)
  {
    if n == 0 then 1 else 2 * Pow2(n - 1)
  }

  /** Exclusive or of the low `n` bits of `a` and `b`, lowest bit first. */
  function XorLow(a: nat, b: nat, n: nat): (x: nat)
    ensures x < Pow2(n)
  {
    if n == 0 then 0
    else (if a % 2 == b % 2 then 0 else 1) + 2 * XorLow(a / 2, b / 2, n - 1)
  }

  /** Bitwise exclusive or of two bytes. */
  function Xor(a: byte, b: byte): (x: byte)
  {
    assert Pow2(8) == 256;
    XorLow(a as nat, b as nat, 8) as byte
  }

  /** XOR with the same value twice is the identity on `n`-bit values. */
  lemma {:induction false} XorLowCancel(a: nat, k: nat, n: nat)
    requires a < Pow2(n)
    ensures XorLow(XorLow(a, k, n), k, n) == a
  {
    if n > 0 {
      var y := XorLow(a / 2, k / 2, n - 1);
      var c := XorLow(a, k, n);
      assert c % 2 == (if a % 2 == k % 2 then 0 else 1) && c / 2 == y;
      XorLowCancel(a / 2, k / 2, n - 1);
      assert XorLow(c, k, n) == a % 2 + 2 * XorLow(y, k / 2, n - 1);
    }
  }

  /** XOR with the first operand recovers the second on `n`-bit values. */
  lemma {:induction false} XorLowRecovers(a: nat, k: nat, n: nat)
    requires k < Pow2(n)
    ensures XorLow(XorLow(a, k, n), a, n) == k
  {
    if n > 0 {
      var y := XorLow(a / 2, k / 2, n - 1);
      var c := XorLow(a, k, n);
      assert c % 2 == (if a % 2 == k % 2 then 0 else 1) && c / 2 == y;
      XorLowRecovers(a / 2, k / 2, n - 1);
      assert XorLow(c, a, n) == k % 2 + 2 * XorLow(y, a / 2, n - 1);
    }
  }

  /** XOR of a value with itself is zero. */
  lemma {:induction false} XorLowSelf(a: nat, n: nat)
    ensures XorLow(a, a, n) == 0
  {
    if n > 0 {
      XorLowSelf(a / 2, n - 1);
    }
  }

  /** XOR with the same key twice is the identity. */
  lemma XorCancel(a: byte, k: byte)
    ensures Xor(Xor(a, k), k) == a
  {
    assert Pow2(8) == 256;
    XorLowCancel(a as nat, k as nat, 8);
  }

  /** XOR with the plaintext byte recovers the key. */
  lemma XorRecoversKey(a: byte, k: byte)
    ensures Xor(Xor(a, k), a) == k
  {
    assert Pow2(8) == 256;
    XorLowRecovers(a as nat, k as nat, 8);
  }

  /** A byte XORed with itself is zero. */
  lemma XorSelf(a: byte)
    ensures Xor(a, a) == 0
  {
    XorLowSelf(a as nat, 8);
  }
}
