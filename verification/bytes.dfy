/** Bytes as integers in 0..255, and the bitwise exclusive or that CBC chaining uses. */
module Bytes {

  newtype byte = x: int | 0 <= x < 256

  function Pow2(k: nat): (p: nat)
    ensures p >= 1
  {
    if k == 0 then 1 else 2 * Pow2(k - 1)
  }

  /** Bitwise exclusive or of two naturals, least significant bit first. */
  function BitXor(a: nat, b: nat): (r: nat)
    decreases a + b
  {
    if a == 0 && b == 0 then 0
    else (if a % 2 == b % 2 then 0 else 1) + 2 * BitXor(a / 2, b / 2)
  }

  /** Exclusive or keeps numbers of `k` bits within `k` bits. */
  lemma {:induction false} BitXorBelow(a: nat, b: nat, k: nat)
    requires a < Pow2(k) && b < Pow2(k)
    ensures BitXor(a, b) < Pow2(k)
    decreases k
  {
    if !(a == 0 && b == 0) {
      assert k > 0;
      BitXorBelow(a / 2, b / 2, k - 1);
    }
  }

  /** Exclusive or with the same value twice is the identity. */
  lemma {:induction false} BitXorCancel(a: nat, b: nat)
    ensures BitXor(BitXor(a, b), b) == a
    decreases a + b
  {
    if !(a == 0 && b == 0) {
      var r := BitXor(a, b);
      var bit := if a % 2 == b % 2 then 0 else 1;
      assert r == bit + 2 * BitXor(a / 2, b / 2);
      assert r % 2 == bit && r / 2 == BitXor(a / 2, b / 2);
      BitXorCancel(a / 2, b / 2);
    }
  }

  /** Exclusive or of two bytes. */
  function XorByte(a: byte, b: byte): (r: byte)
  {
    BitXorBelow(a as nat, b as nat, 8);
    BitXor(a as nat, b as nat) as byte
  }

  lemma XorByteCancel(a: byte, b: byte)
    ensures XorByte(XorByte(a, b), b) == a
  {
    BitXorBelow(a as nat, b as nat, 8);
    BitXorCancel(a as nat, b as nat);
  }
}
