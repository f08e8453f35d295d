/** Python's byte values, the integers 0 to 255, and their bitwise
    exclusive or (`^`). */
module Bytes {

  newtype byte = x: int | 0 <= x < 0x100

  function Pow2(k: nat): (p: nat)
    ensures p >= 1
  {
    if k == 0 then 1 else 2 * Pow2(k - 1)
  }

  /** The low `k` bits of `a ^ b`, least significant bit first. */
  function XorBits(a: nat, b: nat, k: nat): (r: nat)
    ensures r < Pow2(k)
  {
    if k == 0 then 0
    else (if a % 2 == b % 2 then 0 else 1) + 2 * XorBits(a / 2, b / 2, k - 1)
  }

  /** Bit `j` of `x`, counting from the least significant. */
  predicate Bit(x: nat, j: nat) {
    if j == 0 then x % 2 == 1 else Bit(x / 2, j - 1)
  }

  /** Bit `j` of a byte value. */
  predicate ByteBit(x: byte, j: nat) {
    Bit(x as nat, j)
  }

  /** `a ^ b` on two byte values: each of the eight bits is set exactly when
      it is set in one operand and not the other. */
  function XorByte(a: byte, b: byte): (r: byte)
    ensures forall j :: 0 <= j < 8 ==> (ByteBit(r, j) <==> ByteBit(a, j) != ByteBit(b, j))
  {
    assert Pow2(8) == 0x100;
    var r := XorBits(a as nat, b as nat, 8);
    forall j | 0 <= j < 8
      ensures Bit(r, j) <==> Bit(a as nat, j) != Bit(b as nat, j)
    {
      XorBitsBit(a as nat, b as nat, 8, j);
    }
    r as byte
  }

  /** Every bit below `k` of `XorBits(a, b, k)` is the exclusive or of the
      operands' bits. */
  lemma {:induction false} XorBitsBit(a: nat, b: nat, k: nat, j: nat)
    requires j < k
    ensures Bit(XorBits(a, b, k), j) <==> Bit(a, j) != Bit(b, j)
  {
    var r := XorBits(a, b, k);
    if j > 0 {
      assert r / 2 == XorBits(a / 2, b / 2, k - 1);
      XorBitsBit(a / 2, b / 2, k - 1, j - 1);
    }
  }

  /** Exclusive or with the same value twice gives back the number. */
  lemma {:induction false} XorBitsInvolution(a: nat, b: nat, k: nat)
    requires a < Pow2(k)
    ensures XorBits(XorBits(a, b, k), b, k) == a
  {
    if k > 0 {
      var r := XorBits(a, b, k);
      assert r / 2 == XorBits(a / 2, b / 2, k - 1);
      XorBitsInvolution(a / 2, b / 2, k - 1);
    }
  }

  /** Exclusive or against a common mask cancels the mask. */
  lemma {:induction false} XorBitsCancel(a: nat, b: nat, m: nat, k: nat)
    ensures XorBits(XorBits(a, m, k), XorBits(b, m, k), k) == XorBits(a, b, k)
  {
    if k > 0 {
      var x, y := XorBits(a, m, k), XorBits(b, m, k);
      assert x / 2 == XorBits(a / 2, m / 2, k - 1);
      assert y / 2 == XorBits(b / 2, m / 2, k - 1);
      XorBitsCancel(a / 2, b / 2, m / 2, k - 1);
    }
  }

  lemma XorByteInvolution(a: byte, b: byte)
    ensures XorByte(XorByte(a, b), b) == a
  {
    assert Pow2(8) == 0x100;
    XorBitsInvolution(a as nat, b as nat, 8);
  }

  lemma XorByteCancel(a: byte, b: byte, m: byte)
    ensures XorByte(XorByte(a, m), XorByte(b, m)) == XorByte(a, b)
  {
    XorBitsCancel(a as nat, b as nat, m as nat, 8);
  }
}
