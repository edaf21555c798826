/**
 * Bitwise exclusive or on unsigned integers, the `^` operator that
 * src/main.rs applies to two `u32` code points.
 *
 * The operator is defined bit by bit on `nat`, least significant bit first,
 * so that its laws can be proved by induction on the bits.
 */
module Bitwise {

  /** `Pow2(n)` is 2 to the power n. */
  function Pow2(n: nat): (p: nat)
    ensures p >= 1
  {
    if n == 0 then 1 else 2 * Pow2(n - 1)
  }

  /** The powers of two that bound the widths used in this model. */
  lemma Pow2Values()
    ensures Pow2(1) == 2 && Pow2(12) == 0x1000 && Pow2(15) == 0x8000
    ensures Pow2(20) == 0x10_0000 && Pow2(21) == 0x20_0000 && Pow2(32) == 0x1_0000_0000
  {
  }

  /** Bit of `a ^ b` at the lowest position. */
  function LowBit(a: nat, b: nat): nat
  {
    if a % 2 == b % 2 then 0 else 1
  }

  /** `a ^ b`: each bit of the result is set exactly when the bits of `a` and `b` differ. */
  function Xor(a: nat, b: nat): nat
    decreases a + b
  {
    if a == 0 && b == 0 then 0
    else 2 * Xor(a / 2, b / 2) + LowBit(a, b)
  }

  /** Zero is the identity of `^`. */
  lemma {:induction false} XorZero(a: nat)
    ensures Xor(a, 0) == a
    decreases a
  {
    if a != 0 {
      XorZero(a / 2);
    }
  }

  /** XOR-ing twice with the same value gives back the original: `(a ^ b) ^ b == a`. */
  lemma {:induction false} XorSelfInverse(a: nat, b: nat)
    ensures Xor(Xor(a, b), b) == a
    decreases a + b
  {
    if a != 0 || b != 0 {
      var x := Xor(a, b);
      assert x == 2 * Xor(a / 2, b / 2) + LowBit(a, b);
      assert x / 2 == Xor(a / 2, b / 2) && x % 2 == LowBit(a, b);
      XorSelfInverse(a / 2, b / 2);
      if x != 0 || b != 0 {
        assert Xor(x, b) == 2 * Xor(x / 2, b / 2) + LowBit(x, b);
      }
    }
  }

  /** `^` never sets a bit above the highest bit of its operands: for n-bit operands the result fits in n bits. */
  lemma {:induction false} XorBelowPow2(a: nat, b: nat, n: nat)
    requires a < Pow2(n) && b < Pow2(n)
    ensures Xor(a, b) < Pow2(n)
    decreases n
  {
    if a != 0 || b != 0 {
      XorBelowPow2(a / 2, b / 2, n - 1);
    }
  }

  /** When `b` lies wholly below bit k, the bits of `h * 2^k` and `b` are disjoint and `^` adds them. */
  lemma {:induction false} XorDisjoint(h: nat, b: nat, k: nat)
    requires b < Pow2(k)
    ensures Xor(h * Pow2(k), b) == h * Pow2(k) + b
    decreases k
  {
    if k == 0 {
      assert b == 0;
      XorZero(h);
    } else {
      var g := h * Pow2(k - 1);
      assert h * Pow2(k) == 2 * g;
      XorDisjoint(h, b / 2, k - 1);
      if g != 0 || b != 0 {
        assert Xor(2 * g, b) == 2 * Xor(g, b / 2) + LowBit(2 * g, b);
      }
    }
  }
}
