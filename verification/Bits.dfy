/** Right shift and exclusive or on natural numbers, and why an xor-shift loses nothing. */
module Bits {

  function Pow2(k: nat): (r: nat)
    ensures r > 0
  {
    if k == 0 then 1 else 2 * Pow2(k - 1)
  }

  /** The sizes of 16-, 32- and 64-bit words. */
  lemma Pow2Widths()
    ensures Pow2(16) == 0x1_0000 && Pow2(32) == 0x1_0000_0000
    ensures Pow2(64) == 0x1_0000_0000_0000_0000
  {
    Pow2Byte(0); Pow2Byte(8); Pow2Byte(16); Pow2Byte(24);
    Pow2Byte(32); Pow2Byte(40); Pow2Byte(48); Pow2Byte(56);
  }

  lemma Pow2Byte(k: nat)
    ensures Pow2(k + 8) == 256 * Pow2(k)
  {
    assert Pow2(k + 2) == 4 * Pow2(k);
    assert Pow2(k + 4) == 4 * Pow2(k + 2);
    assert Pow2(k + 6) == 4 * Pow2(k + 4);
  }

  /** `x >> k`. */
  function Shr(x: nat, k: nat): (r: nat)
    ensures r <= x
    decreases k
  {
    if k == 0 then x else Shr(x / 2, k - 1)
  }

  /** `a ^ b`. */
  function Xor(a: nat, b: nat): (r: nat) {
    if a == 0 && b == 0 then 0
    else 2 * Xor(a / 2, b / 2) + (a + b) % 2
  }

  lemma {:induction false} XorBound(a: nat, b: nat, k: nat)
    requires a < Pow2(k) && b < Pow2(k)
    ensures Xor(a, b) < Pow2(k)
  {
    if k > 0 {
      XorBound(a / 2, b / 2, k - 1);
    }
  }

  /** The lowest bit and the rest of an exclusive or. */
  lemma XorParts(a: nat, b: nat)
    ensures Xor(a, b) / 2 == Xor(a / 2, b / 2) && Xor(a, b) % 2 == (a + b) % 2
  {
  }

  lemma SameParity(a: nat, b: nat, c: nat)
    requires (a + b) % 2 == (a + c) % 2 && b / 2 == c / 2
    ensures b == c
  {
  }

  /** Cancellation: a fixed left operand makes `Xor` injective in the right one. */
  lemma {:induction false} XorCancel(a: nat, b: nat, c: nat)
    requires Xor(a, b) == Xor(a, c)
    ensures b == c
    decreases a + b + c
  {
    if a > 0 || b > 0 || c > 0 {
      XorParts(a, b);
      XorParts(a, c);
      XorCancel(a / 2, b / 2, c / 2);
      SameParity(a, b, c);
    }
  }

  lemma {:induction false} XorSymmetric(a: nat, b: nat)
    ensures Xor(a, b) == Xor(b, a)
  {
    if a > 0 || b > 0 {
      XorSymmetric(a / 2, b / 2);
    }
  }

  lemma {:induction false} XorZero(a: nat)
    ensures Xor(a, 0) == a
  {
    if a > 0 {
      XorZero(a / 2);
    }
  }

  lemma {:induction false} ShrSmall(x: nat, k: nat)
    requires x < Pow2(k)
    ensures Shr(x, k) == 0
    decreases k
  {
    if k > 0 {
      ShrSmall(x / 2, k - 1);
    }
  }

  /** Equal high parts bound the distance by the size of the low part. */
  lemma {:induction false} SameHighPart(u: nat, v: nat, k: nat)
    requires Shr(u, k) == Shr(v, k)
    ensures u < v + Pow2(k) && v < u + Pow2(k)
    decreases k
  {
    if k > 0 {
      SameHighPart(u / 2, v / 2, k - 1);
    }
  }

  /** A right shift distributes over `Xor`. */
  lemma {:induction false} ShrXor(a: nat, b: nat, k: nat)
    ensures Shr(Xor(a, b), k) == Xor(Shr(a, k), Shr(b, k))
    decreases k
  {
    if k > 0 {
      assert Xor(a, b) / 2 == Xor(a / 2, b / 2);
      ShrXor(a / 2, b / 2, k - 1);
    }
  }

  /** `x ^ (x >> k)` is injective for every shift `k > 0`: the high bits survive and unlock the low ones. */
  lemma {:induction false} XorShiftInjective(x: nat, y: nat, k: nat)
    requires k > 0
    requires Xor(x, Shr(x, k)) == Xor(y, Shr(y, k))
    ensures x == y
    decreases x + y
  {
    if x > 0 || y > 0 {
      ShrXor(x, Shr(x, k), k);
      ShrXor(y, Shr(y, k), k);
      XorShiftInjective(Shr(x, k), Shr(y, k), k);
      XorSymmetric(x, Shr(x, k));
      XorSymmetric(y, Shr(y, k));
      XorCancel(Shr(x, k), x, y);
    }
  }
}
