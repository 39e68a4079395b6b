/** Bitwise operators of C on non-negative integers, and the bytes of a stream.
    Words are `nat`; a caller that models an N-bit word reduces modulo 2^N itself. */
module Bits {
  type byte = x: int | 0 <= x < 256

  const TWO32: nat := 0x1_0000_0000
  const TWO64: nat := 0x1_0000_0000_0000_0000

  /** Conversion to uint32_t and to uint64_t. */
  function U32(x: nat): nat
  {
    x % 0x1_0000_0000
  }

  function U64(x: nat): nat
  {
    x % 0x1_0000_0000_0000_0000
  }

  function Pow2(k: nat): (p: nat)
    ensures p >= 1
  {
    if k == 0 then 1 else 2 * Pow2(k - 1)
  }

  lemma {:induction false} Pow2Monotone(j: nat, k: nat)
    requires j <= k
    ensures Pow2(j) <= Pow2(k)
  {
    if j >= k {
    } else {
      Pow2Monotone(j, k - 1);
    }
  }

  lemma Pow2Values()
    ensures Pow2(0) == 1 && Pow2(7) == 0x80 && Pow2(14) == 0x4000 && Pow2(21) == 0x20_0000
    ensures Pow2(25) == 0x200_0000 && Pow2(28) == 0x1000_0000 && Pow2(31) == 0x8000_0000
    ensures Pow2(32) == TWO32
    ensures Pow2(35) == 0x8_0000_0000 && Pow2(42) == 0x400_0000_0000
    ensures Pow2(49) == 0x2_0000_0000_0000 && Pow2(56) == 0x100_0000_0000_0000
    ensures Pow2(63) == 0x8000_0000_0000_0000 && Pow2(64) == TWO64
  {
  }

  /** `a << k`, without truncation. */
  function Shl(a: nat, k: nat): nat
  {
    if k == 0 then a else 2 * Shl(a, k - 1)
  }

  lemma {:induction false} ShlSum(a: nat, b: nat, k: nat)
    ensures Shl(a + b, k) == Shl(a, k) + Shl(b, k)
  {
    if k == 0 {
    } else {
      ShlSum(a, b, k - 1);
    }
  }

  lemma {:induction false} ShlTwice(a: nat, j: nat, k: nat)
    ensures Shl(Shl(a, j), k) == Shl(a, j + k)
  {
    if k == 0 {
    } else {
      ShlTwice(a, j, k - 1);
    }
  }

  lemma {:induction false} ShlMonotone(a: nat, b: nat, k: nat)
    requires a <= b
    ensures Shl(a, k) <= Shl(b, k)
  {
    if k == 0 {
    } else {
      ShlMonotone(a, b, k - 1);
    }
  }

  lemma {:induction false} ShlOne(k: nat)
    ensures Shl(1, k) == Pow2(k)
  {
    if k == 0 {
    } else {
      ShlOne(k - 1);
    }
  }

  lemma {:induction false} ShlProduct(a: nat, k: nat)
    ensures Shl(a, k) == a * Pow2(k)
  {
    if k == 0 {
    } else {
      ShlProduct(a, k - 1);
      var p := Pow2(k - 1);
      assert a * (2 * p) == 2 * (a * p);
    }
  }

  /** Shifts by the positions that matter to 32- and 64-bit words, as products with constants. */
  lemma ShlConstants(a: nat)
    ensures Shl(a, 7) == a * 0x80 && Shl(a, 14) == a * 0x4000 && Shl(a, 21) == a * 0x20_0000
    ensures Shl(a, 25) == a * 0x200_0000 && Shl(a, 28) == a * 0x1000_0000 && Shl(a, 32) == a * TWO32
    ensures Shl(a, 63) == a * 0x8000_0000_0000_0000
  {
    Pow2Values();
    ShlProduct(a, 7); ShlProduct(a, 14); ShlProduct(a, 21); ShlProduct(a, 25);
    ShlProduct(a, 28); ShlProduct(a, 32); ShlProduct(a, 63);
  }

  /** `a | b` */
  function BitOr(a: nat, b: nat): nat
    decreases a + b
  {
    if a == 0 && b == 0 then 0
    else (if a % 2 == 1 || b % 2 == 1 then 1 else 0) + 2 * BitOr(a / 2, b / 2)
  }

  /** `a ^ b` */
  function BitXor(a: nat, b: nat): nat
    decreases a + b
  {
    if a == 0 && b == 0 then 0
    else (if a % 2 != b % 2 then 1 else 0) + 2 * BitXor(a / 2, b / 2)
  }

  /** Bit k of a word. */
  predicate Bit(a: nat, k: nat)
  {
    if k == 0 then a % 2 == 1 else Bit(a / 2, k - 1)
  }

  lemma {:induction false} OrZero(b: nat)
    ensures BitOr(0, b) == b && BitXor(0, b) == b
  {
    if b == 0 {
    } else {
      OrZero(b / 2);
    }
  }

  /** Operands that share no bit position: both operators are addition. */
  lemma {:induction false} OrDisjoint(a: nat, m: nat, k: nat)
    requires a < Pow2(k)
    ensures BitOr(a, Shl(m, k)) == a + Shl(m, k)
    ensures BitXor(a, Shl(m, k)) == a + Shl(m, k)
    decreases k
  {
    if k == 0 {
      OrZero(m);
    } else {
      OrDisjoint(a / 2, m, k - 1);
    }
  }

  /** OR with a left-shifted group that fits the 32-bit (64-bit) word. */
  lemma OrGroup32(a: nat, d: nat, k: nat)
    requires a < Pow2(k) && a + Shl(d, k) < TWO32
    ensures BitOr(a, U32(Shl(d, k))) == a + Shl(d, k)
  {
    hide BitOr, BitXor, Shl, Pow2;
    OrDisjoint(a, d, k);
  }

  lemma OrGroup64(a: nat, d: nat, k: nat)
    requires a < Pow2(k) && Shl(d, k) < TWO64
    ensures BitOr(a, U64(Shl(d, k))) == a + Shl(d, k)
  {
    hide BitOr, BitXor, Shl, Pow2;
    OrDisjoint(a, d, k);
  }

  /** `word | (1 << k)` sets bit k and keeps every other bit. */
  lemma {:induction false} OrSetsBit(a: nat, k: nat, j: nat)
    ensures Bit(BitOr(a, Pow2(k)), j) == (Bit(a, j) || j == k)
    decreases k + j
  {
    if k == 0 {
      if j > 0 { OrZeroRight(a / 2); }
    } else {
      assert Pow2(k) % 2 == 0 && Pow2(k) / 2 == Pow2(k - 1);
      if j > 0 { OrSetsBit(a / 2, k - 1, j - 1); }
    }
  }

  lemma {:induction false} OrZeroRight(a: nat)
    ensures BitOr(a, 0) == a
  {
    if a == 0 {
    } else {
      OrZeroRight(a / 2);
    }
  }

  /** A k-bit word stays a k-bit word. */
  lemma {:induction false} OrBound(a: nat, b: nat, k: nat)
    requires a < Pow2(k) && b < Pow2(k)
    ensures BitOr(a, b) < Pow2(k)
    decreases k
  {
    if k == 0 {
    } else {
      OrBound(a / 2, b / 2, k - 1);
    }
  }

  predicate AllSet(a: nat, n: nat)
  {
    forall j: nat :: j < n ==> Bit(a, j)
  }

  lemma AllSetHalf(a: nat, n: nat)
    requires n > 0
    ensures AllSet(a, n) <==> a % 2 == 1 && AllSet(a / 2, n - 1)
  {
    if AllSet(a, n) {
      assert Bit(a, 0);
      forall j: nat | j < n - 1 ensures Bit(a / 2, j) { assert Bit(a, j + 1); }
    } else if a % 2 == 1 && AllSet(a / 2, n - 1) {
      forall j: nat | j < n ensures Bit(a, j) {
        if j > 0 { assert Bit(a / 2, j - 1); }
      }
    }
  }

  /** A k-bit word with no bit at or above n is `2^n - 1` exactly when its n low bits are all set. */
  lemma {:induction false} LowBits(a: nat, n: nat, k: nat)
    requires n <= k && a < Pow2(k)
    requires forall j: nat :: n <= j < k ==> !Bit(a, j)
    ensures a == Pow2(n) - 1 <==> AllSet(a, n)
    decreases k
  {
    if k == 0 {
    } else {
      forall j: nat | (if n == 0 then 0 else n - 1) <= j < k - 1 ensures !Bit(a / 2, j) {
        assert !Bit(a, j + 1);
      }
      if n == 0 {
        assert !Bit(a, 0);
        LowBits(a / 2, 0, k - 1);
      } else {
        AllSetHalf(a, n);
        LowBits(a / 2, n - 1, k - 1);
      }
    }
  }
}
