/** Bytes, powers of two and the bitwise "or" of the C sources, all over unbounded naturals. */
module Bits {
  type byte = x: int | 0 <= x < 256

  const TWO32 := 0x1_0000_0000
  const TWO64 := 0x1_0000_0000_0000_0000

  /** `pb_size_t` is 32 bits wide in this build (PB_FIELD_32BIT). */
  const PB_SIZE_MAX: nat := 0xFFFF_FFFF

  datatype Option<+T> = None | Some(value: T)

  /** The outcome of reading a value off the front of a byte string. */
  datatype Parse<+T> = Fail | Done(value: T, rest: seq<byte>)

  /** `x << k`, without truncation. */
  function Shl(x: nat, k: nat): (y: nat)
    ensures y >= x
  {
    if k == 0 then x else 2 * Shl(x, k - 1)
  }

  function Pow2(k: nat): (p: nat)
    ensures p >= 1
  {
    Shl(1, k)
  }

  function Min(a: int, b: int): int {
    if a <= b then a else b
  }

  /** C's `a | b` on unsigned words. */
  function BitOr(a: nat, b: nat): nat
    decreases a + b
  {
    if a == 0 then b
    else if b == 0 then a
    else (if a % 2 == 1 || b % 2 == 1 then 1 else 0) + 2 * BitOr(a / 2, b / 2)
  }

  /** Bit `k` of the word `w`. */
  predicate Bit(w: nat, k: nat) {
    if k == 0 then w % 2 == 1 else Bit(w / 2, k - 1)
  }

  /** Or-ing in bits above the ones already present is addition. */
  lemma {:induction false} BitOrDisjoint(a: nat, b: nat, k: nat)
    requires a < Pow2(k)
    ensures BitOr(a, Shl(b, k)) == a + Shl(b, k)
  {
    if b == 0 {
      ShlZero(k);
    } else if k > 0 && a != 0 {
      assert Shl(b, k) / 2 == Shl(b, k - 1);
      BitOrDisjoint(a / 2, b, k - 1);
    }
  }

  lemma {:induction false} BitOfBitOr(a: nat, b: nat, k: nat)
    ensures Bit(BitOr(a, b), k) <==> Bit(a, k) || Bit(b, k)
    decreases k
  {
    if a == 0 {
      NoBitsInZero(k);
    } else if b == 0 {
      NoBitsInZero(k);
    } else {
      assert BitOr(a, b) / 2 == BitOr(a / 2, b / 2);
      if k > 0 {
        BitOfBitOr(a / 2, b / 2, k - 1);
      }
    }
  }

  lemma {:induction false} NoBitsInZero(k: nat)
    ensures !Bit(0, k)
  {
    if k > 0 { NoBitsInZero(k - 1); }
  }

  lemma {:induction false} BitOfPow2(j: nat, k: nat)
    ensures Bit(Pow2(j), k) <==> j == k
  {
    if j == 0 {
      if k > 0 { NoBitsInZero(k - 1); }
    } else if k > 0 {
      BitOfPow2(j - 1, k - 1);
    }
  }

  /** The mask `2^n - 1` has exactly the lowest `n` bits set ... */
  lemma {:induction false} BitOfMask(n: nat, k: nat)
    ensures Bit(Pow2(n) - 1, k) <==> k < n
  {
    if n == 0 {
      NoBitsInZero(k);
    } else {
      assert (Pow2(n) - 1) / 2 == Pow2(n - 1) - 1;
      if k > 0 { BitOfMask(n - 1, k - 1); }
    }
  }

  /** ... and it is the only such word. */
  lemma {:induction false} AllBitsIsMask(w: nat, n: nat)
    requires forall k: nat :: Bit(w, k) <==> k < n
    ensures w == Pow2(n) - 1
    decreases n
  {
    if n == 0 {
      if w != 0 {
        var k := SomeBit(w);
      }
    } else {
      assert Bit(w, 0);
      forall k: nat ensures Bit(w / 2, k) <==> k < n - 1 {
        assert Bit(w, k + 1) == Bit(w / 2, k);
      }
      AllBitsIsMask(w / 2, n - 1);
    }
  }

  lemma {:induction false} SomeBit(w: nat) returns (k: nat)
    requires w > 0
    ensures Bit(w, k)
  {
    if w % 2 == 1 {
      k := 0;
    } else {
      var j := SomeBit(w / 2);
      k := j + 1;
    }
  }

  lemma {:induction false} ShlZero(k: nat)
    ensures Shl(0, k) == 0
  {
    if k > 0 { ShlZero(k - 1); }
  }

  lemma {:induction false} ShlShl(x: nat, a: nat, b: nat)
    ensures Shl(Shl(x, a), b) == Shl(x, a + b)
  {
    if b > 0 { ShlShl(x, a, b - 1); }
  }

  lemma {:induction false} ShlAdd(x: nat, y: nat, k: nat)
    ensures Shl(x + y, k) == Shl(x, k) + Shl(y, k)
  {
    if k > 0 { ShlAdd(x, y, k - 1); }
  }

  lemma {:induction false} ShlLess(x: nat, y: nat, k: nat)
    ensures x < y <==> Shl(x, k) < Shl(y, k)
  {
    if k > 0 { ShlLess(x, y, k - 1); }
  }

  lemma Shl7(x: nat)
    ensures Shl(x, 3) == 8 * x && Shl(x, 4) == 16 * x && Shl(x, 7) == 128 * x
  {
    assert Shl(x, 1) == 2 * x;
    assert Shl(x, 2) == 4 * x;
    assert Shl(x, 3) == 8 * x;
    assert Shl(x, 5) == 32 * x;
  }

  lemma Shl28(x: nat)
    ensures Shl(x, 28) == 0x1000_0000 * x
  {
    Shl7(x); ShlShl(x, 7, 7); Shl7(128 * x);
    ShlShl(x, 14, 7); Shl7(0x4000 * x);
    ShlShl(x, 21, 7); Shl7(0x20_0000 * x);
  }

  lemma Shl32(x: nat)
    ensures Shl(x, 32) == TWO32 * x
  {
    Shl28(x); ShlShl(x, 28, 4);
    Shl7(0x1000_0000 * x);
  }

  lemma Shl63(x: nat)
    ensures Shl(x, 63) == 0x8000_0000_0000_0000 * x
  {
    Shl32(x); ShlShl(x, 32, 28); Shl28(TWO32 * x); ShlShl(x, 60, 3);
    Shl7(0x1000_0000 * (TWO32 * x));
  }

  // ---- Truncation to a machine word -----------------------------------------------------

  /** What is left of `x` in a 32-bit word. Written by subtraction: the solver is slow on large moduli. */
  function Low32(x: nat): (r: nat)
    ensures r < TWO32
  {
    if x < TWO32 then x else Low32(x - TWO32)
  }

  /** What is left of `x` in a 64-bit word. */
  function Low64(x: nat): (r: nat)
    ensures r < TWO64
  {
    if x < TWO64 then x else Low64(x - TWO64)
  }

  lemma {:induction false} Low32IsMod(x: nat)
    ensures Low32(x) == x % TWO32
  {
    if x >= TWO32 { Low32IsMod(x - TWO32); }
  }

  lemma {:induction false} Low64IsMod(x: nat)
    ensures Low64(x) == x % TWO64
  {
    if x >= TWO64 { Low64IsMod(x - TWO64); }
  }

  lemma {:induction false} Low32Plus(g: nat, k: nat)
    ensures Low32(g + TWO32 * k) == Low32(g)
  {
    if k > 0 { Low32Plus(g, k - 1); }
  }

  lemma {:induction false} Low64Plus(g: nat, k: nat)
    ensures Low64(g + TWO64 * k) == Low64(g)
  {
    if k > 0 { Low64Plus(g, k - 1); }
  }

  lemma {:induction false} Low32OfLow64(x: nat)
    ensures Low32(Low64(x)) == Low32(x)
  {
    if x >= TWO64 {
      Low32OfLow64(x - TWO64);
      Low32Plus(x - TWO64, TWO32);
    }
  }
}
