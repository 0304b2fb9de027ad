/** Powers of two and bitwise AND on naturals, as the loader's alignment and page masks use them. */
module Bits {
  import opened Arith

  /** a is a power of two. */
  predicate IsPow2(a: nat)
  {
    a == 1 || (a >= 2 && a % 2 == 0 && IsPow2(a / 2))
  }

  /** Bitwise AND of two naturals, bit by bit from the least significant one. */
  function BitAnd(a: nat, b: nat): (r: nat)
    ensures r <= a && r <= b
    decreases a
  {
    if a == 0 || b == 0 then 0
    else 2 * BitAnd(a / 2, b / 2) + (if a % 2 == 1 && b % 2 == 1 then 1 else 0)
  }

  /** The smaller of two powers of two divides the larger. */
  lemma {:induction false} Pow2Divides(a: nat, b: nat)
    requires IsPow2(a) && IsPow2(b) && a <= b
    ensures b % a == 0
    decreases a
  {
    if a > 1 {
      Pow2Divides(a / 2, b / 2);
      assert b == 2 * (b / 2) && a == 2 * (a / 2);
      MulDivides(b / 2, a / 2, 2);
    }
  }

  /** Doubling a power of two gives a power of two. */
  lemma Pow2Double(a: nat, c: nat)
    requires IsPow2(a) && c == 2 * a
    ensures IsPow2(c)
  {
    DivModUnique(c, 2, a, 0);
  }

  /** Products of powers of two are powers of two. */
  lemma {:induction false} Pow2Mul(a: nat, b: nat, c: nat)
    requires IsPow2(a) && IsPow2(b) && c == a * b
    ensures IsPow2(c)
    decreases a
  {
    if a > 1 {
      var h := a / 2;
      Pow2Half(a);
      Pow2Mul(h, b, h * b);
      assert c == 2 * (h * b) by { assert a == 2 * h; }
      Pow2Double(h * b, c);
    }
  }

  /** 64, the run section alignment plus one, is a power of two. */
  lemma Pow2Of64()
    ensures IsPow2(64)
  {
    Pow2Double(1, 2);
    Pow2Double(2, 4);
    Pow2Double(4, 8);
    Pow2Double(8, 16);
    Pow2Double(16, 32);
    Pow2Double(32, 64);
  }

  /** 4096, the page size, and 2^32 and 2^64, the moduli of `unsigned` and `unsigned long`, are
      powers of two. */
  lemma WidthsArePow2()
    ensures IsPow2(0x1000) && IsPow2(0x1_0000_0000) && IsPow2(0x1_0000_0000_0000_0000)
  {
    assert IsPow2(16);
    Pow2Mul(16, 16, 256);
    Pow2Mul(16, 256, 0x1000);
    Pow2Mul(256, 256, 0x1_0000);
    Pow2Mul(0x1_0000, 0x1_0000, 0x1_0000_0000);
    Pow2Mul(0x1_0000_0000, 0x1_0000_0000, 0x1_0000_0000_0000_0000);
  }

  /** One step of the bitwise AND: the low bit, and the AND of the halves. */
  lemma BitAndStep(x: nat, b: nat)
    requires x > 0 && b > 0
    ensures BitAnd(x, b) == 2 * BitAnd(x / 2, b / 2) + (if x % 2 == 1 && b % 2 == 1 then 1 else 0)
  {
  }

  /** Halving 2h - 1 gives h - 1 and halving 2h - 2g gives h - g. */
  lemma HalveMasks(h: nat, g: nat)
    requires 1 <= g <= h
    ensures (2 * h - 1) / 2 == h - 1 && (2 * h - 1) % 2 == 1
    ensures (2 * h - 2 * g) / 2 == h - g && (2 * h - 2 * g) % 2 == 0
  {
    DivModUnique(2 * h - 1, 2, h - 1, 1);
    DivModUnique(2 * h - 2 * g, 2, h - g, 0);
  }

  /** A power of two above 1 is twice a power of two. */
  lemma Pow2Half(m: nat)
    requires IsPow2(m) && m > 1
    ensures m == 2 * (m / 2) && IsPow2(m / 2)
  {
  }

  /** The inductive step of BitAndLow, from the halves to the whole. */
  lemma BitAndLowStep(x: nat, m: nat, h: nat)
    requires x > 0 && h >= 1 && m == 2 * h
    requires BitAnd(x / 2, h - 1) == (x / 2) % h
    ensures BitAnd(x, m - 1) == x % m
  {
    HalveMasks(h, 1);
    BitAndStep(x, m - 1);
    ModHalf(x, h);
  }

  /** AND with m - 1, for a power of two m, keeps the low bits: the remainder modulo m. */
  lemma {:induction false} BitAndLow(x: nat, m: nat)
    requires IsPow2(m)
    ensures BitAnd(x, m - 1) == x % m
    decreases m
  {
    if m > 1 && x > 0 {
      Pow2Half(m);
      BitAndLow(x / 2, m / 2);
      BitAndLowStep(x, m, m / 2);
    }
  }

  /** The inductive step of BitAndHigh, from the halves to the whole. */
  lemma BitAndHighStep(x: nat, hi: nat, m: nat, h: nat, g: nat)
    requires x > 0 && 1 <= g < h && hi == 2 * h && m == 2 * g
    requires BitAnd(x / 2, h - g) == x / 2 - (x / 2) % g
    ensures BitAnd(x, hi - m) == x - x % m
  {
    HalveMasks(h, g);
    BitAndStep(x, hi - m);
    DivModUnique(x, 2, x / 2, x % 2);
    ModHalf(x, g);
  }

  /** The cases of BitAndHigh that need no induction. */
  lemma BitAndHighBase(x: nat, hi: nat, m: nat)
    requires IsPow2(hi) && IsPow2(m) && m <= hi && x < hi
    requires m == 1 || m == hi || x == 0
    ensures BitAnd(x, hi - m) == x - x % m
  {
    if m == 1 {
      BitAndLow(x, hi);
      ModSmall(x, hi);
    } else if m == hi {
      ModSmall(x, hi);
    }
  }

  /** AND with hi - m, for powers of two m <= hi and x below hi, clears the low bits: x rounded
      down to a multiple of m. */
  lemma {:induction false} BitAndHigh(x: nat, hi: nat, m: nat)
    requires IsPow2(hi) && IsPow2(m) && m <= hi && x < hi
    ensures BitAnd(x, hi - m) == x - x % m
    decreases m
  {
    if m == 1 || m == hi || x == 0 {
      BitAndHighBase(x, hi, m);
    } else {
      Pow2Half(hi);
      Pow2Half(m);
      BitAndHigh(x / 2, hi / 2, m / 2);
      BitAndHighStep(x, hi, m, hi / 2, m / 2);
    }
  }
}
