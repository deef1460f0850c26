/** Bitwise operators on natural numbers, as used by dbz on its `long` values.

    A word of the C program is represented by its two's-complement bit pattern, that is, by a number
    below 2^64. The operators are defined by recursion on the binary digits, so every law below is an
    induction and no machine arithmetic is assumed. */
module Bits {
  import Arith

  /** 2^n */
  function Pow2(n: nat): (p: nat)
    ensures p > 0
  {
    if n == 0 then 1 else 2 * Pow2(n - 1)
  }

  function Bit(b: bool): nat {
    if b then 1 else 0
  }

  function And(a: nat, b: nat): nat {
    if a == 0 || b == 0 then 0 else 2 * And(a / 2, b / 2) + Bit(a % 2 == 1 && b % 2 == 1)
  }

  function Or(a: nat, b: nat): nat {
    if a == 0 then b else if b == 0 then a else 2 * Or(a / 2, b / 2) + Bit(a % 2 == 1 || b % 2 == 1)
  }

  /** a & ~b */
  function AndNot(a: nat, b: nat): nat {
    if a == 0 then 0 else if b == 0 then a else 2 * AndNot(a / 2, b / 2) + Bit(a % 2 == 1 && b % 2 == 0)
  }

  function Xor(a: nat, b: nat): nat {
    if a == 0 then b else if b == 0 then a else 2 * Xor(a / 2, b / 2) + Bit(a % 2 != b % 2)
  }

  /** a >> n */
  function Shr(a: nat, n: nat): nat {
    if n == 0 then a else Shr(a / 2, n - 1)
  }

  /** a << n, in a word that is wide enough */
  function Shl(a: nat, n: nat): nat {
    if n == 0 then a else 2 * Shl(a, n - 1)
  }

  /** a & (2^n - 1) */
  function Low(a: nat, n: nat): nat {
    if n == 0 then 0 else 2 * Low(a / 2, n - 1) + a % 2
  }

  // ----- powers of two

  lemma {:induction false} Pow2Add(m: nat, n: nat)
    ensures Pow2(m + n) == Pow2(m) * Pow2(n)
  {
    if m > 0 {
      Pow2Add(m - 1, n);
      assert Pow2(m + n) == 2 * Pow2(m - 1 + n);
    }
  }

  lemma {:induction false} Pow2Monotone(m: nat, n: nat)
    requires m <= n
    ensures Pow2(m) <= Pow2(n)
  {
    if m < n {
      Pow2Monotone(m, n - 1);
    }
  }

  /** The two powers of two that bound a `long`. */
  lemma Pow2Long()
    ensures Pow2(7) == 0x80 && Pow2(24) == 0x100_0000
    ensures Pow2(31) == 0x8000_0000
    ensures Pow2(63) == 0x8000_0000_0000_0000 && Pow2(64) == 0x1_0000_0000_0000_0000
  {
    assert Pow2(7) == 0x80;
    assert Pow2(8) == 0x100;
    Pow2Add(8, 8);
    Pow2Add(16, 8);
    Pow2Add(24, 7);
    Pow2Add(31, 31);
    assert Pow2(63) == 2 * Pow2(62);
  }

  // ----- laws of Xor

  lemma {:induction false} XorStep(a: nat, b: nat)
    ensures Xor(a, b) / 2 == Xor(a / 2, b / 2)
    ensures Xor(a, b) % 2 == Bit(a % 2 != b % 2)
  {}

  lemma {:induction false} XorCommutes(a: nat, b: nat)
    ensures Xor(a, b) == Xor(b, a)
  {
    if a != 0 && b != 0 {
      XorCommutes(a / 2, b / 2);
    }
  }

  lemma {:induction false} XorSelf(a: nat)
    ensures Xor(a, a) == 0
  {
    if a != 0 {
      XorSelf(a / 2);
    }
  }

  lemma {:induction false} XorAssociates(a: nat, b: nat, c: nat)
    ensures Xor(Xor(a, b), c) == Xor(a, Xor(b, c))
    decreases a + b + c
  {
    if a != 0 && b != 0 && c != 0 {
      XorStep(a, b);
      XorStep(b, c);
      XorStep(Xor(a, b), c);
      XorStep(a, Xor(b, c));
      XorAssociates(a / 2, b / 2, c / 2);
    }
  }

  /** Xor of two equal terms cancels; this is what makes every hash step injective. */
  lemma XorCancels(a: nat, b: nat)
    ensures Xor(a, Xor(a, b)) == b
    ensures Xor(a, b) == 0 <==> a == b
  {
    XorAssociates(a, a, b);
    XorSelf(a);
    if Xor(a, b) == 0 {
      assert Xor(a, Xor(a, b)) == a;
    }
  }

  lemma XorSwapsMiddle(a: nat, b: nat, c: nat, d: nat)
    ensures Xor(Xor(a, b), Xor(c, d)) == Xor(Xor(a, c), Xor(b, d))
  {
    XorAssociates(a, b, Xor(c, d));
    XorAssociates(b, c, d);
    XorCommutes(b, c);
    XorAssociates(c, b, d);
    XorAssociates(a, c, Xor(b, d));
  }

  /** Shifting and taking low digits distribute over Xor. */
  lemma {:induction false} XorShr(a: nat, b: nat, n: nat)
    ensures Shr(Xor(a, b), n) == Xor(Shr(a, n), Shr(b, n))
  {
    if n > 0 {
      XorStep(a, b);
      XorShr(a / 2, b / 2, n - 1);
    }
  }

  lemma {:induction false} XorLow(a: nat, b: nat, n: nat)
    ensures Low(Xor(a, b), n) == Xor(Low(a, n), Low(b, n))
  {
    if n > 0 {
      XorStep(a, b);
      XorLow(a / 2, b / 2, n - 1);
      LowStep(Xor(a, b), n);
      LowStep(a, n);
      LowStep(b, n);
      XorOfSplit(Low(Xor(a, b), n), Low(a, n), Low(b, n));
    }
  }

  lemma {:induction false} LowBound(a: nat, n: nat)
    ensures Low(a, n) < Pow2(n)
  {
    if n > 0 {
      LowBound(a / 2, n - 1);
    }
  }

  lemma LowStep(a: nat, n: nat)
    requires n > 0
    ensures Low(a, n) / 2 == Low(a / 2, n - 1) && Low(a, n) % 2 == a % 2
  {}

  lemma XorOfSplit(x: nat, a: nat, b: nat)
    requires x / 2 == Xor(a / 2, b / 2) && x % 2 == Bit(a % 2 != b % 2)
    ensures x == Xor(a, b)
  {
    XorStep(a, b);
  }

  lemma {:induction false} XorBound(a: nat, b: nat, n: nat)
    requires a < Pow2(n) && b < Pow2(n)
    ensures Xor(a, b) < Pow2(n)
  {
    if n > 0 && a != 0 && b != 0 {
      XorBound(a / 2, b / 2, n - 1);
    }
  }

  /** A number is determined by its high and its low digits. */
  lemma {:induction false} HighAndLow(a: nat, b: nat, n: nat)
    requires Shr(a, n) == Shr(b, n) && Low(a, n) == Low(b, n)
    ensures a == b
  {
    if n > 0 {
      HighAndLow(a / 2, b / 2, n - 1);
    }
  }

  lemma {:induction false} ShrBound(a: nat, n: nat, m: nat)
    requires a < Pow2(n + m)
    ensures Shr(a, n) < Pow2(m)
  {
    if n > 0 {
      ShrBound(a / 2, n - 1, m);
    }
  }

  // ----- laws of the masking operators

  lemma {:induction false} MaskStep(a: nat, b: nat)
    ensures And(a, b) / 2 == And(a / 2, b / 2) && And(a, b) % 2 == Bit(a % 2 == 1 && b % 2 == 1)
    ensures Or(a, b) / 2 == Or(a / 2, b / 2) && Or(a, b) % 2 == Bit(a % 2 == 1 || b % 2 == 1)
    ensures AndNot(a, b) / 2 == AndNot(a / 2, b / 2) && AndNot(a, b) % 2 == Bit(a % 2 == 1 && b % 2 == 0)
  {}

  lemma {:induction false} OrBound(a: nat, b: nat, n: nat)
    requires a < Pow2(n) && b < Pow2(n)
    ensures Or(a, b) < Pow2(n)
  {
    if n > 0 && a != 0 && b != 0 {
      OrBound(a / 2, b / 2, n - 1);
    }
  }

  /** If no bit of `t` lies outside `mask` then t <= mask. */
  lemma {:induction false} SubMask(t: nat, mask: nat)
    requires AndNot(t, mask) == 0
    ensures t <= mask
    decreases t + mask
  {
    if t != 0 && mask != 0 {
      MaskStep(t, mask);
      SubMask(t / 2, mask / 2);
    }
  }

  /** And with a mask leaves nothing outside the mask. */
  lemma {:induction false} MaskedInside(v: nat, mask: nat)
    ensures AndNot(And(v, mask), mask) == 0
    decreases v
  {
    if v != 0 && mask != 0 {
      MaskStep(v, mask);
      MaskStep(And(v, mask), mask);
      MaskedInside(v / 2, mask / 2);
    }
  }

  // ----- left shifts

  lemma {:induction false} ShlOfDouble(a: nat, n: nat)
    ensures Shl(2 * a, n) == 2 * Shl(a, n)
  {
    if n > 0 {
      ShlOfDouble(a, n - 1);
    }
  }

  lemma {:induction false} ShlOfPow2(k: nat, n: nat)
    ensures Shl(Pow2(k), n) == Pow2(k + n)
  {
    if n > 0 {
      ShlOfPow2(k, n - 1);
      assert Pow2(k + n) == 2 * Pow2(k + (n - 1));
    }
  }

  /** Ones, shifted left. */
  lemma {:induction false} ShlOfOnes(k: nat, n: nat)
    ensures Shl(Pow2(k) - 1, n) == Pow2(k + n) - Pow2(n)
  {
    if n > 0 {
      ShlOfOnes(k, n - 1);
      assert Pow2(k + n) == 2 * Pow2(k + (n - 1));
    }
  }

  lemma {:induction false} ShlGrows(a: nat, n: nat)
    requires a > 0
    ensures Shl(a, n) >= a && Shl(a, n) >= Pow2(n)
  {
    if n > 0 {
      ShlGrows(a, n - 1);
    }
  }

  lemma {:induction false} ShlMonotone(a: nat, b: nat, n: nat)
    requires a <= b
    ensures Shl(a, n) <= Shl(b, n)
  {
    if n > 0 {
      ShlMonotone(a, b, n - 1);
    }
  }

  lemma {:induction false} AndOfShifted(a: nat, b: nat, n: nat)
    ensures And(Shl(a, n), Shl(b, n)) == Shl(And(a, b), n)
  {
    if n > 0 {
      AndOfShifted(a, b, n - 1);
      MaskStep(2 * Shl(a, n - 1), 2 * Shl(b, n - 1));
    }
  }

  /** What is below a shift does not meet what is shifted. */
  lemma {:induction false} AndOfMultiple(v: nat, k: nat, n: nat)
    requires v < Pow2(n)
    ensures And(v, Shl(k, n)) == 0
  {
    if n > 0 && v > 0 {
      AndOfMultiple(v / 2, k, n - 1);
      MaskStep(v, 2 * Shl(k, n - 1));
    }
  }

  lemma {:induction false} ShlSub(a: nat, b: nat, n: nat)
    requires b <= a
    ensures Shl(a - b, n) == Shl(a, n) - Shl(b, n)
  {
    if n > 0 {
      ShlSub(a, b, n - 1);
    }
  }

  // ----- complements in n bits

  lemma Complement(x: nat, n: nat)
    requires n > 0 && x < Pow2(n)
    ensures x / 2 < Pow2(n - 1)
    ensures (Pow2(n) - 1 - x) / 2 == Pow2(n - 1) - 1 - x / 2 && (Pow2(n) - 1 - x) % 2 == 1 - x % 2
  {}

  /** ~y & ~~x */
  lemma {:induction false} AndNotOfComplements(x: nat, y: nat, n: nat)
    requires x < Pow2(n) && y < Pow2(n)
    ensures AndNot(Pow2(n) - 1 - y, Pow2(n) - 1 - x) == AndNot(x, y)
  {
    if n > 0 {
      Complement(x, n);
      Complement(y, n);
      AndNotOfComplements(x / 2, y / 2, n - 1);
      MaskStep(Pow2(n) - 1 - y, Pow2(n) - 1 - x);
      MaskStep(x, y);
    }
  }

  /** A number does not meet its complement. */
  lemma {:induction false} ComplementApart(x: nat, y: nat, n: nat)
    requires x < Pow2(n)
    ensures And(Pow2(n) - 1 - x, AndNot(x, y)) == 0
  {
    if n > 0 {
      Complement(x, n);
      ComplementApart(x / 2, y / 2, n - 1);
      MaskStep(x, y);
      MaskStep(Pow2(n) - 1 - x, AndNot(x, y));
    }
  }

  /** The lowest one of a number has no one before it. */
  lemma {:induction false} LowestStands(x: nat)
    requires x > 0
    ensures AndNot(x, 2 * x) > 0
  {
    MaskStep(x, 2 * x);
    if x % 2 == 0 {
      LowestStands(x / 2);
    }
  }

  /** An odd number and a shift are determined by the result. */
  lemma {:induction false} OddPart(a: nat, s: nat, b: nat, r: nat)
    requires a % 2 == 1 && b % 2 == 1 && Shl(a, s) == Shl(b, r)
    ensures a == b && s == r
  {
    if s > 0 && r > 0 {
      OddPart(a, s - 1, b, r - 1);
    }
  }

  // ----- shifting and masking as division

  lemma {:induction false} LowIsMod(a: nat, n: nat)
    ensures Low(a, n) == a % Pow2(n)
  {
    if n > 0 {
      LowIsMod(a / 2, n - 1);
      Arith.DivideTwice(a, 2, Pow2(n - 1));
    }
  }

  lemma {:induction false} ShrIsDiv(a: nat, n: nat)
    ensures Shr(a, n) == a / Pow2(n)
  {
    if n > 0 {
      ShrIsDiv(a / 2, n - 1);
      Arith.DivideTwice(a, 2, Pow2(n - 1));
    }
  }
}
