/**
 Naturals as bit strings. Every function here recurs on the bits, so that no fact about
 shifting, masking or rotating needs a product of two variables.
 */
module Bits {

  function Pow2(n: nat): (r: nat)
    ensures r >= 1
  {
    if n == 0 then 1 else 2 * Pow2(n - 1)
  }

  function ShiftLeft(x: nat, n: nat): nat {
    if n == 0 then x else 2 * ShiftLeft(x, n - 1)
  }

  function ShiftRight(x: nat, n: nat): nat {
    if n == 0 then x else ShiftRight(x / 2, n - 1)
  }

  /** The n least significant bits of x. */
  function LowBits(x: nat, n: nat): (r: nat)
    ensures r < Pow2(n)
  {
    if n == 0 then 0 else 2 * LowBits(x / 2, n - 1) + x % 2
  }

  function BitAnd(x: nat, y: nat): (r: nat)
    ensures r <= x && r <= y
  {
    if x == 0 || y == 0 then 0
    else 2 * BitAnd(x / 2, y / 2) + (if x % 2 == 1 && y % 2 == 1 then 1 else 0)
  }

  function BitOr(x: nat, y: nat): nat {
    if x == 0 then y else if y == 0 then x
    else 2 * BitOr(x / 2, y / 2) + (if x % 2 == 1 || y % 2 == 1 then 1 else 0)
  }

  // ----- Powers of two -----

  lemma {:induction false} Pow2Mono(l: nat, h: nat)
    requires l <= h
    ensures Pow2(l) <= Pow2(h)
    ensures l < h ==> 2 * Pow2(l) <= Pow2(h)
  {
    if l < h {
      Pow2Mono(l, h - 1);
    }
  }

  lemma Pow2Byte(k: nat)
    ensures Pow2(k + 8) == 256 * Pow2(k)
  {
    assert Pow2(k + 2) == 4 * Pow2(k);
    assert Pow2(k + 4) == 4 * Pow2(k + 2);
    assert Pow2(k + 6) == 4 * Pow2(k + 4);
  }

  lemma Pow2Values()
    ensures Pow2(8) == 0x100 && Pow2(16) == 0x1_0000 && Pow2(32) == 0x1_0000_0000
    ensures Pow2(64) == 0x1_0000_0000_0000_0000
  {
    hide Pow2;
    Pow2Zero();
    Pow2Byte(0);
    Pow2Byte(8);
    Pow2Byte(16);
    Pow2Byte(24);
    Pow2Byte(32);
    Pow2Byte(40);
    Pow2Byte(48);
    Pow2Byte(56);
  }

  // ----- Shifting -----

  lemma {:induction false} ShiftLeftPow2(n: nat)
    ensures ShiftLeft(1, n) == Pow2(n)
  {
    if n > 0 {
      ShiftLeftPow2(n - 1);
    }
  }

  /** Joining hi above an n-bit t, and taking the two parts out again. */
  lemma {:induction false} Join(hi: nat, t: nat, n: nat)
    requires t < Pow2(n)
    ensures LowBits(ShiftLeft(hi, n) + t, n) == t
    ensures ShiftRight(ShiftLeft(hi, n) + t, n) == hi
  {
    if n > 0 {
      assert (ShiftLeft(hi, n) + t) / 2 == ShiftLeft(hi, n - 1) + t / 2;
      assert (ShiftLeft(hi, n) + t) % 2 == t % 2;
      Join(hi, t / 2, n - 1);
    }
  }

  lemma {:induction false} JoinBound(hi: nat, t: nat, n: nat, k: nat)
    requires t < Pow2(n) && hi < Pow2(k)
    ensures ShiftLeft(hi, n) + t < Pow2(n + k)
  {
    if n > 0 {
      JoinBound(hi, t / 2, n - 1, k);
    }
  }

  lemma {:induction false} ShiftRightBound(x: nat, n: nat, k: nat)
    requires x < Pow2(n + k)
    ensures ShiftRight(x, n) < Pow2(k)
  {
    if n > 0 {
      ShiftRightBound(x / 2, n - 1, k);
    }
  }

  lemma {:induction false} ShiftRightShrinks(x: nat, n: nat)
    ensures ShiftRight(x, n) <= x
  {
    if n > 0 {
      ShiftRightShrinks(x / 2, n - 1);
    }
  }

  lemma {:induction false} LowBitsShrink(x: nat, n: nat)
    ensures LowBits(x, n) <= x
  {
    if n > 0 {
      LowBitsShrink(x / 2, n - 1);
    }
  }

  /** The low bits of a shifted word are the shifted low bits. */
  lemma {:induction false} LowOfShifted(x: nat, n: nat, k: nat)
    ensures LowBits(ShiftLeft(x, n), n + k) == ShiftLeft(LowBits(x, k), n)
  {
    if n > 0 {
      assert ShiftLeft(x, n) / 2 == ShiftLeft(x, n - 1) && ShiftLeft(x, n) % 2 == 0;
      LowOfShifted(x, n - 1, k);
    }
  }

  lemma {:induction false} WholeBits(x: nat, n: nat)
    requires x < Pow2(n)
    ensures LowBits(x, n) == x
  {
    if n > 0 {
      WholeBits(x / 2, n - 1);
    }
  }

  lemma {:induction false} LowOfLow(x: nat, n: nat, k: nat)
    requires n <= k
    ensures LowBits(LowBits(x, k), n) == LowBits(x, n)
  {
    if n > 0 {
      LowOfLow(x / 2, n - 1, k - 1);
    }
  }

  // ----- Masks -----

  lemma LowStep(x: nat, n: nat)
    requires n > 0
    ensures LowBits(x, n) == 2 * LowBits(x / 2, n - 1) + x % 2
  {
  }

  lemma LowPair(x: nat, n: nat)
    ensures LowBits(x, n + 2) == x % 4 + 4 * LowBits(x / 4, n)
  {
  }

  lemma LowFour(x: nat, n: nat)
    ensures LowBits(x, n + 4) == x % 16 + 16 * LowBits(x / 16, n)
  {
    hide LowBits;
    LowPair(x, n + 2);
    LowPair(x / 4, n);
  }

  lemma LowByte(x: nat, n: nat)
    ensures LowBits(x, n + 8) == x % 256 + 256 * LowBits(x / 256, n)
  {
    hide LowBits;
    LowFour(x, n + 4);
    LowFour(x / 16, n);
  }

  lemma {:induction false} ShiftOnce(x: nat, n: nat)
    ensures ShiftRight(x, n + 1) == ShiftRight(x, n) / 2
  {
    if n > 0 {
      ShiftOnce(x / 2, n - 1);
    }
  }

  lemma ShiftByte(x: nat, n: nat)
    ensures ShiftRight(x, n + 8) == ShiftRight(x, n) / 256
  {
    hide ShiftRight;
    ShiftOnce(x, n);
    ShiftOnce(x, n + 1);
    ShiftOnce(x, n + 2);
    ShiftOnce(x, n + 3);
    ShiftOnce(x, n + 4);
    ShiftOnce(x, n + 5);
    ShiftOnce(x, n + 6);
    ShiftOnce(x, n + 7);
  }

  lemma LowZero(x: nat)
    ensures LowBits(x, 0) == 0
  {
  }

  lemma Pow2Zero()
    ensures Pow2(0) == 1
  {
  }

  lemma Pow2Step(n: nat)
    requires n > 0
    ensures Pow2(n) == 2 * Pow2(n - 1)
  {
  }

  lemma AndStep(x: nat, m: nat)
    ensures BitAnd(x, m) == 2 * BitAnd(x / 2, m / 2) + (if m % 2 == 1 then x % 2 else 0)
  {
  }

  lemma OrStep(x: nat, y: nat)
    ensures BitOr(x, y) == 2 * BitOr(x / 2, y / 2) + (if x % 2 == 1 || y % 2 == 1 then 1 else 0)
  {
  }

  /** AND with a mask of ones in bits l..h-1 keeps exactly those bits. */
  lemma {:induction false} AndMask(x: nat, l: nat, h: nat)
    requires l <= h
    ensures 0 <= Pow2(h) - Pow2(l)
    ensures BitAnd(x, Pow2(h) - Pow2(l)) == LowBits(x, h) - LowBits(x, l)
  {
    hide BitAnd, LowBits, Pow2;
    Pow2Mono(l, h);
    if l == h {
      assert BitAnd(x, 0) == 0;
    } else {
      var m := Pow2(h) - Pow2(l);
      AndStep(x, m);
      Pow2Step(h);
      LowStep(x, h);
      if l == 0 {
        Pow2Zero();
        LowZero(x);
        LowZero(x / 2);
        AndMask(x / 2, 0, h - 1);
      } else {
        Pow2Step(l);
        LowStep(x, l);
        AndMask(x / 2, l - 1, h - 1);
      }
    }
  }

  lemma HalfOfComplement(c: nat, p: nat, m: nat)
    requires c + m == 2 * p - 1
    ensures m / 2 < p && c / 2 == p - 1 - m / 2 && c % 2 == 1 - m % 2
  {
  }

  /** AND with the complement of a mask removes what AND with the mask keeps. */
  lemma {:induction false} AndComplement(x: nat, m: nat, k: nat)
    requires m < Pow2(k)
    ensures BitAnd(x, Pow2(k) - 1 - m) == LowBits(x, k) - BitAnd(x, m)
  {
    hide BitAnd, LowBits, Pow2;
    if k == 0 {
      Pow2Zero();
      LowZero(x);
    } else {
      Pow2Step(k);
      LowStep(x, k);
      var c := Pow2(k) - 1 - m;
      HalfOfComplement(c, Pow2(k - 1), m);
      AndStep(x, m);
      AndStep(x, c);
      AndComplement(x / 2, m / 2, k - 1);
    }
  }

  lemma HalvesOfAnd(x: nat, m: nat)
    ensures BitAnd(x, m) / 2 == BitAnd(x / 2, m / 2)
    ensures m % 2 == 0 ==> BitAnd(x, m) % 2 == 0
  {
    hide BitAnd;
    AndStep(x, m);
  }

  lemma OrOfDisjointLowBits(a: nat, b: nat)
    requires a % 2 == 0 || b % 2 == 0
    ensures BitOr(a, b) == a + b <==> BitOr(a / 2, b / 2) == a / 2 + b / 2
  {
    hide BitOr;
    OrStep(a, b);
  }

  /** Operands kept by complementary masks never collide, so their OR is their sum. */
  lemma {:induction false} OrOfComplements(x: nat, y: nat, m: nat, k: nat)
    requires m < Pow2(k)
    ensures BitOr(BitAnd(x, m), BitAnd(y, Pow2(k) - 1 - m)) == BitAnd(x, m) + BitAnd(y, Pow2(k) - 1 - m)
  {
    hide BitAnd, BitOr, Pow2;
    if k == 0 {
      Pow2Zero();
      OrStep(0, 0);
    } else {
      Pow2Step(k);
      var c := Pow2(k) - 1 - m;
      HalfOfComplement(c, Pow2(k - 1), m);
      OrOfComplements(x / 2, y / 2, m / 2, k - 1);
      HalvesOfAnd(x, m);
      HalvesOfAnd(y, c);
      OrOfDisjointLowBits(BitAnd(x, m), BitAnd(y, c));
    }
  }

  /** OR with a word that has only zeros below bit n. */
  lemma {:induction false} OrJoin(hi: nat, t: nat, n: nat)
    requires t < Pow2(n)
    ensures BitOr(ShiftLeft(hi, n), t) == ShiftLeft(hi, n) + t
  {
    if n > 0 {
      OrStep(ShiftLeft(hi, n), t);
      OrJoin(hi, t / 2, n - 1);
    }
  }

  lemma {:induction false} OrBound(x: nat, y: nat, k: nat)
    requires x < Pow2(k) && y < Pow2(k)
    ensures BitOr(x, y) < Pow2(k)
  {
    if k > 0 {
      OrStep(x, y);
      OrBound(x / 2, y / 2, k - 1);
    }
  }
}
