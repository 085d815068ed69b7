/**
 The extended shift, clear and insert mnemonics: what one rotate-and-mask instruction
 computes, and the AND-immediate macro built from them.
 */
module Rotates {
  import opened Bits
  import opened Power
  import opened Machine

  // The six-bit field encoders keep the low six bits of their argument.

  function Sldi(a: Reg, s: Reg, n: int): Instr { Rldicr(a, s, n % 64, (63 - n) % 64) }
  function Srdi(a: Reg, s: Reg, n: int): Instr { Rldicl(a, s, (64 - n) % 64, n % 64) }
  function Clrldi(a: Reg, s: Reg, n: int): Instr { Rldicl(a, s, 0, n % 64) }
  function Clrrdi(a: Reg, s: Reg, n: int): Instr { Rldicr(a, s, 0, (63 - n) % 64) }
  function Insrdi(a: Reg, s: Reg, n: int, b: int): Instr { Rldimi(a, s, (64 - (b + n)) % 64, b % 64) }

  // And the five-bit ones the low five.

  function Slwi(a: Reg, s: Reg, n: int): Instr { Rlwinm(a, s, n % 32, 0, (31 - n) % 32) }
  function Srwi(a: Reg, s: Reg, n: int): Instr { Rlwinm(a, s, (32 - n) % 32, n % 32, 31) }

  /** The parts of a rotated word: the former high bits below, the former low bits above. */
  lemma RotatedParts(x: U64, n: nat, k: nat)
    requires 0 < k && n + k == 64
    ensures LowBits(Rotl64(x, n), n) == ShiftRight(x, k)
  {
    RotlBound(x, n, k);
    Join(LowBits(x, k), ShiftRight(x, k), n);
  }

  lemma KeepAbove(x: U64, n: Six, w: nat)
    requires w == 64
    ensures BitAnd(x, Mask(0, 63 - n)) == x - LowBits(x, n)
  {
    Pow2Values();
    AndMask(x, n, w);
    WholeBits(x, w);
  }

  lemma KeepBelow(x: U64, n: Six)
    ensures BitAnd(x, Mask(n, 63)) == LowBits(x, 64 - n)
  {
    AndMask(x, 0, 64 - n);
  }

  lemma RotateLeftKeepAbove(x: U64, n: Six, k: nat)
    requires n + k == 64
    ensures RotateKeep(x, n, 0, 63 - n) == Shl64(x, n)
  {
    RotatedParts(x, n, k);
    KeepAbove(Rotl64(x, n), n, 64);
    LowOfShifted(x, n, k);
  }

  lemma RotateRightKeepBelow(x: U64, n: nat, k: nat)
    requires 0 < n < 64 && n + k == 64
    ensures RotateKeep(x, k, n, 63) == Shr64(x, n)
  {
    RotatedParts(x, k, n);
    KeepBelow(Rotl64(x, k), n);
  }

  lemma Unrotated(x: U64, w: nat)
    requires w == 64
    ensures Rotl64(x, 0) == x
  {
    Pow2Values();
    WholeBits(x, w);
    ShiftRightBound(x, w, 0);
  }

  lemma ClearAbove(x: U64, n: Six)
    ensures RotateKeep(x, 0, n, 63) == Low64(x, 64 - n)
  {
    Unrotated(x, 64);
    KeepBelow(x, n);
  }

  lemma ClearBelow(x: U64, n: Six)
    ensures Low64(x, n) <= x
    ensures RotateKeep(x, 0, 0, 63 - n) == x - Low64(x, n)
  {
    Unrotated(x, 64);
    KeepAbove(x, n, 64);
  }

  lemma KeepAll(x: U64)
    ensures RotateKeep(x, 0, 0, 63) == x
  {
    ClearBelow(x, 0);
  }

  lemma RotateRight(x: U64, n: Six, k: Six)
    requires k == if n == 0 then 0 else 64 - n
    ensures RotateKeep(x, k, n, 63) == Shr64(x, n)
  {
    if n == 0 {
      KeepAll(x);
    } else {
      RotateRightKeepBelow(x, n, k);
    }
  }

  /** Field insertion: n bits of s placed below bit k of a, everything else of a kept. */
  function Insert(a: nat, s: nat, sh: nat, n: nat): int {
    a - (LowBits(a, sh + n) - LowBits(a, sh)) + ShiftLeft(LowBits(s, n), sh)
  }

  lemma {:induction false} JoinLow(hi: nat, t: nat, n: nat, k: nat)
    requires t < Pow2(n)
    ensures LowBits(ShiftLeft(hi, n) + t, n + k) == ShiftLeft(LowBits(hi, k), n) + t
  {
    if n > 0 {
      assert (ShiftLeft(hi, n) + t) / 2 == ShiftLeft(hi, n - 1) + t / 2;
      assert (ShiftLeft(hi, n) + t) % 2 == t % 2;
      JoinLow(hi, t / 2, n - 1, k);
    }
  }

  lemma SelectByMask(r: U64, a: U64, mask: U64, w: nat)
    requires w == 64
    ensures Or64(BitAnd(r, mask), BitAnd(a, WRAP - 1 - mask)) == BitAnd(r, mask) + a - BitAnd(a, mask)
  {
    Pow2Values();
    OrOfComplements(r, a, mask, w);
    AndComplement(a, mask, w);
    WholeBits(a, w);
  }

  lemma RotatedField(x: U64, sh: Six, k: nat, n: nat)
    requires sh + k == 64 && n <= k
    ensures LowBits(Rotl64(x, sh), sh + n) - LowBits(Rotl64(x, sh), sh) == ShiftLeft(LowBits(x, n), sh)
  {
    RotlBound(x, sh, k);
    JoinLow(LowBits(x, k), ShiftRight(x, k), sh, n);
    Join(LowBits(x, k), ShiftRight(x, k), sh);
    LowOfLow(x, n, k);
  }

  lemma InsertValue(a: U64, x: U64, sh: nat, n: nat, b: nat)
    requires 0 < n && sh + n + b == 64
    ensures RotateInsert(x, a, sh, b) == Insert(a, x, sh, n)
  {
    hide Rotl64, LowBits, ShiftLeft, BitAnd, Or64, Pow2;
    SelectByMask(Rotl64(x, sh), a, Mask(b, 63 - sh), 64);
    AndMask(Rotl64(x, sh), sh, sh + n);
    AndMask(a, sh, sh + n);
    RotatedField(x, sh, 64 - sh, n);
  }

  // ----- The mnemonics -----

  /** sldi shifts left, losing the bits that leave the register. */
  lemma SldiShifts(m: Machine, a: Reg, s: Reg, n: Six)
    ensures Exec(Sldi(a, s, n), m) == Set(m, a, Shl64(m.regs[s], n))
  {
    hide RotateKeep, RotateWordKeep, Shl64, Shr64, Low64;
    RotateLeftKeepAbove(m.regs[s], n, 64 - n);
  }

  /** srdi shifts right, filling with zeros. */
  lemma SrdiShifts(m: Machine, a: Reg, s: Reg, n: Six)
    ensures Exec(Srdi(a, s, n), m) == Set(m, a, Shr64(m.regs[s], n))
  {
    hide RotateKeep, RotateWordKeep, Shl64, Shr64, Low64;
    RotateRight(m.regs[s], n, (64 - n) % 64);
  }

  /** clrldi clears the n most significant bits. */
  lemma ClrldiClears(m: Machine, a: Reg, s: Reg, n: Six)
    ensures Exec(Clrldi(a, s, n), m) == Set(m, a, Low64(m.regs[s], 64 - n))
  {
    hide RotateKeep, RotateWordKeep, Shl64, Shr64, Low64;
    ClearAbove(m.regs[s], n);
  }

  /** clrrdi clears the n least significant bits. */
  lemma ClrrdiClears(m: Machine, a: Reg, s: Reg, n: Six)
    ensures Low64(m.regs[s], n) <= m.regs[s]
    ensures Exec(Clrrdi(a, s, n), m) == Set(m, a, m.regs[s] - Low64(m.regs[s], n))
  {
    hide RotateKeep, RotateWordKeep, Shl64, Shr64, Low64;
    ClearBelow(m.regs[s], n);
  }

  /** insrdi replaces the n bits of a that start at bit b by the n low bits of s. */
  lemma InsrdiInserts(m: Machine, a: Reg, s: Reg, n: nat, b: nat)
    requires 0 < n && b + n <= 64
    ensures 0 <= Insert(m.regs[a], m.regs[s], 64 - (b + n), n) < WRAP
    ensures Exec(Insrdi(a, s, n, b), m) == Set(m, a, Insert(m.regs[a], m.regs[s], 64 - (b + n), n))
  {
    hide RotateInsert, Insert;
    var sh := 64 - (b + n);
    InsertValue(m.regs[a], m.regs[s], sh, n, b);
    assert Insrdi(a, s, n, b) == Rldimi(a, s, sh, b);
  }

  // ----- AND with a 16-bit immediate -----

  function Log2(x: nat): nat {
    if x <= 1 then 0 else 1 + Log2(x / 2)
  }

  /** The test x != 0 && (x & (x - 1)) == 0 on a 64-bit signed x. */
  predicate IsPowerOf2Long(x: int) {
    x != 0 && BitAnd(x % WRAP, (x - 1) % WRAP) == 0
  }

  lemma {:induction false} AndSelf(x: nat)
    ensures BitAnd(x, x) == x
  {
    if x > 0 {
      AndSelf(x / 2);
    }
  }

  lemma PowerTestStep(x: nat)
    requires x > 1
    ensures BitAnd(x, x - 1) == 0 <==> x % 2 == 0 && BitAnd(x / 2, x / 2 - 1) == 0
  {
    hide BitAnd;
    AndStep(x, x - 1);
    if x % 2 == 1 {
      assert (x - 1) / 2 == x / 2;
      AndSelf(x / 2);
    } else {
      assert (x - 1) / 2 == x / 2 - 1;
    }
  }

  lemma {:induction false} PowerTest(x: nat)
    requires x > 0
    ensures BitAnd(x, x - 1) == 0 <==> x == Pow2(Log2(x))
  {
    if x > 1 {
      PowerTestStep(x);
      PowerTest(x / 2);
    }
  }

  lemma {:induction false} CommonTopBit(x: nat, y: nat, k: nat)
    requires x >= Pow2(k) && y >= Pow2(k)
    requires x < 2 * Pow2(k) && y < 2 * Pow2(k)
    ensures BitAnd(x, y) >= Pow2(k)
  {
    if k > 0 {
      CommonTopBit(x / 2, y / 2, k - 1);
    }
  }

  function Negated(ui: int): int { -ui }

  /** The one-instruction AND macro. */
  function Andi(a: Reg, s: Reg, ui: U16): Instr {
    if IsPowerOf2Long(ui + 1) then Clrldi(a, s, 64 - Log2(ui + 1))
    else if IsPowerOf2Long(ui) then Rlwinm(a, s, 0, (31 - Log2(ui)) % 32, (31 - Log2(ui)) % 32)
    else if IsPowerOf2Long(Negated(ui)) then Clrrdi(a, s, Log2(Negated(ui) % WRAP))
    else AndiDot(a, s, ui)
  }

  lemma {:induction false} Log2Bound(x: nat, k: nat)
    requires 0 < x < Pow2(k)
    ensures Log2(x) < k
  {
    if x > 1 {
      Log2Bound(x / 2, k - 1);
    }
  }

  /** The branch for negated powers of two is never taken. */
  lemma NegatedPowerUnreachable(ui: U16)
    requires ui > 0
    ensures !IsPowerOf2Long(Negated(ui))
  {
    TopBit63(63);
    CommonTopBit(Negated(ui) % WRAP, (Negated(ui) - 1) % WRAP, 63);
  }

  lemma TopBit63(k: nat)
    requires k == 63
    ensures 2 * Pow2(k) == WRAP
  {
    Pow2Values();
    assert Pow2(k + 1) == 2 * Pow2(k);
  }

  lemma AndLowMask(x: U64, k: nat)
    requires 0 < k <= 16
    ensures RotateKeep(x, 0, 64 - k, 63) == BitAnd(x, Pow2(k) - 1)
  {
    ClearAbove(x, 64 - k);
    AndMask(x, 0, k);
  }

  lemma ShiftLeftZero(w: nat)
    ensures ShiftLeft(w, 0) == w
  {
  }

  lemma UnrotatedWord(w: nat, h: nat)
    requires w < Pow2(h)
    ensures LowBits(ShiftLeft(LowBits(w, h), 0) + ShiftRight(w, h), h) == w
  {
    hide LowBits, ShiftRight, ShiftLeft, Pow2;
    WholeBits(w, h);
    ShiftRightBound(w, h, 0);
    Pow2Zero();
    ShiftLeftZero(w);
  }

  lemma Unrotated32(x: U64, h: nat)
    requires h == 32
    ensures Rotl32(x, 0) == ShiftLeft(LowBits(x, h), h) + LowBits(x, h)
  {
    hide LowBits, ShiftRight, ShiftLeft, Pow2;
    UnrotatedWord(LowBits(x, h), h);
  }

  /** The parts of a rotated 32-bit word. */
  lemma RotatedWordParts(w: nat, n: nat, k: nat)
    requires n + k == 32 && w < Pow2(32)
    ensures var r := ShiftLeft(LowBits(w, k), n) + ShiftRight(w, k);
            r < Pow2(32) && LowBits(r, 32) == r && LowBits(r, n) == ShiftRight(w, k)
  {
    hide LowBits, ShiftRight, ShiftLeft, Pow2;
    ShiftRightBound(w, k, n);
    JoinBound(LowBits(w, k), ShiftRight(w, k), n, k);
    Join(LowBits(w, k), ShiftRight(w, k), n);
    WholeBits(ShiftLeft(LowBits(w, k), n) + ShiftRight(w, k), 32);
  }

  /** Bits l to h of a word that is in both halves of a register. */
  lemma AndBothHalves(r: nat, l: nat, h: nat)
    requires r < Pow2(32) && l <= h <= 32
    ensures 0 <= Pow2(h) - Pow2(l)
    ensures BitAnd(ShiftLeft(r, 32) + r, Pow2(h) - Pow2(l)) == LowBits(r, h) - LowBits(r, l)
  {
    hide LowBits, BitAnd, ShiftLeft, Pow2;
    var y := ShiftLeft(r, 32) + r;
    AndMask(y, l, h);
    Join(r, r, 32);
    LowOfLow(y, h, 32);
    LowOfLow(y, l, 32);
  }

  lemma RotateWordLeft(x: U64, n: Five, k: nat)
    requires n + k == 32
    ensures RotateWordKeep(x, n, 0, 31 - n) == LowBits(ShiftLeft(x, n), 32)
  {
    hide LowBits, BitAnd, ShiftLeft, ShiftRight, Pow2;
    var w := LowBits(x, 32);
    var r := ShiftLeft(LowBits(w, k), n) + ShiftRight(w, k);
    RotatedWordParts(w, n, k);
    AndBothHalves(r, n, 32);
    LowOfLow(x, k, 32);
    LowOfShifted(x, n, k);
  }

  lemma RotateWordRight(x: U64, n: nat, k: Five)
    requires 0 < n < 32 && n + k == 32
    ensures RotateWordKeep(x, k, n, 31) == ShiftRight(LowBits(x, 32), n)
  {
    hide LowBits, BitAnd, ShiftLeft, ShiftRight, Pow2;
    var w := LowBits(x, 32);
    var r := ShiftLeft(LowBits(w, n), k) + ShiftRight(w, n);
    RotatedWordParts(w, k, n);
    AndBothHalves(r, 0, k);
    LowZero(r);
    Pow2Zero();
  }

  lemma KeepWord(x: U64)
    ensures RotateWordKeep(x, 0, 0, 31) == LowBits(x, 32)
  {
    RotateWordLeft(x, 0, 32);
    ShiftLeftZero(x);
  }

  /** slwi shifts the low word left, losing the bits that leave it, and clears the rest. */
  lemma SlwiShifts(m: Machine, a: Reg, s: Reg, n: Five)
    ensures Exec(Slwi(a, s, n), m).mem == m.mem
    ensures Exec(Slwi(a, s, n), m).regs == m.regs[a := LowWord(ShiftLeft(m.regs[s], n))]
  {
    hide RotateKeep, RotateWordKeep, LowBits, ShiftLeft;
    RotateWordLeft(m.regs[s], n, 32 - n);
  }

  /** srwi shifts the low word right, and clears the rest. */
  lemma SrwiShifts(m: Machine, a: Reg, s: Reg, n: Five)
    ensures Exec(Srwi(a, s, n), m).mem == m.mem
    ensures Exec(Srwi(a, s, n), m).regs == m.regs[a := Shr64(LowWord(m.regs[s]), n)]
  {
    hide RotateKeep, RotateWordKeep, LowBits, ShiftRight;
    if n == 0 {
      KeepWord(m.regs[s]);
      Unshifted(LowBits(m.regs[s], 32));
    } else {
      RotateWordRight(m.regs[s], n, 32 - n);
    }
  }

  function LowWord(x: nat): U64 {
    Pow2Values();
    LowBits(x, 32)
  }

  lemma AndSingleBit(x: U64, k: nat, h: nat)
    requires k < 16 && h == 32
    ensures RotateWordKeep(x, 0, 31 - k, 31 - k) == BitAnd(x, Pow2(k))
  {
    hide LowBits, ShiftLeft, BitAnd, Rotl32, Pow2;
    Unrotated32(x, h);
    Pow2Step(k + 1);
    AndBothHalves(LowBits(x, h), k, k + 1);
    AndMask(x, k, k + 1);
    LowOfLow(x, k, h);
    LowOfLow(x, k + 1, h);
  }

  lemma PowerOf2Long(x: nat)
    requires x <= 0x1_0000
    ensures IsPowerOf2Long(x) <==> x > 0 && x == Pow2(Log2(x))
  {
    hide BitAnd;
    if x > 0 {
      assert x % WRAP == x && (x - 1) % WRAP == x - 1;
      PowerTest(x);
    }
  }

  lemma AndiWhenMask(m: Machine, a: Reg, s: Reg, ui: U16)
    requires ui > 0 && IsPowerOf2Long(ui + 1)
    ensures Exec(Andi(a, s, ui), m) == Set(m, a, BitAnd(m.regs[s], ui))
  {
    hide RotateKeep, RotateWordKeep, BitAnd, IsPowerOf2Long, Log2;
    PowerOf2Long(ui + 1);
    Pow2Values();
    Log2Bound(ui + 1, 17);
    AndLowMask(m.regs[s], Log2(ui + 1));
  }

  lemma AndiWhenBit(m: Machine, a: Reg, s: Reg, ui: U16)
    requires ui > 0 && !IsPowerOf2Long(ui + 1) && IsPowerOf2Long(ui)
    ensures Exec(Andi(a, s, ui), m) == Set(m, a, BitAnd(m.regs[s], ui))
  {
    hide RotateKeep, RotateWordKeep, BitAnd, IsPowerOf2Long, Log2, Pow2;
    PowerOf2Long(ui);
    Pow2Values();
    Log2Bound(ui, 16);
    AndSingleBit(m.regs[s], Log2(ui), 32);
  }

  /** With the immediate 0 the macro asks for a clear of 64 bits, which wraps to a plain copy. */
  lemma AndiOfZeroCopies(m: Machine, a: Reg, s: Reg)
    ensures Exec(Andi(a, s, 0), m) == Set(m, a, m.regs[s])
  {
    hide RotateKeep;
    assert BitAnd(1, 0) == 0;
    KeepAll(m.regs[s]);
  }

  /**
   The macro computes s AND ui for every non-zero immediate; with a zero immediate it is
   right only for a register that is already zero.
   */
  lemma AndiMeaning(m: Machine, a: Reg, s: Reg, ui: U16)
    ensures Exec(Andi(a, s, ui), m) == Set(m, a, BitAnd(m.regs[s], ui)) <==> ui != 0 || m.regs[s] == 0
  {
    if ui == 0 {
      AndiOfZeroCopies(m, a, s);
      assert Set(m, a, m.regs[s]).regs[a] == m.regs[s];
    } else if IsPowerOf2Long(ui + 1) {
      AndiWhenMask(m, a, s, ui);
    } else if IsPowerOf2Long(ui) {
      AndiWhenBit(m, a, s, ui);
    } else {
      NegatedPowerUnreachable(ui);
    }
  }
}
