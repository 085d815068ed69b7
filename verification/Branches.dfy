/**
 Branch displacements: the LI and BD fields of relative branches, the patching of a branch
 whose target has become known, and the range tests.
 */
module Branches {
  import opened Common

  type Word = w: nat | w < 0x1_0000_0000
  type Int32 = x: int | -0x8000_0000 <= x < 0x8000_0000
  type Address = a: nat | a < 0x1_0000_0000_0000_0000

  const B_OP: nat := 18
  const BC_OP: nat := 16

  function Opcode(w: Word): nat { w / 0x400_0000 }

  /** Conversion of a longer integer to int. */
  function Trunc32(x: int): Int32 { (x + 0x8000_0000) % 0x1_0000_0000 - 0x8000_0000 }

  /** Distance in instructions; the shift is arithmetic. */
  function Disp(dest: int, pos: int): int { Trunc32(dest - pos) / 4 }

  // Displacement fields of width 24 (LI) and 14 (BD), both starting at bit 2.

  function Width(bc: bool): nat { if bc then 0x4000 else 0x100_0000 }

  /** The field of value x, moved into place; a mask of ones is the field of -1. */
  function Field(bc: bool, x: int): nat { x % Width(bc) * 4 }

  function Cleared(bc: bool, w: Word): nat { w - w / 4 % Width(bc) * 4 }

  /** Sign-extended field, in bytes. */
  function InvField(bc: bool, w: Word): int {
    var f := w / 4 % Width(bc);
    (if f >= Width(bc) / 2 then f - Width(bc) else f) * 4
  }

  /** None where the original refuses the instruction. */
  function PatchedBranch(dest: Int32, inst: Word, pos: Int32): Option<nat> {
    if Opcode(inst) == B_OP then Some(Cleared(false, inst) + Field(false, Disp(dest, pos)))
    else if Opcode(inst) == BC_OP then Some(Cleared(true, inst) + Field(true, Disp(dest, pos)))
    else None
  }

  function BranchDestination(inst: Word, pos: Int32): Option<Int32> {
    if Opcode(inst) == B_OP then Some(Trunc32(pos + InvField(false, inst)))
    else if Opcode(inst) == BC_OP then Some(Trunc32(InvField(true, inst) + pos))
    else None
  }

  /** A byte distance that a field can hold. */
  predicate Reachable(bc: bool, delta: int) {
    delta % 4 == 0 && -2 * Width(bc) <= delta < 2 * Width(bc)
  }

  /** A word from its high part, its field and its two low bits. */
  lemma WordParts(n: nat, q: nat, g: nat, l: nat)
    requires n > 0 && g < n && l < 4
    ensures var v := (n * q + g) * 4 + l;
            v / 4 == n * q + g && v % 4 == l && v / 4 / n == q && v / 4 % n == g
  {
    DivModUnique((n * q + g) * 4 + l, 4, n * q + g, l);
    DivModUnique(n * q + g, n, q, g);
  }

  lemma WordSplit(n: nat, w: nat)
    requires n > 0
    ensures w == (n * (w / 4 / n) + w / 4 % n) * 4 + w % 4
  {
    var h := w / 4;
    assert h == n * (h / n) + h % n;
  }

  lemma HighPartBound(n: nat, q: nat, f: nat, g: nat, l: nat)
    requires (n == 0x4000 || n == 0x100_0000) && f < n && g < n && l < 4
    requires (n * q + f) * 4 + l < 0x1_0000_0000
    ensures (n * q + g) * 4 + l < 0x1_0000_0000
  {
  }

  /** Replacing a field: a word again, other bits kept, and the new field in place. */
  lemma FieldReplaced(bc: bool, w: Word, x: int)
    ensures var v := Cleared(bc, w) + Field(bc, x);
            && v < 0x1_0000_0000
            && v / 4 % Width(bc) == x % Width(bc)
            && v % 4 == w % 4 && v / 4 / Width(bc) == w / 4 / Width(bc)
            && Cleared(bc, v) == Cleared(bc, w)
  {
    var n := Width(bc);
    var q, f, l, g := w / 4 / n, w / 4 % n, w % 4, x % n;
    WordSplit(n, w);
    var v := (n * q + g) * 4 + l;
    assert Cleared(bc, w) + Field(bc, x) == v;
    WordParts(n, q, g, l);
    HighPartBound(n, q, f, g, l);
  }

  lemma OpcodeKept(bc: bool, w: Word, v: Word)
    requires v / 4 / Width(bc) == w / 4 / Width(bc)
    ensures Opcode(v) == Opcode(w)
  {
    if bc {
      assert Opcode(v) == v / 4 / 0x4000 / 0x400;
      assert Opcode(w) == w / 4 / 0x4000 / 0x400;
    } else {
      assert Opcode(v) == v / 4 / 0x100_0000;
      assert Opcode(w) == w / 4 / 0x100_0000;
    }
  }

  /** The field of a distance decodes to it exactly when the distance is reachable. */
  lemma FieldDecodes(bc: bool, delta: Int32)
    ensures var f := delta / 4 % Width(bc);
            (if f >= Width(bc) / 2 then f - Width(bc) else f) * 4 == delta <==> Reachable(bc, delta)
  {
    var n, x := Width(bc), delta / 4;
    var f, k := x % n, x / n;
    assert x == k * n + f;
    assert delta == x * 4 + delta % 4;
  }

  lemma TruncSum(pos: Int32, dest: Int32, x: int)
    requires -0x4000_0000 <= x < 0x4000_0000
    ensures Trunc32(pos + x) == dest <==> x == Trunc32(dest - pos)
  {
  }

  lemma PatchedField(bc: bool, inst: Word, delta: Int32)
    ensures var w := Cleared(bc, inst) + Field(bc, delta / 4);
            && w < 0x1_0000_0000 && Opcode(w) == Opcode(inst)
            && -0x4000_0000 <= InvField(bc, w) < 0x4000_0000
            && (InvField(bc, w) == delta <==> Reachable(bc, delta))
  {
    FieldReplaced(bc, inst, delta / 4);
    hide Cleared, Field, Reachable, Opcode;
    var w := Cleared(bc, inst) + Field(bc, delta / 4);
    OpcodeKept(bc, inst, w);
    FieldDecodes(bc, delta);
  }

  /**
   A patched branch goes where it was patched to, exactly when the destination is aligned
   with the branch and within the reach of its field.
   */
  lemma PatchRoundTrip(dest: Int32, inst: Word, pos: Int32)
    requires Opcode(inst) == B_OP || Opcode(inst) == BC_OP
    ensures PatchedBranch(dest, inst, pos).Some?
    ensures var w := PatchedBranch(dest, inst, pos).value;
            && w < 0x1_0000_0000
            && (BranchDestination(w, pos) == Some(dest) <==>
                Reachable(Opcode(inst) == BC_OP, Trunc32(dest - pos)))
  {
    hide Trunc32, Cleared, Field, InvField, Reachable, Opcode;
    var bc := Opcode(inst) == BC_OP;
    var delta := Trunc32(dest - pos);
    PatchedField(bc, inst, delta);
    var w := Cleared(bc, inst) + Field(bc, delta / 4);
    TruncSum(pos, dest, InvField(bc, w));
  }

  /** Patching touches the displacement only, and the last patch wins. */
  lemma PatchKeepsTheRest(dest: Int32, dest': Int32, inst: Word, pos: Int32)
    requires Opcode(inst) == B_OP || Opcode(inst) == BC_OP
    ensures var bc, w := Opcode(inst) == BC_OP, PatchedBranch(dest, inst, pos).value;
            && w < 0x1_0000_0000
            && Cleared(bc, w) == Cleared(bc, inst)
            && PatchedBranch(dest', w, pos) == PatchedBranch(dest', inst, pos)
  {
    var bc := Opcode(inst) == BC_OP;
    FieldReplaced(bc, inst, Disp(dest, pos));
    var w := Cleared(bc, inst) + Field(bc, Disp(dest, pos));
    OpcodeKept(bc, inst, w);
    hide Cleared, Field, Disp, Opcode;
  }

  // ----- Range tests on addresses -----

  const SPACE: nat := 0x1_0000_0000_0000_0000

  /** The two tests: the destination is aligned and the truncated distance small enough. */
  predicate IsWithinRange(bc: bool, a: Address, pc: Address) {
    && a % 4 == 0
    && -(Width(bc) as int / 2) <= Disp(a, pc) < Width(bc) / 2 - 1
  }

  /** Where a branch word at pc with the encoded distance goes. */
  function EncodedDestination(bc: bool, inst: Word, a: Address, pc: Address): Address {
    FieldReplaced(bc, inst, Disp(a, pc));
    (pc + InvField(bc, Cleared(bc, inst) + Field(bc, Disp(a, pc)))) % SPACE
  }

  /** The signed distance from pc to a in 64-bit arithmetic. */
  function Distance(a: Address, pc: Address): int {
    (a - pc + SPACE / 2) % SPACE - SPACE / 2
  }

  lemma TruncDistance(a: Address, pc: Address)
    ensures Trunc32(a - pc) == Trunc32(Distance(a, pc))
    ensures Trunc32(a - pc) == Distance(a, pc) <==> -0x8000_0000 <= Distance(a, pc) < 0x8000_0000
  {
    var k := (a - pc + SPACE / 2) / SPACE;
    assert Distance(a, pc) == a - pc - k * SPACE;
    assert Distance(a, pc) == a - pc - k * 0x1_0000_0000 * 0x1_0000_0000;
  }

  lemma DestinationByDistance(a: Address, pc: Address, x: int)
    requires -0x4000_0000 <= x < 0x4000_0000
    ensures (pc + x) % SPACE == a <==> x == Distance(a, pc)
  {
  }

  /**
   A positive range test guarantees the branch only for distances that fit in 32 bits:
   the test looks at the truncated distance.
   */
  lemma RangeTestMeaning(bc: bool, inst: Word, a: Address, pc: Address)
    requires IsWithinRange(bc, a, pc) && pc % 4 == 0
    ensures EncodedDestination(bc, inst, a, pc) == a <==> -0x8000_0000 <= Distance(a, pc) < 0x8000_0000
  {
    var delta := Trunc32(a - pc);
    assert Reachable(bc, delta) by { AlignedDistance(a, pc); }
    PatchedField(bc, inst, delta);
    hide Trunc32, Cleared, Field, InvField, Reachable, Distance;
    TruncDistance(a, pc);
    DestinationByDistance(a, pc, delta);
  }

  lemma AlignedDistance(a: Address, pc: Address)
    requires a % 4 == 0 && pc % 4 == 0
    ensures Trunc32(a - pc) % 4 == 0
  {
  }

  /** A target exactly 2^32 bytes away passes the test, yet no branch word reaches it. */
  lemma RangeTestFooled(inst: Word)
    ensures IsWithinRange(false, 0x1_0000_0000, 0)
    ensures EncodedDestination(false, inst, 0x1_0000_0000, 0) != 0x1_0000_0000
  {
    hide EncodedDestination;
    assert Disp(0x1_0000_0000, 0) == 0;
    RangeTestMeaning(false, inst, 0x1_0000_0000, 0);
  }

  /**
   For other distances the test is passed exactly by the aligned targets within 32 MB, or 32 KB for a
   conditional branch, except the farthest one forward, which a branch would reach.
   */
  lemma RangeTestExact(bc: bool, a: Address, pc: Address)
    requires pc % 4 == 0 && -0x8000_0000 <= Distance(a, pc) < 0x8000_0000
    ensures IsWithinRange(bc, a, pc) <==>
            a % 4 == 0 && if bc then -0x8000 <= Distance(a, pc) < 0x7ffc else -0x200_0000 <= Distance(a, pc) < 0x1ff_fffc
    ensures Reachable(bc, Distance(a, pc)) && !IsWithinRange(bc, a, pc) <==> Distance(a, pc) == if bc then 0x7ffc else 0x1ff_fffc
  {
    TruncDistance(a, pc);
    DistanceAligned(a, pc);
    hide Trunc32, Distance;
    var d := Distance(a, pc);
    assert Disp(a, pc) == d / 4;
  }

  lemma DistanceAligned(a: Address, pc: Address)
    requires pc % 4 == 0
    ensures Distance(a, pc) % 4 == 0 <==> a % 4 == 0
  {
    var k := (a - pc + SPACE / 2) / SPACE;
    assert Distance(a, pc) == a - pc - k * SPACE;
  }

  /** As machine words: an unconditional branch, forwards and back, and a word that is no branch. */
  lemma BranchWords()
    ensures PatchedBranch(0x108, 0x4800_0000, 0x100) == Some(0x4800_0008)
    ensures BranchDestination(0x4bff_fffc, 0x100) == Some(0xfc)
    ensures PatchedBranch(0x108, 0x6000_0000, 0x100) == None && BranchDestination(0x6000_0000, 0x100) == None
  {
    assert Disp(0x108, 0x100) == 2 && InvField(false, 0x4bff_fffc) == -4;
  }

  /** And a conditional branch back. */
  lemma ConditionalWord()
    ensures PatchedBranch(0x100, 0x4182_0000, 0x108) == Some(0x4182_fff8)
    ensures BranchDestination(0x4182_fff8, 0x108) == Some(0x100)
  {
    assert Disp(0x100, 0x108) == -2 && InvField(true, 0x4182_fff8) == -8;
  }
}
