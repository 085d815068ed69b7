/**
 Materialising 64-bit constants: the fixed five-instruction pattern, which is patchable,
 and the optimised sequence with carry compensation.
 */
module Constants {
  import opened Bits
  import opened Common
  import opened Power
  import opened Machine
  import opened Rotates

  type Long = x: int | -0x8000_0000_0000_0000 <= x < 0x8000_0000_0000_0000

  function LowWord(v: int): nat { v % 0x1_0000_0000 }
  function HighWord(v: int): nat { v / 0x1_0000_0000 % 0x1_0000_0000 }

  // ----- Arithmetic meaning of the instructions used -----

  lemma ModPlusMultiple(a: int, k: int)
    ensures (a + k * WRAP) % WRAP == a % WRAP
  {
  }

  lemma {:induction false} ShiftLeftWord(x: nat)
    ensures ShiftLeft(x, 16) == x * 0x1_0000
    ensures ShiftLeft(x, 32) == x * 0x1_0000_0000
  {
    ShiftLeftByte(x, 0);
    ShiftLeftByte(x, 8);
    ShiftLeftByte(x, 16);
    ShiftLeftByte(x, 24);
  }

  lemma ShiftLeftByte(x: nat, n: nat)
    ensures ShiftLeft(x, n + 8) == 256 * ShiftLeft(x, n)
  {
    assert ShiftLeft(x, n + 2) == 4 * ShiftLeft(x, n);
    assert ShiftLeft(x, n + 4) == 4 * ShiftLeft(x, n + 2);
    assert ShiftLeft(x, n + 6) == 4 * ShiftLeft(x, n + 4);
  }

  /** The low 32 bits are the remainder by 2^32. */
  lemma LowHalf(x: nat, h: nat)
    requires h == 32
    ensures LowBits(x, h) == x % 0x1_0000_0000
  {
    hide LowBits, ShiftLeft, Pow2;
    var q, r := x / 0x1_0000_0000, x % 0x1_0000_0000;
    ShiftLeftWord(q);
    Pow2Values();
    Join(q, r, h);
  }

  lemma Shl32(v: U64, w: nat)
    requires w == 64
    ensures Shl64(v, 32) == Wrap(v * 0x1_0000_0000)
  {
    hide LowBits, ShiftLeft, Pow2;
    LowOfShifted(v, 32, 32);
    LowHalf(v, 32);
    ShiftLeftWord(v % 0x1_0000_0000);
    assert v * 0x1_0000_0000 == v % 0x1_0000_0000 * 0x1_0000_0000 + v / 0x1_0000_0000 * WRAP;
  }

  /** insrdi(d, s, 32, 0) puts the low half of s above the low half of d. */
  lemma InsertHigh(a: U64, s: U64, w: nat)
    requires w == 64
    ensures Insert(a, s, 32, 32) == s % 0x1_0000_0000 * 0x1_0000_0000 + a % 0x1_0000_0000
  {
    hide LowBits, ShiftLeft, Pow2;
    Pow2Values();
    WholeBits(a, w);
    LowHalf(a, 32);
    LowHalf(s, 32);
    ShiftLeftWord(s % 0x1_0000_0000);
  }

  lemma OrLow(v: U64, ui: U16)
    requires v % 0x1_0000 == 0
    ensures Or64(v, ui) == v + ui
  {
    hide ShiftLeft, Pow2, BitOr;
    ShiftLeftWord(v / 0x1_0000);
    Pow2Values();
    OrJoin(v / 0x1_0000, ui, 16);
  }

  lemma OrShifted(v: U64, ui: U16)
    requires v % 0x1_0000_0000 == 0
    ensures Or64(v, ui * 0x1_0000) == v + ui * 0x1_0000
  {
    hide ShiftLeft, Pow2, BitOr;
    ShiftLeftWord(v / 0x1_0000_0000);
    Pow2Values();
    OrJoin(v / 0x1_0000_0000, ui * 0x1_0000, 32);
  }

  // ----- One instruction at a time -----

  lemma SetTwice(m: Machine, d: Reg, v: U64, w: U64)
    ensures Set(Set(m, d, v), d, w) == Set(m, d, w)
  {
    assert m.regs[d := v][d := w] == m.regs[d := w];
  }

  lemma ExecLi(m: Machine, d: Reg, si: S16)
    ensures Exec(Addi(d, 0, si), m) == Set(m, d, Wrap(si))
  {
  }

  lemma ExecLis(m: Machine, d: Reg, si: S16)
    ensures Exec(Addis(d, 0, si), m) == Set(m, d, Wrap(si * 0x1_0000))
  {
  }

  lemma ExecAddi(m: Machine, d: Reg, si: S16)
    requires d != 0
    ensures Exec(Addi(d, d, si), m) == Set(m, d, Wrap(m.regs[d] + si))
  {
  }

  lemma ExecAddis(m: Machine, d: Reg, si: S16)
    requires d != 0
    ensures Exec(Addis(d, d, si), m) == Set(m, d, Wrap(m.regs[d] + si * 0x1_0000))
  {
  }

  lemma ExecOri(m: Machine, d: Reg, ui: U16)
    requires m.regs[d] % 0x1_0000 == 0
    ensures Exec(Ori(d, d, ui), m) == Set(m, d, m.regs[d] + ui)
  {
    hide Or64;
    OrLow(m.regs[d], ui);
  }

  lemma ExecOris(m: Machine, d: Reg, ui: U16)
    requires m.regs[d] % 0x1_0000_0000 == 0
    ensures Exec(Oris(d, d, ui), m) == Set(m, d, m.regs[d] + ui * 0x1_0000)
  {
    hide Or64;
    OrShifted(m.regs[d], ui);
  }

  lemma ExecSldi32(m: Machine, d: Reg)
    ensures Exec(Sldi(d, d, 32), m) == Set(m, d, Wrap(m.regs[d] as int * 0x1_0000_0000))
  {
    hide Exec, Shl64;
    SldiShifts(m, d, d, 32);
    Shl32(m.regs[d], 64);
  }

  lemma ExecInsrdi32(m: Machine, d: Reg, t: Reg)
    ensures Exec(Insrdi(d, t, 32, 0), m) ==
            Set(m, d, LowWord(m.regs[t]) as int * 0x1_0000_0000 + LowWord(m.regs[d]))
  {
    hide Exec, Insert;
    InsrdiInserts(m, d, t, 32, 0);
    InsertHigh(m.regs[d], m.regs[t], 64);
  }

  // ----- The patchable pattern -----

  function ChunkA(x: Long): U16 { x / 0x1_0000_0000_0000 % 0x1_0000 }
  function ChunkB(x: Long): U16 { x / 0x1_0000_0000 % 0x1_0000 }
  function ChunkC(x: Long): U16 { x / 0x1_0000 % 0x1_0000 }
  function ChunkD(x: Long): U16 { x % 0x1_0000 }

  /** Always five instructions, for any constant. */
  function LoadConst(d: Reg, x: Long, tmp: Option<Reg>): (code: seq<Instr>)
    ensures |code| == 5
  {
    match tmp
    case None =>
      [Addis(d, 0, Signed16(ChunkA(x))), Ori(d, d, ChunkB(x)), Sldi(d, d, 32),
       Oris(d, d, ChunkC(x)), Ori(d, d, ChunkD(x))]
    case Some(t) =>
      [Addis(t, 0, Signed16(ChunkA(x))), Addis(d, 0, Signed16(ChunkC(x))), Ori(t, t, ChunkB(x)),
       Ori(d, d, ChunkD(x)), Insrdi(d, t, 32, 0)]
  }

  lemma JoinChunks(x: Long)
    ensures x % WRAP == ChunkA(x) * 0x1_0000_0000_0000 + ChunkB(x) * 0x1_0000_0000
                        + ChunkC(x) * 0x1_0000 + ChunkD(x)
  {
    var q1 := x / 0x1_0000;
    var q2 := x / 0x1_0000_0000;
    var q3 := x / 0x1_0000_0000_0000;
    assert x == q1 * 0x1_0000 + ChunkD(x);
    assert q1 == q2 * 0x1_0000 + ChunkC(x);
    assert q2 == q3 * 0x1_0000 + ChunkB(x);
    var k := q3 / 0x1_0000;
    assert q3 == k * 0x1_0000 + ChunkA(x);
    var sum := ChunkA(x) * 0x1_0000_0000_0000 + ChunkB(x) * 0x1_0000_0000 + ChunkC(x) * 0x1_0000 + ChunkD(x);
    assert x == sum + k * WRAP;
    ModPlusMultiple(sum, k);
  }

  lemma Run5(i1: Instr, i2: Instr, i3: Instr, i4: Instr, i5: Instr, m: Machine)
    ensures Run([i1, i2, i3, i4, i5], m) == Exec(i5, Exec(i4, Exec(i3, Exec(i2, Exec(i1, m)))))
  {
    hide Exec;
    RunSnoc([], i1, m);
    RunSnoc([i1], i2, m);
    RunSnoc([i1, i2], i3, m);
    RunSnoc([i1, i2, i3], i4, m);
    RunSnoc([i1, i2, i3, i4], i5, m);
    assert [i1, i2, i3, i4] + [i5] == [i1, i2, i3, i4, i5];
    assert [i1, i2, i3] + [i4] == [i1, i2, i3, i4];
    assert [i1, i2] + [i3] == [i1, i2, i3];
    assert [i1] + [i2] == [i1, i2];
    assert [] + [i1] == [i1];
  }

  /** Everything but the listed registers is as before. */
  ghost predicate OnlyChanges(m: Machine, m': Machine, d: Reg, tmp: Option<Reg>) {
    m'.mem == m.mem && forall r: Reg :: r != d && Some(r) != tmp ==> m'.regs[r] == m.regs[r]
  }

  /** lis followed by ori: the two chunks, sign-extended from the upper one. */
  lemma HighPair(a: U16, b: U16)
    ensures var v := Signed16(a) * 0x1_0000 % WRAP;
            v % 0x1_0000 == 0 && v + b < WRAP && (v + b) % 0x1_0000_0000 == a * 0x1_0000 + b
  {
  }

  lemma LoadConstWithoutTmp(m: Machine, d: Reg, x: Long)
    ensures Run(LoadConst(d, x, None), m) == Set(m, d, x % WRAP)
  {
    hide Exec, ChunkA, ChunkB, ChunkC, ChunkD;
    var c := LoadConst(d, x, None);
    Run5(c[0], c[1], c[2], c[3], c[4], m);
    assert c == [c[0], c[1], c[2], c[3], c[4]];
    var v1 := Signed16(ChunkA(x)) * 0x1_0000 % WRAP;
    var v2 := v1 + ChunkB(x);
    HighPair(ChunkA(x), ChunkB(x));
    ExecLis(m, d, Signed16(ChunkA(x)));
    ExecOri(Set(m, d, v1), d, ChunkB(x));
    SetTwice(m, d, v1, v2);
    var v3 := v2 * 0x1_0000_0000 % WRAP;
    ShiftedPair(v2, ChunkA(x), ChunkB(x));
    ExecSldi32(Set(m, d, v2), d);
    SetTwice(m, d, v2, v3);
    var v4 := v3 + ChunkC(x) * 0x1_0000;
    ExecOris(Set(m, d, v3), d, ChunkC(x));
    SetTwice(m, d, v3, v4);
    ExecOri(Set(m, d, v4), d, ChunkD(x));
    SetTwice(m, d, v4, v4 + ChunkD(x));
    JoinChunks(x);
  }

  lemma ShiftedPair(v: U64, a: U16, b: U16)
    requires v % 0x1_0000_0000 == a * 0x1_0000 + b
    ensures v * 0x1_0000_0000 % WRAP == a * 0x1_0000_0000_0000 + b * 0x1_0000_0000
  {
    var k := v / 0x1_0000_0000;
    var r := a * 0x1_0000_0000_0000 + b * 0x1_0000_0000;
    assert v * 0x1_0000_0000 == r + k * WRAP;
    ModPlusMultiple(r, k);
  }

  lemma LoadConstWithTmp(m: Machine, d: Reg, x: Long, t: Reg)
    requires t != d
    ensures var m' := Run(LoadConst(d, x, Some(t)), m);
            m'.regs[d] == x % WRAP && OnlyChanges(m, m', d, Some(t))
  {
    hide Exec, ChunkA, ChunkB, ChunkC, ChunkD;
    var c := LoadConst(d, x, Some(t));
    Run5(c[0], c[1], c[2], c[3], c[4], m);
    assert c == [c[0], c[1], c[2], c[3], c[4]];
    HighPair(ChunkA(x), ChunkB(x));
    HighPair(ChunkC(x), ChunkD(x));
    ExecLis(m, t, Signed16(ChunkA(x)));
    var m1 := Exec(c[0], m);
    ExecLis(m1, d, Signed16(ChunkC(x)));
    var m2 := Exec(c[1], m1);
    ExecOri(m2, t, ChunkB(x));
    var m3 := Exec(c[2], m2);
    ExecOri(m3, d, ChunkD(x));
    var m4 := Exec(c[3], m3);
    ExecInsrdi32(m4, d, t);
    JoinChunks(x);
  }

  /** The pattern always loads x, changing nothing but d and tmp. */
  lemma LoadConstLoads(m: Machine, d: Reg, x: Long, tmp: Option<Reg>)
    requires tmp != Some(d)
    ensures var m' := Run(LoadConst(d, x, tmp), m);
            m'.regs[d] == x % WRAP && OnlyChanges(m, m', d, tmp)
  {
    match tmp
    case None => LoadConstWithoutTmp(m, d, x);
    case Some(t) => LoadConstWithTmp(m, d, x, t);
  }

  // ----- Patching the pattern -----

  /** The immediate is the low half of an instruction word. */
  function SetImm(w: nat, imm: U16): nat { w - w % 0x1_0000 + imm }

  function GetImm(w: nat): U16 { w % 0x1_0000 }

  predicate IsOri(w: nat) { w / 0x400_0000 == 24 }
  predicate IsLis(w: nat) { w / 0x400_0000 == 15 && w / 0x1_0000 % 32 == 0 }

  lemma ImmediateOf(i: Instr)
    ensures GetImm(Encode(i)) == FieldsOf(i).low
    ensures IsOri(Encode(i)) <==> FieldsOf(i).op == 24
    ensures IsLis(Encode(i)) <==> FieldsOf(i).op == 15 && FieldsOf(i).r11 == 0
  {
    hide FieldsOf;
    var f := FieldsOf(i);
    PackedFields(f.op, f.r6, f.r11, f.low);
  }

  lemma SetImmChanges(i: Instr, j: Instr)
    requires FieldsOf(j) == FieldsOf(i).(low := FieldsOf(j).low)
    ensures SetImm(Encode(i), FieldsOf(j).low) == Encode(j)
  {
    hide FieldsOf;
    ImmediateOf(i);
  }

  lemma ChunkField(c: U16)
    ensures Signed16(c) % 0x1_0000 == c
  {
  }

  /** Where the four chunks of a constant sit in either shape of the pattern. */
  lemma PatternImmediates(d: Reg, x: Long, y: Long, tmp: Option<Reg>)
    ensures var c, e := LoadConst(d, x, tmp), LoadConst(d, y, tmp);
            && FieldsOf(c[0]) == FieldsOf(e[0]).(low := ChunkA(x))
            && FieldsOf(c[if tmp.None? then 1 else 2]) == FieldsOf(e[if tmp.None? then 1 else 2]).(low := ChunkB(x))
            && FieldsOf(c[if tmp.None? then 3 else 1]) == FieldsOf(e[if tmp.None? then 3 else 1]).(low := ChunkC(x))
            && FieldsOf(c[if tmp.None? then 4 else 3]) == FieldsOf(e[if tmp.None? then 4 else 3]).(low := ChunkD(x))
            && c[if tmp.None? then 2 else 4] == e[if tmp.None? then 2 else 4]
            && (tmp.None? ==> FieldsOf(e[1]).op == 24)
            && (tmp.Some? ==> FieldsOf(e[1]).op == 15 && FieldsOf(e[1]).r11 == 0)
  {
    hide ChunkA, ChunkB, ChunkC, ChunkD, Signed16;
    ChunkField(ChunkA(x));
    ChunkField(ChunkC(x));
  }

  /** The constant a load_const sequence loads, read back from its words. */
  function GetConst(words: seq<nat>): nat
    requires |words| == 5
  {
    if IsOri(words[1]) then
      GetImm(words[0]) * 0x1_0000_0000_0000 + GetImm(words[1]) * 0x1_0000_0000
      + GetImm(words[3]) * 0x1_0000 + GetImm(words[4])
    else
      GetImm(words[0]) * 0x1_0000_0000_0000 + GetImm(words[2]) * 0x1_0000_0000
      + GetImm(words[1]) * 0x1_0000 + GetImm(words[3])
  }

  /** Reading back what load_const wrote gives x, as an unsigned doubleword. */
  lemma GetConstOfLoadConst(d: Reg, x: Long, tmp: Option<Reg>)
    ensures GetConst(EncodeAll(LoadConst(d, x, tmp))) == Wrap(x)
  {
    hide Encode, FieldsOf, ChunkA, ChunkB, ChunkC, ChunkD, GetImm, IsOri, IsLis;
    PatternImmediates(d, x, x, tmp);
    var c := LoadConst(d, x, tmp);
    ImmediateOf(c[0]);
    ImmediateOf(c[1]);
    ImmediateOf(c[2]);
    ImmediateOf(c[3]);
    ImmediateOf(c[4]);
    JoinChunks(x);
  }

  /** Patching in place turns the words for y into the words for x, in either shape. */
  method PatchConst(a: array<nat>, p: nat, x: Long, ghost d: Reg, ghost y: Long, ghost tmp: Option<Reg>)
    requires p + 5 <= a.Length
    requires a[p..p + 5] == EncodeAll(LoadConst(d, y, tmp))
    modifies a
    ensures a[p..p + 5] == EncodeAll(LoadConst(d, x, tmp))
    ensures a[..p] == old(a[..p]) && a[p + 5..] == old(a[p + 5..])
  {
    hide Encode, FieldsOf, LoadConst, ChunkA, ChunkB, ChunkC, ChunkD, SetImm, IsOri, IsLis;
    ghost var c, e := LoadConst(d, x, tmp), LoadConst(d, y, tmp);
    PatternImmediates(d, x, y, tmp);
    ghost var was := a[p..p + 5];
    assert forall k :: 0 <= k < 5 ==> a[p + k] == was[k] == Encode(e[k]);
    ImmediateOf(e[1]);
    if IsOri(a[p + 1]) {
      SetImmChanges(e[0], c[0]);
      SetImmChanges(e[1], c[1]);
      SetImmChanges(e[3], c[3]);
      SetImmChanges(e[4], c[4]);
      a[p] := SetImm(a[p], ChunkA(x));
      a[p + 1] := SetImm(a[p + 1], ChunkB(x));
      a[p + 3] := SetImm(a[p + 3], ChunkC(x));
      a[p + 4] := SetImm(a[p + 4], ChunkD(x));
    } else if IsLis(a[p + 1]) {
      SetImmChanges(e[0], c[0]);
      SetImmChanges(e[2], c[2]);
      SetImmChanges(e[1], c[1]);
      SetImmChanges(e[3], c[3]);
      a[p] := SetImm(a[p], ChunkA(x));
      a[p + 2] := SetImm(a[p + 2], ChunkB(x));
      a[p + 1] := SetImm(a[p + 1], ChunkC(x));
      a[p + 3] := SetImm(a[p + 3], ChunkD(x));
    }
  }

  // ----- The optimised sequence -----

  /** The lowest chunk, as a short. */
  function Chunk(rem: int): S16 { Signed16(rem % 0x1_0000) }

  /** What remains above it, plus one where the chunk is negative. */
  function Rest(rem: int): int { rem / 0x1_0000 + rem % 0x1_0000 / 0x8000 }

  lemma Compensated(rem: int)
    ensures rem == Rest(rem) * 0x1_0000 + Chunk(rem)
  {
  }

  lemma WrapPlus(v: int, s: int)
    ensures Wrap(Wrap(v) + s) == Wrap(v + s)
  {
    ModPlusMultiple(v + s, -(v / WRAP));
  }

  lemma WrapTimes(v: int)
    ensures Wrap(Wrap(v) * 0x1_0000_0000) == Wrap(v * 0x1_0000_0000)
  {
    var k := v / WRAP;
    assert v % WRAP == v - k * WRAP;
    ModPlusMultiple(v * 0x1_0000_0000, -k * 0x1_0000_0000);
  }

  /** lis and addi of the two upper chunks, shifted into place. */
  lemma UpperChunks(rem: int)
    ensures Wrap(Wrap(Chunk(Rest(rem)) * 0x1_0000 + Chunk(rem)) * 0x1_0000_0000) == Wrap(rem * 0x1_0000_0000)
  {
    hide Chunk, Rest;
    var r := Rest(rem);
    Compensated(rem);
    Compensated(r);
    var v := Chunk(r) * 0x1_0000 + Chunk(rem);
    assert v * 0x1_0000_0000 == rem * 0x1_0000_0000 + (-Rest(r)) * WRAP;
    ModPlusMultiple(rem * 0x1_0000_0000, -Rest(r));
    WrapTimes(v);
  }

  method LoadConstOptimized(d: Reg, x: Long, tmp: Option<Reg>, returnRest: bool, ghost m: Machine)
    returns (code: seq<Instr>, rest: S16)
    requires d != 0 && tmp != Some(d)
    ensures Run(code, m).regs[d] == Wrap(x - rest)
    ensures OnlyChanges(m, Run(code, m), d, tmp)
    ensures |code| <= 5
    ensures !returnRest ==> rest == 0
    ensures rest == 0 || rest == Chunk(x)
    ensures forall i :: i in code ==> DsAligned(i)
    ensures Rest(x) == 0 ==> rest == 0
    ensures Rest(x) != 0 && returnRest && tmp.None? ==> rest == Chunk(x)
  {
    hide Exec, Run, Wrap, Chunk, Rest;
    code, rest := [], 0;
    ghost var h := m;
    RunNothing(m);

    var xd: int := Chunk(x);
    var rem := Rest(x);
    Compensated(x);
    if rem == 0 {
      RunSnoc(code, Addi(d, 0, xd), m); ExecLi(h, d, xd);
      code := code + [Addi(d, 0, xd)];
      return;
    }

    var xc: int := Chunk(rem);
    Compensated(rem);
    rem := Rest(rem);
    if rem == 0 {
      RunSnoc(code, Addis(d, 0, xc), m); ExecLis(h, d, xc);
      code := code + [Addis(d, 0, xc)];
    } else if tmp.Some? {
      code, rest := LoadWithTmp(d, x, tmp.value, returnRest, m);
      return;
    } else {
      var xb: int := Chunk(rem);
      var xa: int := Chunk(Rest(rem));
      if xa != 0 {
        RunSnoc(code, Addis(d, 0, xa), m); ExecLis(h, d, xa);
        code := code + [Addis(d, 0, xa)];
        h := Set(m, d, Wrap(xa * 0x1_0000));
        if xb != 0 {
          RunSnoc(code, Addi(d, d, xb), m); ExecAddi(h, d, xb);
          WrapPlus(xa * 0x1_0000, xb);
          SetTwice(m, d, h.regs[d], Wrap(xa * 0x1_0000 + xb));
          code := code + [Addi(d, d, xb)];
        }
      } else {
        RunSnoc(code, Addi(d, 0, xb), m); ExecLi(h, d, xb);
        code := code + [Addi(d, 0, xb)];
      }
      h := Set(m, d, Wrap(xa * 0x1_0000 + xb));
      assert Run(code, m) == h;

      RunSnoc(code, Sldi(d, d, 32), m); ExecSldi32(h, d); UpperChunks(rem);
      SetTwice(m, d, h.regs[d], Wrap(rem * 0x1_0000_0000));
      code := code + [Sldi(d, d, 32)];
      h := Set(m, d, Wrap(rem * 0x1_0000_0000));
      if xc != 0 {
        RunSnoc(code, Addis(d, d, xc), m); ExecAddis(h, d, xc);
        WrapPlus(rem * 0x1_0000_0000, xc * 0x1_0000);
        SetTwice(m, d, h.regs[d], Wrap(rem * 0x1_0000_0000 + xc * 0x1_0000));
        code := code + [Addis(d, d, xc)];
      }
    }
    h := Set(m, d, Wrap(x - xd));
    assert Run(code, m) == h;

    if returnRest {
      return code, xd;
    }
    if xd != 0 {
      RunSnoc(code, Addi(d, d, xd), m); ExecAddi(h, d, xd);
      WrapPlus(x - xd, xd);
      code := code + [Addi(d, d, xd)];
    }
  }

  lemma RunNothing(m: Machine)
    ensures Run([], m) == m
  {
  }

  lemma WrapHalf(v: int)
    ensures LowWord(Wrap(v)) == LowWord(v)
  {
    var a, r, k := v / 0x1_0000_0000, v % 0x1_0000_0000, v / WRAP;
    DivModUnique(v - k * WRAP, 0x1_0000_0000, a - k * 0x1_0000_0000, r);
  }

  lemma HighWordChunks(x: Long)
    ensures HighWord(x) == ChunkA(x) * 0x1_0000 + ChunkB(x)
  {
    var q2, q3 := x / 0x1_0000_0000, x / 0x1_0000_0000_0000;
    assert q2 == q3 * 0x1_0000 + ChunkB(x);
    var k := q3 / 0x1_0000;
    assert q2 == k * 0x1_0000_0000 + (ChunkA(x) * 0x1_0000 + ChunkB(x));
    DivModUnique(q2, 0x1_0000_0000, k, ChunkA(x) * 0x1_0000 + ChunkB(x));
  }

  /** lis xa with ori xb, or li xb alone: the high half of x. */
  lemma HighChunks(x: Long)
    ensures var a, b := Signed16(ChunkA(x)), Signed16(ChunkB(x));
            && Wrap(a * 0x1_0000) % 0x1_0000 == 0 && Wrap(a * 0x1_0000) + ChunkB(x) < WRAP
            && LowWord(Wrap(a * 0x1_0000) + ChunkB(x)) == HighWord(x)
            && (a == 0 && b >= 0 ==> LowWord(Wrap(b)) == HighWord(x))
            && (b == 0 ==> ChunkB(x) == 0)
  {
    hide ChunkA, ChunkB, HighWord;
    HighWordChunks(x);
    HighPair(ChunkA(x), ChunkB(x));
  }

  lemma LowWordOfMultiple(v: int, k: int)
    ensures LowWord(v - k * 0x1_0000_0000) == LowWord(v)
  {
    DivModUnique(v - k * 0x1_0000_0000, 0x1_0000_0000, v / 0x1_0000_0000 - k, v % 0x1_0000_0000);
  }

  lemma LowWordLessChunk(x: Long)
    requires Chunk(x) >= 0
    ensures LowWord(x - Chunk(x)) == LowWord(x) - Chunk(x)
  {
    var c: int, q := Chunk(x), x / 0x1_0000;
    assert x == q * 0x1_0000 + c;
    var q2, r2 := q / 0x1_0000, q % 0x1_0000;
    DivModUnique(x, 0x1_0000_0000, q2, r2 * 0x1_0000 + c);
    DivModUnique(x - c, 0x1_0000_0000, q2, r2 * 0x1_0000);
  }

  /** lis xc with, or without, addi xd: the low half of x. */
  lemma LowChunks(x: Long)
    ensures var xd, xc := Chunk(x), Chunk(Rest(x));
            && LowWord(Wrap(xc * 0x1_0000 + xd)) == LowWord(x)
            && (xd >= 0 ==> LowWord(Wrap(xc * 0x1_0000)) == LowWord(x) - xd)
  {
    hide Chunk, Rest, LowWord, Wrap;
    var xd: int, xc: int, r := Chunk(x), Chunk(Rest(x)), Rest(Rest(x));
    Compensated(x);
    Compensated(Rest(x));
    WrapHalf(xc * 0x1_0000 + xd);
    WrapHalf(xc * 0x1_0000);
    LowWordOfMultiple(x, r);
    LowWordOfMultiple(x - xd, r);
    if xd >= 0 {
      LowWordLessChunk(x);
    }
  }

  lemma JoinHalves(x: Long, rest: S16, hi: U64, lo: U64)
    requires LowWord(hi) == HighWord(x)
    requires LowWord(lo) == LowWord(x) - rest && rest >= 0
    ensures LowWord(hi) * 0x1_0000_0000 + LowWord(lo) == Wrap(x - rest)
  {
    var k := x / 0x1_0000_0000 / 0x1_0000_0000;
    var v := LowWord(hi) * 0x1_0000_0000 + LowWord(lo);
    assert x - rest == v + k * WRAP;
    ModPlusMultiple(v, k);
  }

  /** With a temporary register the halves are built independently; the high one first. */
  method LoadHighInTmp(d: Reg, x: Long, t: Reg, ghost m: Machine) returns (code: seq<Instr>)
    requires d != 0 && t != d
    ensures OnlyChanges(m, Run(code, m), d, Some(t))
    ensures LowWord(Run(code, m).regs[t]) == HighWord(x)
    ensures Chunk(Rest(x)) != 0 ==> Run(code, m).regs[d] == Wrap(Chunk(Rest(x)) as int * 0x1_0000)
    ensures |code| <= if Chunk(Rest(x)) == 0 then 2 else 3
    ensures forall i :: i in code ==> DsAligned(i)
  {
    hide Exec, Run, Wrap, Chunk, Rest, ChunkA, ChunkB, Signed16, LowWord, HighWord;
    code := [];
    RunNothing(m);
    ghost var h := m;
    var xc: int := Chunk(Rest(x));
    var xa: int := Signed16(ChunkA(x));
    var xb: int := Signed16(ChunkB(x));
    HighChunks(x);
    var loadXa := xa != 0 || xb < 0;
    if loadXa {
      RunSnoc(code, Addis(t, 0, xa), m); ExecLis(h, t, xa);
      code := code + [Addis(t, 0, xa)];
      h := Set(h, t, Wrap(xa * 0x1_0000));
    }
    if xc != 0 {
      RunSnoc(code, Addis(d, 0, xc), m); ExecLis(h, d, xc);
      code := code + [Addis(d, 0, xc)];
      h := Set(h, d, Wrap(xc * 0x1_0000));
    }
    if loadXa {
      if xb != 0 {
        RunSnoc(code, Ori(t, t, ChunkB(x)), m); ExecOri(h, t, ChunkB(x));
        code := code + [Ori(t, t, ChunkB(x))];
      }
    } else {
      RunSnoc(code, Addi(t, 0, xb), m); ExecLi(h, t, xb);
      code := code + [Addi(t, 0, xb)];
    }
  }

  /** Then the low half, unless it can be left to the caller, and the two are joined. */
  method LoadWithTmp(d: Reg, x: Long, t: Reg, returnRest: bool, ghost m: Machine)
    returns (code: seq<Instr>, rest: S16)
    requires d != 0 && t != d
    ensures Run(code, m).regs[d] == Wrap(x - rest)
    ensures OnlyChanges(m, Run(code, m), d, Some(t))
    ensures |code| <= 5
    ensures !returnRest ==> rest == 0
    ensures rest == 0 || rest == Chunk(x)
    ensures forall i :: i in code ==> DsAligned(i)
  {
    hide Exec, Run, Wrap, Chunk, Rest, LowWord, HighWord;
    code := LoadHighInTmp(d, x, t, m);
    ghost var h := Run(code, m);
    var xd: int := Chunk(x);
    var xc: int := Chunk(Rest(x));
    LowChunks(x);
    var returnXd := false;
    if xc != 0 {
      if returnRest && xd >= 0 {
        returnXd := true;
      } else if xd != 0 {
        RunSnoc(code, Addi(d, d, xd), m); ExecAddi(h, d, xd);
        WrapPlus(xc * 0x1_0000, xd);
        code := code + [Addi(d, d, xd)];
      }
    } else {
      RunSnoc(code, Addi(d, 0, xd), m); ExecLi(h, d, xd);
      code := code + [Addi(d, 0, xd)];
    }
    rest := if returnXd then xd else 0;
    h := Run(code, m);
    RunSnoc(code, Insrdi(d, t, 32, 0), m); ExecInsrdi32(h, d, t);
    JoinHalves(x, rest, h.regs[t], h.regs[d]);
    code := code + [Insrdi(d, t, 32, 0)];
  }
}
