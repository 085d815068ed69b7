/**
 The Power instructions that the constant-loading, masking and addressing macros of the
 assembler emit: their 32-bit encodings and their effect on a machine.
 Fields are packed by adding disjoint bit ranges, which is what OR-ing them does.
 */
module Power {
  import opened Bits
  import opened Common

  type Reg = r: nat | r < 32
  type U64 = x: nat | x < 0x1_0000_0000_0000_0000
  type U16 = x: nat | x < 0x1_0000
  type S16 = x: int | -0x8000 <= x < 0x8000
  type Six = x: nat | x < 64
  type Five = x: nat | x < 32

  const WRAP: nat := 0x1_0000_0000_0000_0000

  datatype LoadKind = Lbz | Lhz | Lha | Lwz | Lwa | Ld
  datatype StoreKind = Stb | Sth | Stw | Std

  datatype Instr =
    | Addi(d: Reg, a: Reg, si: S16)
    | Addis(d: Reg, a: Reg, si: S16)
    | Ori(a: Reg, s: Reg, ui: U16)
    | Oris(a: Reg, s: Reg, ui: U16)
    | AndiDot(a: Reg, s: Reg, ui: U16)
    | Rldicl(a: Reg, s: Reg, sh: Six, mb: Six)
    | Rldicr(a: Reg, s: Reg, sh: Six, me: Six)
    | Rldimi(a: Reg, s: Reg, sh: Six, mb: Six)
    | Rlwinm(a: Reg, s: Reg, sh5: Five, mb5: Five, me5: Five)
    | Load(lk: LoadKind, d: Reg, si: S16, a: Reg)
    | LoadX(lk: LoadKind, d: Reg, a: Reg, b: Reg)
    | Store(sk: StoreKind, s: Reg, si: S16, a: Reg)
    | StoreX(sk: StoreKind, s: Reg, a: Reg, b: Reg)

  // ----- Encoding -----

  /** The sh field is split over bits 16-20 and 30, the mb/me field over 21-25 and 26. */
  function LowMd(xo: nat, sh: Six, mb: Six): U16
    requires xo < 8
  {
    sh % 32 * 0x800 + mb % 32 * 0x40 + mb / 32 * 0x20 + xo * 4 + sh / 32 * 2
  }

  function LoadOp(k: LoadKind): nat {
    match k
    case Lbz => 34 case Lhz => 40 case Lha => 42 case Lwz => 32 case Lwa => 58 case Ld => 58
  }

  function LoadXo(k: LoadKind): nat {
    match k
    case Lbz => 87 case Lhz => 279 case Lha => 343 case Lwz => 23 case Lwa => 341 case Ld => 21
  }

  function StoreOp(k: StoreKind): nat {
    match k
    case Stb => 38 case Sth => 44 case Stw => 36 case Std => 62
  }

  function StoreXo(k: StoreKind): nat {
    match k
    case Stb => 215 case Sth => 407 case Stw => 151 case Std => 149
  }

  /** lwa carries 2 in its two lowest bits, OR-ed into the displacement. */
  function LowLoad(k: LoadKind, si: S16): U16 {
    var d: U16 := si % 0x1_0000;
    if k.Lwa? && d / 2 % 2 == 0 then d + 2 else d
  }

  datatype Fields = Fields(op: nat, r6: Reg, r11: Reg, low: U16)

  function FieldsOf(i: Instr): Fields {
    match i
    case Addi(d, a, si) => Fields(14, d, a, si % 0x1_0000)
    case Addis(d, a, si) => Fields(15, d, a, si % 0x1_0000)
    case Ori(a, s, ui) => Fields(24, s, a, ui)
    case Oris(a, s, ui) => Fields(25, s, a, ui)
    case AndiDot(a, s, ui) => Fields(28, s, a, ui)
    case Rldicl(a, s, sh, mb) => Fields(30, s, a, LowMd(0, sh, mb))
    case Rldicr(a, s, sh, me) => Fields(30, s, a, LowMd(1, sh, me))
    case Rldimi(a, s, sh, mb) => Fields(30, s, a, LowMd(3, sh, mb))
    case Rlwinm(a, s, sh, mb, me) => Fields(21, s, a, sh * 0x800 + mb * 0x40 + me * 2)
    case Load(k, d, si, a) => Fields(LoadOp(k), d, a, LowLoad(k, si))
    case LoadX(k, d, a, b) => Fields(31, d, a, b * 0x800 + LoadXo(k) * 2)
    case Store(k, s, si, a) => Fields(StoreOp(k), s, a, si % 0x1_0000)
    case StoreX(k, s, a, b) => Fields(31, s, a, b * 0x800 + StoreXo(k) * 2)
  }

  function Encode(i: Instr): nat {
    var f := FieldsOf(i);
    f.op * 0x400_0000 + f.r6 * 0x20_0000 + f.r11 * 0x1_0000 + f.low
  }

  // ----- Decoding -----

  function Signed16(x: U16): S16 {
    if x >= 0x8000 then x - 0x1_0000 else x
  }

  function Decode(w: nat): Option<Instr> {
    DecodeFields(w / 0x400_0000, w / 0x20_0000 % 32, w / 0x1_0000 % 32, w % 0x1_0000)
  }

  function DecodeFields(op: nat, r6: Reg, r11: Reg, low: U16): Option<Instr> {
    if op == 14 then Some(Addi(r6, r11, Signed16(low)))
    else if op == 15 then Some(Addis(r6, r11, Signed16(low)))
    else if op == 24 then Some(Ori(r11, r6, low))
    else if op == 25 then Some(Oris(r11, r6, low))
    else if op == 28 then Some(AndiDot(r11, r6, low))
    else if op == 21 then DecodeM(r6, r11, low)
    else if op == 30 then DecodeMd(r6, r11, low)
    else if op == 31 then DecodeX(r6, r11, low)
    else if op == 34 then Some(Load(Lbz, r6, Signed16(low), r11))
    else if op == 40 then Some(Load(Lhz, r6, Signed16(low), r11))
    else if op == 42 then Some(Load(Lha, r6, Signed16(low), r11))
    else if op == 32 then Some(Load(Lwz, r6, Signed16(low), r11))
    else if op == 58 && low % 4 == 2 then Some(Load(Lwa, r6, Signed16(low - 2), r11))
    else if op == 58 && low % 4 == 0 then Some(Load(Ld, r6, Signed16(low), r11))
    else if op == 38 then Some(Store(Stb, r6, Signed16(low), r11))
    else if op == 44 then Some(Store(Sth, r6, Signed16(low), r11))
    else if op == 36 then Some(Store(Stw, r6, Signed16(low), r11))
    else if op == 62 && low % 4 == 0 then Some(Store(Std, r6, Signed16(low), r11))
    else None
  }

  function DecodeM(r6: Reg, r11: Reg, low: U16): Option<Instr> {
    if low % 2 == 1 then None
    else Some(Rlwinm(r11, r6, low / 0x800, low / 0x40 % 32, low / 2 % 32))
  }

  function DecodeMd(r6: Reg, r11: Reg, low: U16): Option<Instr> {
    var sh: Six := low / 0x800 + low / 2 % 2 * 32;
    var mb: Six := low / 0x40 % 32 + low / 0x20 % 2 * 32;
    if low % 2 == 1 then None
    else if low / 4 % 8 == 0 then Some(Rldicl(r11, r6, sh, mb))
    else if low / 4 % 8 == 1 then Some(Rldicr(r11, r6, sh, mb))
    else if low / 4 % 8 == 3 then Some(Rldimi(r11, r6, sh, mb))
    else None
  }

  function DecodeX(r6: Reg, r11: Reg, low: U16): Option<Instr> {
    var b: Reg := low / 0x800;
    var xo := low % 0x800;
    if xo == 174 then Some(LoadX(Lbz, r6, r11, b))
    else if xo == 558 then Some(LoadX(Lhz, r6, r11, b))
    else if xo == 686 then Some(LoadX(Lha, r6, r11, b))
    else if xo == 46 then Some(LoadX(Lwz, r6, r11, b))
    else if xo == 682 then Some(LoadX(Lwa, r6, r11, b))
    else if xo == 42 then Some(LoadX(Ld, r6, r11, b))
    else if xo == 430 then Some(StoreX(Stb, r6, r11, b))
    else if xo == 814 then Some(StoreX(Sth, r6, r11, b))
    else if xo == 302 then Some(StoreX(Stw, r6, r11, b))
    else if xo == 298 then Some(StoreX(Std, r6, r11, b))
    else None
  }

  lemma PackedFields(op: nat, r6: nat, r11: nat, low: nat)
    requires r6 < 32 && r11 < 32 && low < 0x1_0000
    ensures var w := op * 0x400_0000 + r6 * 0x20_0000 + r11 * 0x1_0000 + low;
            && w / 0x400_0000 == op && w / 0x20_0000 % 32 == r6
            && w / 0x1_0000 % 32 == r11 && w % 0x1_0000 == low
  {
    var w := op * 0x400_0000 + r6 * 0x20_0000 + r11 * 0x1_0000 + low;
    var h := op * 32 + r6;
    var g := h * 32 + r11;
    DivModUnique(w, 0x400_0000, op, r6 * 0x20_0000 + r11 * 0x1_0000 + low);
    DivModUnique(w, 0x20_0000, h, r11 * 0x1_0000 + low);
    DivModUnique(w, 0x1_0000, g, low);
    DivModUnique(h, 32, op, r6);
    DivModUnique(g, 32, h, r11);
  }

  /** Decoding the split sh and mb fields inverts their encoding. */
  lemma SplitFields(xo: nat, sl: nat, sb: nat, ml: nat, mbit: nat)
    requires xo < 8 && sl < 32 && sb < 2 && ml < 32 && mbit < 2
    ensures var low := sl * 0x800 + ml * 0x40 + mbit * 0x20 + xo * 4 + sb * 2;
            && low < 0x1_0000 && low % 2 == 0 && low / 4 % 8 == xo
            && low / 0x800 == sl && low / 2 % 2 == sb && low / 0x40 % 32 == ml && low / 0x20 % 2 == mbit
  {
    var low := sl * 0x800 + ml * 0x40 + mbit * 0x20 + xo * 4 + sb * 2;
    var n40 := sl * 32 + ml;
    var n20 := n40 * 2 + mbit;
    var n4 := n20 * 8 + xo;
    DivModUnique(low, 0x800, sl, ml * 0x40 + mbit * 0x20 + xo * 4 + sb * 2);
    DivModUnique(low, 0x40, n40, mbit * 0x20 + xo * 4 + sb * 2);
    DivModUnique(low, 0x20, n20, xo * 4 + sb * 2);
    DivModUnique(low, 4, n4, sb * 2);
    DivModUnique(low, 2, n4 * 2 + sb, 0);
  }

  /** The fields of an MD-form word, by their places in its low half. */
  lemma FieldsMd(xo: nat, sh: Six, mb: Six)
    requires xo < 8
    ensures var low := LowMd(xo, sh, mb);
            && low % 2 == 0 && low / 4 % 8 == xo
            && low / 0x800 + low / 2 % 2 * 32 == sh && low / 0x40 % 32 + low / 0x20 % 2 * 32 == mb
  {
    var sl, sb, ml, mbit := sh % 32, sh / 32, mb % 32, mb / 32;
    SplitFields(xo, sl, sb, ml, mbit);
  }

  lemma RoundTripMd(r6: Reg, r11: Reg, xo: nat, sh: Six, mb: Six)
    requires xo in {0, 1, 3}
    ensures DecodeMd(r6, r11, LowMd(xo, sh, mb)) ==
            Some(if xo == 0 then Rldicl(r11, r6, sh, mb) else if xo == 1 then Rldicr(r11, r6, sh, mb)
                 else Rldimi(r11, r6, sh, mb))
  {
    hide LowMd;
    FieldsMd(xo, sh, mb);
  }

  lemma RoundTripM(r6: Reg, r11: Reg, sh: Five, mb: Five, me: Five)
    ensures DecodeM(r6, r11, sh * 0x800 + mb * 0x40 + me * 2) == Some(Rlwinm(r11, r6, sh, mb, me))
  {
    var low := sh * 0x800 + mb * 0x40 + me * 2;
    DivModUnique(low, 0x800, sh, mb * 0x40 + me * 2);
    DivModUnique(low, 0x40, sh * 32 + mb, me * 2);
    DivModUnique(low, 2, (sh * 32 + mb) * 32 + me, 0);
  }

  lemma RoundTripX(b: Reg, xo: nat)
    requires xo < 0x400
    ensures var low := b * 0x800 + xo * 2;
            low < 0x1_0000 && low / 0x800 == b && low % 0x800 == xo * 2
  {
  }

  /** The displacement of ld, lwa and std must be a multiple of four. */
  predicate DsAligned(i: Instr) {
    match i
    case Load(k, _, si, _) => (k.Ld? || k.Lwa?) ==> si % 4 == 0
    case Store(k, _, si, _) => k.Std? ==> si % 4 == 0
    case _ => true
  }

  lemma SignedField(si: S16)
    ensures Signed16(si % 0x1_0000) == si
    ensures si % 0x1_0000 % 4 == si % 4
  {
  }

  /** The 2 that lwa adds comes off again, from a multiple of four only. */
  lemma LwaField(si: S16)
    ensures var low := LowLoad(Lwa, si);
            && low % 4 != 0 && (low % 4 == 2 ==> low >= 2)
            && (low % 4 == 2 && low - 2 == si % 0x1_0000 <==> si % 4 == 0)
  {
    var d := si % 0x1_0000;
    SignedField(si);
    var q, r := d / 4, d % 4;
    assert d / 2 == 2 * q + r / 2;
  }

  lemma RoundTripLwa(d: Reg, si: S16, a: Reg)
    ensures DecodeFields(58, d, a, LowLoad(Lwa, si)) == Some(Load(Lwa, d, si, a)) <==> si % 4 == 0
  {
    hide LowLoad;
    SignedField(si);
    LwaField(si);
  }

  lemma RoundTripLoad(k: LoadKind, d: Reg, si: S16, a: Reg)
    ensures DecodeFields(LoadOp(k), d, a, LowLoad(k, si)) == Some(Load(k, d, si, a)) <==>
            DsAligned(Load(k, d, si, a))
  {
    SignedField(si);
    if k.Lwa? {
      hide LowLoad, DecodeFields;
      RoundTripLwa(d, si, a);
    }
  }

  lemma RoundTripStore(k: StoreKind, s: Reg, si: S16, a: Reg)
    ensures DecodeFields(StoreOp(k), s, a, si % 0x1_0000) == Some(Store(k, s, si, a)) <==>
            DsAligned(Store(k, s, si, a))
  {
    SignedField(si);
  }

  lemma FieldsRoundTrip(i: Instr)
    ensures var f := FieldsOf(i);
            DecodeFields(f.op, f.r6, f.r11, f.low) == Some(i) <==> DsAligned(i)
  {
    match i
    case Addi(_, _, si) => SignedField(si);
    case Addis(_, _, si) => SignedField(si);
    case Rldicl(a, s, sh, mb) => RoundTripMd(s, a, 0, sh, mb);
    case Rldicr(a, s, sh, me) => RoundTripMd(s, a, 1, sh, me);
    case Rldimi(a, s, sh, mb) => RoundTripMd(s, a, 3, sh, mb);
    case Rlwinm(a, s, sh, mb, me) => RoundTripM(s, a, sh, mb, me);
    case Load(k, d, si, a) => RoundTripLoad(k, d, si, a);
    case Store(k, s, si, a) => RoundTripStore(k, s, si, a);
    case LoadX(k, d, a, b) => RoundTripX(b, LoadXo(k));
    case StoreX(k, s, a, b) => RoundTripX(b, StoreXo(k));
    case _ =>
  }

  lemma DecodeEncoded(i: Instr)
    ensures var f := FieldsOf(i); Decode(Encode(i)) == DecodeFields(f.op, f.r6, f.r11, f.low)
  {
    hide DecodeFields, FieldsOf;
    var f := FieldsOf(i);
    PackedFields(f.op, f.r6, f.r11, f.low);
  }

  /**
   An emitted word means the instruction it was emitted for, exactly when no DS-form
   displacement spills into the extended opcode.
   */
  lemma EncodeDecode(i: Instr)
    ensures Decode(Encode(i)) == Some(i) <==> DsAligned(i)
  {
    hide DecodeFields, FieldsOf, Decode, Encode;
    DecodeEncoded(i);
    FieldsRoundTrip(i);
  }

  lemma UnalignedLoad(k: LoadKind, d: Reg, si: S16, a: Reg)
    requires (k.Ld? || k.Lwa?) && si % 4 != 0
    ensures DecodeFields(58, d, a, LowLoad(k, si)) == if si % 4 == 2 then Some(Load(Lwa, d, si - 2, a)) else None
  {
    hide DsAligned;
    SignedField(si);
    var low := si % 0x1_0000;
    var q, r := low / 4, low % 4;
    assert low / 2 == 2 * q + r / 2;
    if r == 1 {
      assert low + 2 == 4 * q + 3;
    }
  }

  lemma UnalignedStore(s: Reg, si: S16, a: Reg)
    requires si % 4 != 0
    ensures DecodeFields(62, s, a, si % 0x1_0000) == None
  {
    SignedField(si);
  }

  /** Any other displacement makes it another instruction, or none of these. */
  lemma UnalignedMeans(i: Instr)
    requires !DsAligned(i)
    ensures Decode(Encode(i)) == if i.Load? && i.si % 4 == 2 then Some(Load(Lwa, i.d, i.si - 2, i.a)) else None
  {
    hide DecodeFields, LowLoad, Decode, Encode;
    DecodeEncoded(i);
    if i.Load? {
      UnalignedLoad(i.lk, i.d, i.si, i.a);
    } else {
      UnalignedStore(i.s, i.si, i.a);
    }
  }

  // ----- Words of Power ISA Book I -----

  lemma ArithmeticWords()
    ensures Encode(Addi(3, 4, -2)) == 0x3864_fffe && Encode(Addis(3, 4, 0x1234)) == 0x3c64_1234
    ensures Encode(Ori(3, 4, 0xabcd)) == 0x6083_abcd && Encode(Oris(3, 4, 0xabcd)) == 0x6483_abcd
    ensures Encode(AndiDot(3, 4, 0xff)) == 0x7083_00ff
  {
  }

  lemma RotateWords()
    ensures Encode(Rldicl(3, 4, 0, 32)) == 0x7883_0020 && Encode(Rldicr(3, 3, 32, 31)) == 0x7863_07c6
    ensures Encode(Rldimi(3, 4, 32, 0)) == 0x7883_000e && Encode(Rlwinm(3, 4, 0, 24, 31)) == 0x5483_063e
  {
  }

  lemma LoadWords()
    ensures Encode(Load(Lbz, 3, 8, 1)) == 0x8861_0008 && Encode(Load(Lhz, 3, 8, 1)) == 0xa061_0008
    ensures Encode(Load(Lha, 3, 8, 1)) == 0xa861_0008 && Encode(Load(Lwz, 3, 8, 1)) == 0x8061_0008
    ensures Encode(Load(Lwa, 3, 8, 1)) == 0xe861_000a && Encode(Load(Ld, 3, 8, 1)) == 0xe861_0008
  {
  }

  lemma StoreWords()
    ensures Encode(Store(Stb, 3, 8, 1)) == 0x9861_0008 && Encode(Store(Sth, 3, 8, 1)) == 0xb061_0008
    ensures Encode(Store(Stw, 3, 8, 1)) == 0x9061_0008 && Encode(Store(Std, 3, 8, 1)) == 0xf861_0008
  {
  }

  lemma LoadXWords()
    ensures Encode(LoadX(Lbz, 3, 4, 5)) == 0x7c64_28ae && Encode(LoadX(Lhz, 3, 4, 5)) == 0x7c64_2a2e
    ensures Encode(LoadX(Lha, 3, 4, 5)) == 0x7c64_2aae && Encode(LoadX(Lwz, 3, 4, 5)) == 0x7c64_282e
    ensures Encode(LoadX(Lwa, 3, 4, 5)) == 0x7c64_2aaa && Encode(LoadX(Ld, 3, 4, 5)) == 0x7c64_282a
  {
  }

  lemma StoreXWords()
    ensures Encode(StoreX(Stb, 3, 4, 5)) == 0x7c64_29ae && Encode(StoreX(Sth, 3, 4, 5)) == 0x7c64_2b2e
    ensures Encode(StoreX(Stw, 3, 4, 5)) == 0x7c64_292e && Encode(StoreX(Std, 3, 4, 5)) == 0x7c64_292a
  {
  }
}
