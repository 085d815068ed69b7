/**
 Execution of the instructions of Power on 64-bit registers and a byte memory, as the
 Power ISA defines them (Book I, sections 3.3.2, 3.3.3, 3.3.8, 3.3.11 and 3.3.12), and what
 the shift, clear and insert mnemonics therefore compute.
 */
module Machine {
  import opened Bits
  import opened Common
  import opened Power

  type Registers = g: seq<U64> | |g| == 32 witness seq(32, _ => 0)

  /** A byte for every address; only the low eight bits of an entry count. */
  type Memory = int -> int

  datatype Machine = Machine(regs: Registers, mem: Memory)

  function Set(m: Machine, r: Reg, v: U64): Machine {
    m.(regs := m.regs[r := v])
  }

  /** Arithmetic modulo 2^64. */
  function Wrap(x: int): U64 { x % WRAP }

  /** Register 0 reads as zero where an instruction adds a base or a constant. */
  function Base(m: Machine, r: Reg): U64 {
    if r == 0 then 0 else m.regs[r]
  }

  function Or64(x: U64, y: U64): U64 {
    Pow2Values(); OrBound(x, y, 64); BitOr(x, y)
  }

  function Rotl64(x: U64, n: Six): U64 {
    RotlBound(x, n, 64 - n);
    ShiftLeft(LowBits(x, 64 - n), n) + ShiftRight(x, 64 - n)
  }

  /** The low 64 bits of x shifted left. */
  function Shl64(x: U64, n: Six): U64 {
    Pow2Values();
    LowBits(ShiftLeft(x, n), 64)
  }

  function Shr64(x: U64, n: Six): U64 {
    ShiftRightShrinks(x, n);
    ShiftRight(x, n)
  }

  function Low64(x: U64, n: nat): U64 {
    LowBitsShrink(x, n);
    LowBits(x, n)
  }

  /** Ones in bits mb..me, bit 0 being the most significant; the range may wrap. */
  function Mask(mb: Six, me: Six): U64 {
    MaskBound(mb, me, 64);
    if mb <= me then Pow2(64 - mb) - Pow2(63 - me)
    else WRAP - 1 - (Pow2(63 - me) - Pow2(64 - mb))
  }

  function RotateKeep(x: U64, sh: Six, mb: Six, me: Six): U64 {
    BitAnd(Rotl64(x, sh), Mask(mb, me))
  }

  function RotateWordKeep(x: U64, sh: Five, mb: Five, me: Five): U64 {
    BitAnd(Rotl32(x, sh), Mask(mb + 32, me + 32))
  }

  /** x rotated left replaces y under the mask mb..63-sh. */
  function RotateInsert(x: U64, y: U64, sh: Six, mb: Six): U64 {
    var mask := Mask(mb, 63 - sh);
    Or64(BitAnd(Rotl64(x, sh), mask), BitAnd(y, WRAP - 1 - mask))
  }

  /** The low word rotated left, in both halves of the result. */
  function Rotl32(x: U64, n: Five): U64 {
    var w := LowBits(x, 32);
    var r := LowBits(ShiftLeft(LowBits(w, 32 - n), n) + ShiftRight(w, 32 - n), 32);
    DoubleWordBound(r, 32);
    ShiftLeft(r, 32) + r
  }

  lemma DoubleWordBound(r: nat, h: nat)
    requires h == 32 && r < Pow2(h)
    ensures ShiftLeft(r, h) + r < WRAP
  {
    Pow2Values();
    JoinBound(r, r, h, h);
  }

  lemma RotlBound(x: U64, n: nat, k: nat)
    requires n + k == 64
    ensures ShiftRight(x, k) < Pow2(n)
    ensures ShiftLeft(LowBits(x, k), n) + ShiftRight(x, k) < WRAP
  {
    Pow2Values();
    ShiftRightBound(x, k, n);
    JoinBound(LowBits(x, k), ShiftRight(x, k), n, k);
  }

  lemma MaskBound(mb: Six, me: Six, n: nat)
    requires n == 64
    ensures mb <= me ==> 0 <= Pow2(n - mb) - Pow2(63 - me) < WRAP
    ensures mb > me ==> 0 <= Pow2(63 - me) - Pow2(n - mb) < WRAP
  {
    hide Pow2;
    Pow2Values();
    Pow2Mono(n - mb, n);
    Pow2Mono(63 - me, n);
    if mb <= me {
      Pow2Mono(63 - me, n - mb);
    } else {
      Pow2Mono(n - mb, 63 - me);
    }
  }

  // ----- Loads and stores, most significant byte first -----

  function ReadBytes(mem: Memory, ea: U64, n: nat): (v: nat)
    ensures v < Pow2(8 * n)
  {
    if n == 0 then 0 else
      assert Pow2(8 * n) == 256 * Pow2(8 * (n - 1)) by { Pow2Byte(8 * (n - 1)); }
      256 * ReadBytes(mem, ea, n - 1) + mem((ea + n - 1) % WRAP) % 256
  }

  function LoadBytes(k: LoadKind): nat {
    match k
    case Lbz => 1 case Lhz => 2 case Lha => 2 case Lwz => 4 case Lwa => 4 case Ld => 8
  }

  function StoreBytes(k: StoreKind): nat {
    match k
    case Stb => 1 case Sth => 2 case Stw => 4 case Std => 8
  }

  function LoadValue(k: LoadKind, mem: Memory, ea: U64): U64 {
    var n := LoadBytes(k);
    var v := ReadBytes(mem, ea, n);
    Pow2Values();
    if k.Lha? && v >= 0x8000 then v + WRAP - 0x1_0000
    else if k.Lwa? && v >= 0x8000_0000 then v + WRAP - 0x1_0000_0000
    else v
  }

  function StoreValue(k: StoreKind, mem: Memory, ea: U64, v: U64): Memory {
    var n := StoreBytes(k);
    (x: int) => if (x - ea) % WRAP < n then ShiftRight(v, 8 * (n - 1 - (x - ea) % WRAP)) % 256 else mem(x)
  }

  lemma OffsetIn(ea: U64, j: nat, i: nat)
    requires j + i < WRAP
    ensures ((Wrap(ea + j) + i) % WRAP - ea) % WRAP == j + i
  {
    var x := (Wrap(ea + j) + i) % WRAP - ea;
    var q := (ea + j) / WRAP + (Wrap(ea + j) + i) / WRAP;
    assert x == WRAP * -q + (j + i);
    DivModUnique(x, WRAP, -q, j + i);
  }

  lemma StoredByte(k: StoreKind, mem: Memory, ea: U64, v: U64, j: nat, i: nat)
    requires j + i < StoreBytes(k)
    ensures StoreValue(k, mem, ea, v)((Wrap(ea + j) + i) % WRAP) == ShiftRight(v, 8 * (StoreBytes(k) - 1 - j - i)) % 256
  {
    hide ShiftRight, Wrap;
    OffsetIn(ea, j, i);
  }

  lemma ReadStep(mem: Memory, ea: U64, n: nat)
    requires n > 0
    ensures ReadBytes(mem, ea, n) == 256 * ReadBytes(mem, ea, n - 1) + mem((ea + n - 1) % WRAP) % 256
  {
  }

  /** Any n bytes of a stored value, from the j-th on. */
  lemma {:induction false} StoredBytes(k: StoreKind, mem: Memory, ea: U64, v: U64, j: nat, n: nat)
    requires j + n <= StoreBytes(k)
    ensures ReadBytes(StoreValue(k, mem, ea, v), Wrap(ea + j), n) == LowBits(ShiftRight(v, 8 * (StoreBytes(k) - j - n)), 8 * n)
  {
    hide ShiftRight, LowBits, ReadBytes, StoreValue, StoreBytes, Wrap;
    var past := 8 * (StoreBytes(k) - j - n);
    if n == 0 {
      LowZero(ShiftRight(v, past));
      NoBytes(StoreValue(k, mem, ea, v), Wrap(ea + j));
    } else {
      StoredBytes(k, mem, ea, v, j, n - 1);
      ReadStep(StoreValue(k, mem, ea, v), Wrap(ea + j), n);
      StoredByte(k, mem, ea, v, j, n - 1);
      assert 8 * (StoreBytes(k) - j - (n - 1)) == past + 8 && 8 * (n - 1) + 8 == 8 * n;
      assert 8 * (StoreBytes(k) - 1 - j - (n - 1)) == past;
      ShiftByte(v, past);
      LowByte(ShiftRight(v, past), 8 * (n - 1));
    }
  }

  lemma NoBytes(mem: Memory, ea: U64)
    ensures ReadBytes(mem, ea, 0) == 0
  {
  }

  /** A load from inside a stored value gives that part of it, lha and lwa with its sign. */
  lemma StoreThenLoad(sk: StoreKind, lk: LoadKind, mem: Memory, ea: U64, v: U64, j: nat)
    requires j + LoadBytes(lk) <= StoreBytes(sk)
    ensures var n := LoadBytes(lk);
            var part := LowBits(ShiftRight(v, 8 * (StoreBytes(sk) - j - n)), 8 * n);
            LoadValue(lk, StoreValue(sk, mem, ea, v), Wrap(ea + j)) ==
            if (lk.Lha? || lk.Lwa?) && part >= Pow2(8 * n - 1) then part + WRAP - Pow2(8 * n) else part
  {
    hide ShiftRight, LowBits, StoreValue, ReadBytes, Pow2, StoreBytes, Wrap;
    StoredBytes(sk, mem, ea, v, j, LoadBytes(lk));
    Pow2Values();
    Pow2Step(16);
    Pow2Step(32);
  }

  /** Loads and stores of a byte, a halfword, a word and a doubleword. */
  lemma SameWidth(mem: Memory, ea: U64, v: U64)
    ensures LoadValue(Lbz, StoreValue(Stb, mem, ea, v), ea) == LowBits(v, 8)
    ensures LoadValue(Lhz, StoreValue(Sth, mem, ea, v), ea) == LowBits(v, 16)
    ensures LoadValue(Lwz, StoreValue(Stw, mem, ea, v), ea) == LowBits(v, 32)
    ensures LoadValue(Ld, StoreValue(Std, mem, ea, v), ea) == v
  {
    hide ShiftRight, LowBits, StoreValue, LoadValue, Pow2;
    StoreThenLoad(Stb, Lbz, mem, ea, v, 0);
    StoreThenLoad(Sth, Lhz, mem, ea, v, 0);
    StoreThenLoad(Stw, Lwz, mem, ea, v, 0);
    StoreThenLoad(Std, Ld, mem, ea, v, 0);
    Unshifted(v);
    Pow2Values();
    WholeBits(v, 64);
  }

  lemma Unshifted(v: nat)
    ensures ShiftRight(v, 0) == v
  {
  }

  // ----- Execution -----

  function Exec(i: Instr, m: Machine): Machine {
    match i
    case Addi(d, a, si) => Set(m, d, Wrap(Base(m, a) + si))
    case Addis(d, a, si) => Set(m, d, Wrap(Base(m, a) + si * 0x1_0000))
    case Ori(a, s, ui) => Set(m, a, Or64(m.regs[s], ui))
    case Oris(a, s, ui) => Set(m, a, Or64(m.regs[s], ui * 0x1_0000))
    case AndiDot(a, s, ui) => Set(m, a, BitAnd(m.regs[s], ui))
    case Rldicl(a, s, sh, mb) => Set(m, a, RotateKeep(m.regs[s], sh, mb, 63))
    case Rldicr(a, s, sh, me) => Set(m, a, RotateKeep(m.regs[s], sh, 0, me))
    case Rldimi(a, s, sh, mb) => Set(m, a, RotateInsert(m.regs[s], m.regs[a], sh, mb))
    case Rlwinm(a, s, sh, mb, me) => Set(m, a, RotateWordKeep(m.regs[s], sh, mb, me))
    case Load(k, d, si, a) => Set(m, d, LoadValue(k, m.mem, Wrap(Base(m, a) + si)))
    case LoadX(k, d, a, b) => Set(m, d, LoadValue(k, m.mem, Wrap(Base(m, a) + m.regs[b])))
    case Store(k, s, si, a) => m.(mem := StoreValue(k, m.mem, Wrap(Base(m, a) + si), m.regs[s]))
    case StoreX(k, s, a, b) => m.(mem := StoreValue(k, m.mem, Wrap(Base(m, a) + m.regs[b]), m.regs[s]))
  }

  function Run(code: seq<Instr>, m: Machine): Machine
    decreases |code|
  {
    if code == [] then m else Exec(code[|code| - 1], Run(code[..|code| - 1], m))
  }

  lemma RunSnoc(code: seq<Instr>, i: Instr, m: Machine)
    ensures Run(code + [i], m) == Exec(i, Run(code, m))
  {
    assert (code + [i])[..|code|] == code;
  }

  /** What the processor does with the emitted words: decode, then execute. */
  function RunWords(words: seq<nat>, m: Machine): Option<Machine>
    decreases |words|
  {
    if words == [] then Some(m)
    else match RunWords(words[..|words| - 1], m)
      case None => None
      case Some(m') =>
        match Decode(words[|words| - 1])
        case None => None
        case Some(i) => Some(Exec(i, m'))
  }

  function EncodeAll(code: seq<Instr>): (words: seq<nat>)
    ensures |words| == |code|
    ensures forall k :: 0 <= k < |code| ==> words[k] == Encode(code[k])
  {
    seq(|code|, k requires 0 <= k < |code| => Encode(code[k]))
  }

  lemma {:induction false} EmittedWordsRun(code: seq<Instr>, m: Machine)
    requires forall i :: i in code ==> DsAligned(i)
    ensures RunWords(EncodeAll(code), m) == Some(Run(code, m))
    decreases |code|
  {
    if code != [] {
      var last := |code| - 1;
      EncodeDecode(code[last]);
      EmittedWordsRun(code[..last], m);
      assert EncodeAll(code)[..last] == EncodeAll(code[..last]);
    }
  }
}
