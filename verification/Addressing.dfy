/**
 Memory accesses whose offset is a register or an arbitrary 64-bit constant. The six loads
 share one shape and so do the four stores; the kind of access is a parameter here.
 */
module Addressing {
  import opened Common
  import opened Power
  import opened Machine
  import opened Constants

  datatype RegisterOrConstant = Constant(c: Long) | Register(r: Reg)

  predicate IsSimm16(c: int) { -0x8000 <= c < 0x8000 }

  function Offset(roc: RegisterOrConstant, m: Machine): U64 {
    match roc
    case Constant(c) => Wrap(c)
    case Register(r) => m.regs[r]
  }

  /** The address the caller asks for: constant or register, plus the optional base. */
  function Address(roc: RegisterOrConstant, s1: Option<Reg>, m: Machine): U64 {
    Wrap(Offset(roc, m) + (if s1.Some? then m.regs[s1.value] else 0))
  }

  /** A constant too large for a displacement, with a base: it needs a register of its own. */
  predicate NeedsRegister(roc: RegisterOrConstant, s1: Option<Reg>) {
    roc.Constant? && s1.Some? && !IsSimm16(roc.c)
  }

  /**
   What the emitters assert: register 0 is never a base, a DS-form displacement is a
   multiple of four. A constant without base keeps its low chunk as displacement.
   */
  predicate Demands(ds: bool, roc: RegisterOrConstant, s1: Option<Reg>) {
    match roc
    case Register(r) => r != 0
    case Constant(c) =>
      if s1.None? then ds && !IsSimm16(c) ==> c % 4 == 0
      else IsSimm16(c) ==> s1.value != 0 && (ds ==> c % 4 == 0)
  }

  lemma WrapSum(a: int, b: int)
    ensures Wrap(Wrap(a) + b) == Wrap(a + b) == Wrap(b + Wrap(a))
  {
    WrapPlus(a, b);
  }

  lemma ChunkParity(c: Long)
    ensures Chunk(c) % 4 == c % 4
    ensures IsSimm16(c) <==> Rest(c) == 0
  {
    hide Chunk, Rest;
    Compensated(c);
  }

  /**
   The RegisterOrConstant loads. When the destination is also the base of a large constant,
   loading the constant destroys the base, and the access goes to twice the constant.
   */
  method LoadFrom(k: LoadKind, d: Reg, roc: RegisterOrConstant, s1: Option<Reg>, ghost m: Machine)
    returns (code: seq<Instr>)
    requires Demands(k.Ld? || k.Lwa?, roc, s1)
    requires roc.Constant? && (s1.None? || NeedsRegister(roc, s1)) ==> d != 0
    ensures RunWords(EncodeAll(code), m).Some?
    ensures var m' := RunWords(EncodeAll(code), m).value;
            && OnlyChanges(m, m', d, None)
            && m'.regs[d] == LoadValue(k, m.mem,
                 if NeedsRegister(roc, s1) && s1 == Some(d) then Wrap(2 * roc.c) else Address(roc, s1, m))
  {
    hide Exec, Run, Wrap, Chunk, Rest, LoadValue, RunWords, EncodeAll;
    code := [];
    RunNothing(m);
    match roc {
      case Constant(c) =>
        ChunkParity(c);
        if s1.None? {
          var rest;
          code, rest := LoadConstOptimized(d, c, None, true, m);
          RunSnoc(code, Load(k, d, rest, d), m); ExecLoad(Run(code, m), k, d, rest, d);
          code := code + [Load(k, d, rest, d)];
          WrapSum(c - rest, rest);
          WrapSum(c, 0);
        } else if IsSimm16(c) {
          RunSnoc(code, Load(k, d, c, s1.value), m); ExecLoad(m, k, d, c, s1.value);
          code := code + [Load(k, d, c, s1.value)];
          WrapSum(c, m.regs[s1.value]);
        } else {
          var rest;
          code, rest := LoadConstOptimized(d, c, None, false, m);
          RunSnoc(code, LoadX(k, d, d, s1.value), m); ExecLoadX(Run(code, m), k, d, d, s1.value);
          code := code + [LoadX(k, d, d, s1.value)];
          WrapSum(c, Wrap(c));
          WrapSum(c, c);
        }
      case Register(r) =>
        if s1.None? {
          RunSnoc(code, Load(k, d, 0, r), m); ExecLoad(m, k, d, 0, r);
          code := code + [Load(k, d, 0, r)];
        } else {
          RunSnoc(code, LoadX(k, d, r, s1.value), m); ExecLoadX(m, k, d, r, s1.value);
          code := code + [LoadX(k, d, r, s1.value)];
        }
    }
    EmittedWordsRun(code, m);
  }

  lemma ExecLoad(m: Machine, k: LoadKind, d: Reg, si: S16, a: Reg)
    requires a != 0
    ensures Exec(Load(k, d, si, a), m) == Set(m, d, LoadValue(k, m.mem, Wrap(m.regs[a] + si)))
  {
    hide LoadValue, Wrap;
  }

  lemma ExecLoadX(m: Machine, k: LoadKind, d: Reg, a: Reg, b: Reg)
    requires a != 0
    ensures Exec(LoadX(k, d, a, b), m) == Set(m, d, LoadValue(k, m.mem, Wrap(m.regs[a] as int + m.regs[b])))
  {
    hide LoadValue, Wrap;
  }

  lemma ExecStore(m: Machine, k: StoreKind, s: Reg, si: S16, a: Reg)
    requires a != 0
    ensures Exec(Store(k, s, si, a), m) == m.(mem := StoreValue(k, m.mem, Wrap(m.regs[a] + si), m.regs[s]))
  {
    hide StoreValue, Wrap;
  }

  lemma ExecStoreX(m: Machine, k: StoreKind, s: Reg, a: Reg, b: Reg)
    requires a != 0
    ensures Exec(StoreX(k, s, a, b), m) == m.(mem := StoreValue(k, m.mem, Wrap(m.regs[a] as int + m.regs[b]), m.regs[s]))
  {
    hide StoreValue, Wrap;
  }

  /** The load reads the requested address unless the base is lost and differs from the constant. */
  lemma LoadAddressRight(d: Reg, roc: RegisterOrConstant, s1: Option<Reg>, m: Machine)
    ensures (if NeedsRegister(roc, s1) && s1 == Some(d) then Wrap(2 * roc.c) else Address(roc, s1, m))
              == Address(roc, s1, m) <==>
            !(NeedsRegister(roc, s1) && s1 == Some(d)) || m.regs[d] == Wrap(roc.c)
  {
    if NeedsRegister(roc, s1) && s1 == Some(d) {
      var c := roc.c;
      WrapSum(c, c);
      WrapSum(c, m.regs[d]);
      WrapCancel(c, m.regs[d], Wrap(c));
      WrapSum(c, Wrap(c));
    }
  }

  lemma WrapCancel(c: int, u: U64, v: U64)
    ensures Wrap(c + u) == Wrap(c + v) <==> u == v
  {
  }

  /** A constant that goes through the temporary register. */
  predicate UsesTmp(roc: RegisterOrConstant, s1: Option<Reg>) {
    roc.Constant? && (s1.None? || !IsSimm16(roc.c))
  }

  /** Where a store goes: a temporary that is also the base takes the base's place. */
  function StoreAddress(roc: RegisterOrConstant, s1: Option<Reg>, tmp: Option<Reg>, m: Machine): U64 {
    if NeedsRegister(roc, s1) && s1 == tmp then Wrap(2 * roc.c) else Address(roc, s1, m)
  }

  /** What a temporary holds: the constant, or what is left of it besides the displacement. */
  function Loaded(c: Long, s1: Option<Reg>): U64 {
    if s1.None? && Rest(c) != 0 then Wrap(c - Chunk(c)) else Wrap(c)
  }

  /** What a store stores: a temporary that is also the value takes the value's place. */
  function StoreSource(d: Reg, roc: RegisterOrConstant, s1: Option<Reg>, tmp: Option<Reg>, m: Machine): U64 {
    if UsesTmp(roc, s1) && tmp == Some(d) then Loaded(roc.c, s1) else m.regs[d]
  }

  /** A store goes to the requested address, and stores the original value, unless the temporary stands in for it. */
  lemma StoreRight(d: Reg, roc: RegisterOrConstant, s1: Option<Reg>, tmp: Option<Reg>, m: Machine)
    ensures StoreAddress(roc, s1, tmp, m) == Address(roc, s1, m) <==>
            !(NeedsRegister(roc, s1) && s1 == tmp) || m.regs[s1.value] == Wrap(roc.c)
    ensures StoreSource(d, roc, s1, tmp, m) == m.regs[d] <==>
            !(UsesTmp(roc, s1) && tmp == Some(d)) || m.regs[d] == Loaded(roc.c, s1)
  {
    if NeedsRegister(roc, s1) && s1 == tmp {
      var c := roc.c;
      WrapSum(c, c);
      WrapSum(c, m.regs[s1.value]);
      WrapCancel(c, m.regs[s1.value], Wrap(c));
      WrapSum(c, Wrap(c));
    }
  }

  /** The RegisterOrConstant stores. A constant that needs a register goes through tmp. */
  method StoreTo(k: StoreKind, d: Reg, roc: RegisterOrConstant, s1: Option<Reg>, tmp: Option<Reg>, ghost m: Machine)
    returns (code: seq<Instr>)
    requires Demands(k.Std?, roc, s1)
    requires UsesTmp(roc, s1) ==> tmp.Some? && tmp.value != 0
    ensures RunWords(EncodeAll(code), m).Some?
    ensures var m' := RunWords(EncodeAll(code), m).value;
            && (forall r: Reg :: Some(r) != tmp ==> m'.regs[r] == m.regs[r])
            && m'.mem == StoreValue(k, m.mem, StoreAddress(roc, s1, tmp, m), StoreSource(d, roc, s1, tmp, m))
  {
    hide Exec, Run, Wrap, Chunk, Rest, StoreValue, RunWords, EncodeAll;
    code := [];
    RunNothing(m);
    match roc {
      case Constant(c) =>
        ChunkParity(c);
        if s1.None? {
          var rest;
          code, rest := LoadConstOptimized(tmp.value, c, None, true, m);
          RunSnoc(code, Store(k, d, rest, tmp.value), m); ExecStore(Run(code, m), k, d, rest, tmp.value);
          code := code + [Store(k, d, rest, tmp.value)];
          WrapSum(c - rest, rest);
          WrapSum(c, 0);
        } else if IsSimm16(c) {
          RunSnoc(code, Store(k, d, c, s1.value), m); ExecStore(m, k, d, c, s1.value);
          code := code + [Store(k, d, c, s1.value)];
          WrapSum(c, m.regs[s1.value]);
        } else {
          var rest;
          code, rest := LoadConstOptimized(tmp.value, c, None, false, m);
          RunSnoc(code, StoreX(k, d, tmp.value, s1.value), m);
          ExecStoreX(Run(code, m), k, d, tmp.value, s1.value);
          code := code + [StoreX(k, d, tmp.value, s1.value)];
          WrapSum(c, Wrap(c));
          WrapSum(c, c);
        }
      case Register(r) =>
        if s1.None? {
          RunSnoc(code, Store(k, d, 0, r), m); ExecStore(m, k, d, 0, r);
          code := code + [Store(k, d, 0, r)];
        } else {
          RunSnoc(code, StoreX(k, d, r, s1.value), m); ExecStoreX(m, k, d, r, s1.value);
          code := code + [StoreX(k, d, r, s1.value)];
        }
    }
    EmittedWordsRun(code, m);
  }
}
