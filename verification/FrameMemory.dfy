/**
 Interpreter frames in one flat memory of 8-byte cells, and the call stack they represent. The
 frames of a chain of activations overlap: the arguments on a caller's operand stack are the
 first locals of its callee.
 */
module FrameMemory {
  import opened FrameLayout
  import opened CallStack

  /** Cells by address; those never written hold zero. */
  type Memory = map<int, int>

  function Get(mem: Memory, addr: int): int {
    if addr in mem then mem[addr] else 0
  }

  /** The same but for one cell. */
  ghost predicate Apart(mem: Memory, mem': Memory, addr: int) {
    forall a :: a != addr ==> Get(mem', a) == Get(mem, a)
  }

  // Offsets into the interpreter state.
  const LOCALS := 16
  const METHOD := 32
  const STACK := 48
  const MSG := 56
  const CALLEE := 64
  const CALLEE_ENTRY := 72
  const PREV_LINK := 88
  const STACK_BASE := 104
  const STACK_LIMIT := 112
  const MONITOR_BASE := 120
  const LAST_JAVA_FP := 144
  const LAST_JAVA_SP := 152

  // Offsets into the ABI areas.
  const LR := 16
  const TOP_FRAME_SP := 48
  const INITIAL_CALLER_SP := 56
  const FRAME_MANAGER_LR := 104

  /** Values of n slots, from address a downwards. */
  function Slots(mem: Memory, a: int, n: nat): (s: seq<int>)
    ensures |s| == n && forall i :: 0 <= i < n ==> s[i] == Get(mem, a - WORD * i)
  {
    seq(n, i requires 0 <= i < n => Get(mem, a - WORD * i))
  }

  function MonitorsAt(mem: Memory, state: int, n: nat): (s: seq<Monitor>)
    ensures |s| == n
    ensures forall i :: 0 <= i < n ==> s[i] == Monitor(Get(mem, state - 16 * i - 16), Get(mem, state - 16 * i - 8))
  {
    seq(n, i requires 0 <= i < n => Monitor(Get(mem, state - 16 * i - 16), Get(mem, state - 16 * i - 8)))
  }

  /** The layout of the frame of st, as the fields of its state give it. */
  function LayoutAt(mem: Memory, st: int): Layout {
    var base := Get(mem, st + STACK_BASE);
    Layout(Get(mem, st + LAST_JAVA_FP), Get(mem, st + LAST_JAVA_SP), st, base, base - WORD, Get(mem, st + STACK_LIMIT),
           Get(mem, st + LOCALS))
  }

  /**
   The frame of the state at st is laid out as calls and later monitors lay it out, and its
   operand stack is in use down to, and not including, address e.
   */
  ghost predicate FrameOk(mem: Memory, methods: int -> Method, st: int, e: int) {
    var m := methods(Get(mem, st + METHOD));
    var base := Get(mem, st + STACK_BASE);
    && m.Wf() && !m.native
    && (st + STATE_SIZE) % ALIGNMENT == 0
    && base <= st && (st - base) % MONITOR_SIZE == 0 && base % WORD == 0
    && Live(LayoutAt(mem, st), m.maxStack, (st - base) / MONITOR_SIZE)
    && base - WORD - WORD * m.maxStack <= e <= base - WORD && e % WORD == 0
    && Get(mem, st + LOCALS) % WORD == 0
    && st + STATE_SIZE + PARENT_ABI + 2 * WORD + WORD * m.maxLocals <= Get(mem, st + LOCALS)
  }

  ghost function ActivationAt(mem: Memory, methods: int -> Method, st: int, e: int): Activation
    requires FrameOk(mem, methods, st, e)
  {
    var base := Get(mem, st + STACK_BASE);
    Activation(Get(mem, st + METHOD),
               Slots(mem, Get(mem, st + LOCALS), methods(Get(mem, st + METHOD)).maxLocals),
               Slots(mem, base - WORD, (base - WORD - e) / WORD),
               MonitorsAt(mem, st, (st - base) / MONITOR_SIZE))
  }

  /** States from the current one back to the one entered from outside, and what that one returns to. */
  datatype Chain = Outside(lr: int, sender: int, backChain: int, outer: Memory) | Frame(state: int, caller: Chain)

  function Length(c: Chain): nat {
    if c.Frame? then 1 + Length(c.caller) else 0
  }

  /** The outermost n activations. */
  function Outermost(c: Chain, n: nat): Chain
    requires n <= Length(c)
  {
    if n == Length(c) then c else Outermost(c.caller, n)
  }

  /** At most one activation more or less. */
  predicate Adjacent(c: Chain, c': Chain) {
    c' == c || (c'.Frame? && c'.caller == c) || (c.Frame? && c.caller == c')
  }

  lemma AdjacentOutermost(c: Chain, c': Chain, n: nat)
    requires Adjacent(c, c') && n <= Length(c) && n <= Length(c')
    ensures Outermost(c', n) == Outermost(c, n)
  {
  }

  function StateOf(c: Chain): int { if c.Frame? then c.state else 0 }

  ghost predicate SameAbove(mem: Memory, mem': Memory, e: int) {
    forall a :: a > e ==> Get(mem', a) == Get(mem, a)
  }

  /** The frame of a state holds what is needed to leave it for its caller. */
  ghost predicate LinkOk(mem: Memory, methods: int -> Method, st: int, c: Chain) {
    var fp := st + STATE_SIZE;
    && st > 0 && Get(mem, st + PREV_LINK) == StateOf(c)
    && (match c
        case Outside(lr, sender, back, outer) =>
          && Get(mem, fp) == back && Get(mem, fp + LR) == lr && Get(mem, fp + INITIAL_CALLER_SP) == sender
          && SameAbove(outer, mem, Get(mem, st + LOCALS))
        case Frame(caller, _) =>
          && Get(mem, caller + STACK) == Get(mem, st + LOCALS) - WORD * methods(Get(mem, st + METHOD)).params
          && Get(mem, caller + STACK_LIMIT) <= Get(mem, caller + STACK))
  }

  ghost predicate ChainOk(mem: Memory, methods: int -> Method, chain: Chain, e: int) {
    chain.Frame? ==>
      && FrameOk(mem, methods, chain.state, e)
      && LinkOk(mem, methods, chain.state, chain.caller)
      && ChainOk(mem, methods, chain.caller, Get(mem, chain.state + LOCALS))
  }

  /** The call stack that memory represents. What a callee took as arguments no longer counts as the caller's. */
  ghost function Abs(mem: Memory, methods: int -> Method, chain: Chain, e: int): Stack
    requires ChainOk(mem, methods, chain, e)
  {
    match chain
    case Outside(_, _, _, _) => Entry
    case Frame(st, c) => Active(ActivationAt(mem, methods, st, e), Abs(mem, methods, c, Get(mem, st + LOCALS)))
  }

  /** As before above e, apart from the fields in which a frame talks to the frame manager. */
  ghost predicate SameFrame(mem: Memory, mem': Memory, st: int, e: int) {
    forall a :: a > e && !(st + STACK <= a <= st + CALLEE_ENTRY) ==> Get(mem', a) == Get(mem, a)
  }

  /** A frame, its arguments included, lies above the free end of its operand stack. */
  lemma FrameSame(mem: Memory, mem': Memory, methods: int -> Method, st: int, e: int)
    requires FrameOk(mem, methods, st, e) && SameFrame(mem, mem', st, e)
    ensures FrameOk(mem', methods, st, e)
    ensures ActivationAt(mem', methods, st, e) == ActivationAt(mem, methods, st, e)
  {
    hide Get, LiveTopSize;
    var base := Get(mem, st + STACK_BASE);
    assert base > e && st > e;
    assert Slots(mem', Get(mem, st + LOCALS), methods(Get(mem, st + METHOD)).maxLocals)
        == Slots(mem, Get(mem, st + LOCALS), methods(Get(mem, st + METHOD)).maxLocals);
    assert Slots(mem', base - WORD, (base - WORD - e) / WORD) == Slots(mem, base - WORD, (base - WORD - e) / WORD);
    assert MonitorsAt(mem', st, (st - base) / MONITOR_SIZE) == MonitorsAt(mem, st, (st - base) / MONITOR_SIZE);
  }

  lemma LinkSame(mem: Memory, mem': Memory, methods: int -> Method, st: int, c: Chain, e: int)
    requires FrameOk(mem, methods, st, e) && LinkOk(mem, methods, st, c)
    requires c.Frame? ==> FrameOk(mem, methods, c.state, Get(mem, st + LOCALS))
    requires Get(mem', st + PREV_LINK) == Get(mem, st + PREV_LINK) && Get(mem', st + METHOD) == Get(mem, st + METHOD)
    requires Get(mem', st + LOCALS) == Get(mem, st + LOCALS)
    requires forall a :: st + STATE_SIZE <= a < st + STATE_SIZE + PARENT_ABI ==> Get(mem', a) == Get(mem, a)
    requires SameAbove(mem, mem', Get(mem, st + LOCALS))
    ensures LinkOk(mem', methods, st, c)
  {
    hide Get;
  }

  /** Whatever happens at or below the end of the current operand stack is nothing to the call stack. */
  lemma {:induction false} ChainSame(mem: Memory, mem': Memory, methods: int -> Method, chain: Chain, e: int)
    requires ChainOk(mem, methods, chain, e) && SameFrame(mem, mem', StateOf(chain), e)
    ensures ChainOk(mem', methods, chain, e)
    ensures Abs(mem', methods, chain, e) == Abs(mem, methods, chain, e)
  {
    if chain.Frame? {
      var st := chain.state;
      FrameSame(mem, mem', methods, st, e);
      assert Get(mem', st + LOCALS) == Get(mem, st + LOCALS) > st + STATE_SIZE > e;
      LinkSame(mem, mem', methods, st, chain.caller, e);
      ChainSame(mem, mem', methods, chain.caller, Get(mem, st + LOCALS));
    }
  }

  /** An operand stack holds a whole number of slots. */
  lemma WholeSlots(base: int, e: int)
    requires base % WORD == 0 && e % WORD == 0
    ensures e == base - WORD - WORD * ((base - WORD - e) / WORD)
  {
  }

  lemma FewerSlots(base: int, e: int, n: int)
    requires base % WORD == 0 && e % WORD == 0
    ensures (e + WORD * n) % WORD == 0
    ensures (base - WORD - (e + WORD * n)) / WORD == (base - WORD - e) / WORD - n
    ensures e == base - WORD - WORD * ((base - WORD - e) / WORD)
  {
    WholeSlots(base, e);
    var k := e / WORD;
    assert e + WORD * n == WORD * (k + n);
    var d := (base - WORD - e) / WORD;
    assert base - WORD - (e + WORD * n) == WORD * (d - n);
  }

  lemma SlotsPrefix(mem: Memory, a: int, n: nat, k: nat)
    requires k <= n
    ensures Slots(mem, a, k) == Slots(mem, a, n)[..k]
  {
  }

  lemma FramePop(mem: Memory, methods: int -> Method, st: int, e: int, n: nat)
    requires FrameOk(mem, methods, st, e) && n <= |ActivationAt(mem, methods, st, e).stack|
    ensures FrameOk(mem, methods, st, e + WORD * n)
    ensures var t := ActivationAt(mem, methods, st, e);
            ActivationAt(mem, methods, st, e + WORD * n) == t.(stack := t.stack[..|t.stack| - n])
  {
    hide Get, Slots, MonitorsAt, LiveTopSize;
    var base := Get(mem, st + STACK_BASE);
    var depth := (base - WORD - e) / WORD;
    FewerSlots(base, e, n);
    SlotsPrefix(mem, base - WORD, depth, depth - n);
  }

  /** Popping n slots off the operand stack, by address and by value. */
  lemma PopSlots(mem: Memory, methods: int -> Method, chain: Chain, e: int, n: nat)
    requires chain.Frame? && ChainOk(mem, methods, chain, e)
    requires n <= |Abs(mem, methods, chain, e).top.stack|
    ensures ChainOk(mem, methods, chain, e + WORD * n)
    ensures var s := Abs(mem, methods, chain, e);
            Abs(mem, methods, chain, e + WORD * n) == s.(top := s.top.(stack := s.top.stack[..|s.top.stack| - n]))
  {
    hide FrameOk, ActivationAt, LinkOk;
    FramePop(mem, methods, chain.state, e, n);
  }

  lemma SlotsSuffix(mem: Memory, a: int, n: nat, k: nat)
    requires k <= n
    ensures Slots(mem, a - WORD * k, n - k) == Slots(mem, a, n)[k..]
  {
  }

  lemma SlotsJoin(mem: Memory, a: int, n: nat, k: nat)
    ensures Slots(mem, a, n + k) == Slots(mem, a, n) + Slots(mem, a - WORD * n, k)
  {
    SlotsPrefix(mem, a, n + k, n);
    SlotsSuffix(mem, a, n + k, n);
  }

  lemma FramePush(mem: Memory, methods: int -> Method, st: int, e: int, n: nat)
    requires FrameOk(mem, methods, st, e)
    requires |ActivationAt(mem, methods, st, e).stack| + n <= methods(Get(mem, st + METHOD)).maxStack
    ensures FrameOk(mem, methods, st, e - WORD * n)
    ensures var t := ActivationAt(mem, methods, st, e);
            ActivationAt(mem, methods, st, e - WORD * n) == t.(stack := t.stack + Slots(mem, e, n))
  {
    hide Get, Slots, MonitorsAt, LiveTopSize;
    var base := Get(mem, st + STACK_BASE);
    var depth := (base - WORD - e) / WORD;
    FewerSlots(base, e, 0 - n);
    SlotsJoin(mem, base - WORD, depth, n);
  }

  /** Taking what lies below the operand stack into it. */
  lemma PushSlots(mem: Memory, methods: int -> Method, chain: Chain, e: int, n: nat)
    requires chain.Frame? && ChainOk(mem, methods, chain, e)
    requires |Abs(mem, methods, chain, e).top.stack| + n <= methods(Get(mem, chain.state + METHOD)).maxStack
    ensures ChainOk(mem, methods, chain, e - WORD * n)
    ensures var s := Abs(mem, methods, chain, e);
            Abs(mem, methods, chain, e - WORD * n) == s.(top := s.top.(stack := s.top.stack + Slots(mem, e, n)))
  {
    hide FrameOk, ActivationAt, LinkOk, Slots, Get;
    FramePush(mem, methods, chain.state, e, n);
  }

  /** What a frame promises about its own addresses. */
  lemma FrameFacts(mem: Memory, methods: int -> Method, st: int, e: int)
    requires FrameOk(mem, methods, st, e)
    ensures Get(mem, st + LAST_JAVA_FP) == st + STATE_SIZE
    ensures Get(mem, st + LAST_JAVA_SP) % ALIGNMENT == 0 && Get(mem, st + LAST_JAVA_SP) + FRAME_MANAGER_LR <= e
    ensures Get(mem, st + LAST_JAVA_SP) + TOP_ABI
            <= Get(mem, st + STACK_BASE) - WORD * methods(Get(mem, st + METHOD)).maxStack
    ensures Get(mem, st + STACK_LIMIT) <= e
    ensures e % WORD == 0 && e < st && methods(Get(mem, st + METHOD)).Wf()
    ensures st + STATE_SIZE + PARENT_ABI + 2 * WORD <= Get(mem, st + LOCALS) - WORD * methods(Get(mem, st + METHOD)).params
    ensures |ActivationAt(mem, methods, st, e).stack| == (Get(mem, st + STACK_BASE) - WORD - e) / WORD
  {
    hide Get, Slots, MonitorsAt, LiveTopSize;
    var base := Get(mem, st + STACK_BASE);
    WholeMonitors(st, base);
    TopSizeFacts(methods(Get(mem, st + METHOD)).maxStack, (st - base) / MONITOR_SIZE);
    AlignedDifference(st + STATE_SIZE, LiveTopSize(methods(Get(mem, st + METHOD)).maxStack, (st - base) / MONITOR_SIZE));
  }

  lemma WholeMonitors(st: int, base: int)
    requires (st - base) % MONITOR_SIZE == 0 && base <= st
    ensures base == st - MonitorBytes((st - base) / MONITOR_SIZE)
  {
  }

  /** Slots between the stack base and the stack top that the state's own field gives. */
  function DepthAt(mem: Memory, st: int): int {
    (Get(mem, st + STACK_BASE) - WORD - Get(mem, st + STACK)) / WORD
  }

  /**
   Deoptimization would rebuild the frame of st where it is: for as many slots and monitors as it
   has, all addresses are those in its state, the stack top included. The last args of the slots can
   be arguments kept for a callee that is popped.
   */
  ghost predicate RebuiltWith(mem: Memory, methods: int -> Method, st: int, args: nat)
    requires args <= DepthAt(mem, st)
  {
    var monitors := (st - Get(mem, st + STACK_BASE)) / MONITOR_SIZE;
    && monitors >= 0
    && Agrees(LayoutActivation(st + STATE_SIZE, methods(Get(mem, st + METHOD)).maxStack, DepthAt(mem, st) - args, args, monitors),
              LayoutAt(mem, st).(tos := Get(mem, st + STACK)))
  }

  ghost predicate Rebuilt(mem: Memory, methods: int -> Method, st: int) {
    DepthAt(mem, st) >= 0 && forall args :: 0 <= args <= DepthAt(mem, st) ==> RebuiltWith(mem, methods, st, args)
  }

  lemma FrameRebuilt(mem: Memory, methods: int -> Method, st: int, e: int, args: nat)
    requires FrameOk(mem, methods, st, e) && Get(mem, st + STACK) == e - WORD * args
    ensures Rebuilt(mem, methods, st)
    ensures DepthAt(mem, st) == |ActivationAt(mem, methods, st, e).stack| + args
  {
    hide Get, LiveTopSize, Slots, MonitorsAt, DeoptTopFrameSize;
    var base := Get(mem, st + STACK_BASE);
    var n := (st - base) / MONITOR_SIZE;
    var maxStack := methods(Get(mem, st + METHOD)).maxStack;
    LiveAgrees(LayoutAt(mem, st), maxStack, n);
    FewerSlots(base, e, 0 - args);
  }

  /** A caller's slots include the arguments that its callee has taken. */
  lemma {:induction false} CallersRebuilt(mem: Memory, methods: int -> Method, chain: Chain, st: int)
    requires chain.Frame? ==> ChainOk(mem, methods, chain, Get(mem, st + LOCALS))
    requires LinkOk(mem, methods, st, chain) && methods(Get(mem, st + METHOD)).Wf()
    ensures forall c :: c in States(chain) ==> Rebuilt(mem, methods, c)
  {
    hide Get, FrameOk, ActivationAt, Rebuilt;
    if chain.Frame? {
      var e := Get(mem, st + LOCALS);
      FrameRebuilt(mem, methods, chain.state, e, methods(Get(mem, st + METHOD)).params);
      FrameFacts(mem, methods, chain.state, e);
      CallersRebuilt(mem, methods, chain.caller, chain.state);
    }
  }

  /** So it is for every frame of the call stack, however many monitors it has grown. */
  lemma DeoptRebuilds(mem: Memory, methods: int -> Method, chain: Chain, e: int)
    requires ChainOk(mem, methods, chain, e) && (chain.Frame? ==> e == Get(mem, chain.state + STACK))
    ensures forall st :: st in States(chain) ==> Rebuilt(mem, methods, st)
    ensures chain.Frame? ==> DepthAt(mem, chain.state) == |Abs(mem, methods, chain, e).top.stack|
  {
    hide Get, FrameOk, ActivationAt, Rebuilt, LinkOk;
    if chain.Frame? {
      FrameRebuilt(mem, methods, chain.state, e, 0);
      FrameFacts(mem, methods, chain.state, e);
      CallersRebuilt(mem, methods, chain.caller, chain.state);
    }
  }

  lemma SlotsSame(mem: Memory, mem': Memory, a: int, n: nat)
    requires forall b :: a - WORD * n < b <= a ==> Get(mem', b) == Get(mem, b)
    ensures Slots(mem', a, n) == Slots(mem, a, n)
  {
    hide Get;
  }

  /** Deoptimization finds the locals from the stack top of the caller, and they are there. */
  ghost predicate LocalsRebuilt(mem: Memory, methods: int -> Method, chain: Chain) {
    chain.Frame? ==>
      && (chain.caller.Frame? ==>
            DeoptLocals(Get(mem, chain.caller.state + STACK), methods(Get(mem, chain.state + METHOD)))
            == Get(mem, chain.state + LOCALS))
      && LocalsRebuilt(mem, methods, chain.caller)
  }

  lemma {:induction false} DeoptFindsLocals(mem: Memory, methods: int -> Method, chain: Chain, e: int)
    requires ChainOk(mem, methods, chain, e)
    ensures LocalsRebuilt(mem, methods, chain)
  {
    hide Get, FrameOk;
    if chain.Frame? {
      DeoptFindsLocals(mem, methods, chain.caller, Get(mem, chain.state + LOCALS));
    }
  }

  lemma {:induction false} ChainLength(mem: Memory, methods: int -> Method, chain: Chain, e: int)
    requires ChainOk(mem, methods, chain, e)
    ensures Depth(Abs(mem, methods, chain, e)) == Length(chain)
  {
    hide Get, FrameOk, LinkOk, ActivationAt;
    if chain.Frame? {
      ChainLength(mem, methods, chain.caller, Get(mem, chain.state + LOCALS));
    }
  }

  // ----- Following the links -----

  /** The first n states met by following the links to previous states. */
  function Walk(mem: Memory, st: int, n: nat): seq<int>
    decreases n
  {
    if n == 0 then [] else [st] + Walk(mem, Get(mem, st + PREV_LINK), n - 1)
  }

  /** Where a walk of n steps ends up. */
  function WalkEnd(mem: Memory, st: int, n: nat): int
    decreases n
  {
    if n == 0 then st else WalkEnd(mem, Get(mem, st + PREV_LINK), n - 1)
  }

  function States(chain: Chain): seq<int> {
    if chain.Frame? then [chain.state] + States(chain.caller) else []
  }

  /** The links in memory lead through exactly the activations of the call stack, and then to zero. */
  lemma {:induction false} LinksMirrorCalls(mem: Memory, methods: int -> Method, chain: Chain, e: int)
    requires ChainOk(mem, methods, chain, e)
    ensures var depth := Depth(Abs(mem, methods, chain, e));
            && Walk(mem, StateOf(chain), depth) == States(chain) && |States(chain)| == depth
            && WalkEnd(mem, StateOf(chain), depth) == 0
            && forall i :: 0 <= i < depth ==> States(chain)[i] > 0
  {
    hide Get, FrameOk, ActivationAt;
    if chain.Frame? {
      LinksMirrorCalls(mem, methods, chain.caller, Get(mem, chain.state + LOCALS));
    }
  }
}
