/**
 The frame manager of the C++ interpreter: it pushes, resizes and pops interpreter frames in
 answer to messages from the bytecode interpreter, and moves results between operand stacks.
 */
module FrameManager {
  import opened Common
  import opened FrameLayout
  import opened CallStack
  import opened FrameMemory

  // Messages between the interpreter and the frame manager.
  const METHOD_ENTRY := 2
  const METHOD_RESUME := 3
  const GOT_MONITORS := 6
  const CALL_METHOD := 8
  const RETURN_FROM_METHOD := 9
  const MORE_MONITORS := 10
  const THROWING_EXCEPTION := 11
  const POPPING_FRAME := 12

  class Manager {
    var sp: int          // R1
    var state: int       // R14
    var prevState: int   // R15
    var mem: Memory
    ghost var chain: Chain

    const methods: int -> Method
    const limit: int     // the thread's stack overflow limit
    const pc: int        // an address in the frame manager's code
    const self: int      // its entry point

    constructor (methods: int -> Method, limit: int, pc: int, self: int, sp: int, mem: Memory)
      ensures this.methods == methods && this.limit == limit && this.pc == pc && this.self == self
      ensures this.sp == sp && this.mem == mem && chain.Outside?
    {
      this.methods, this.limit, this.pc, this.self := methods, limit, pc, self;
      this.sp, this.state, this.prevState, this.mem := sp, 0, 0, mem;
      this.chain := Outside(0, 0, 0, mem);
    }

    /** The top frame returns into the frame manager, and its caller was not extended. */
    ghost predicate Home()
      reads this
    {
      Get(mem, sp + FRAME_MANAGER_LR) == pc && Get(mem, sp + INITIAL_CALLER_SP) == sp
    }

    ghost predicate Valid()
      reads this
    {
      && chain.Frame? && limit > 0
      && state == chain.state && prevState == StateOf(chain.caller)
      && ChainOk(mem, methods, chain, Get(mem, state + STACK))
      && sp == Get(mem, state + LAST_JAVA_SP) && Get(mem, sp) == state + STATE_SIZE
    }

    /** The activations, innermost first. */
    ghost function Activations(): Stack
      reads this
      requires Valid()
    {
      Abs(mem, methods, chain, Get(mem, state + STACK))
    }

    // ----- Frame primitives -----

    method Put(addr: int, value: int)
      modifies this`mem
      ensures Get(mem, addr) == value && Apart(old(mem), mem, addr)
    {
      mem := mem[addr := value];
    }

    /** Moving the stack pointer and taking the back chain along. */
    method ResizeFrame(offset: int)
      modifies this`mem, this`sp
      ensures sp == old(sp) + offset && Get(mem, sp) == Get(old(mem), old(sp)) && Apart(old(mem), mem, sp)
    {
      var back := Get(mem, sp);
      Put(sp + offset, back);
      sp := sp + offset;
    }

    /**
     The current top frame becomes a parent frame, and a new top frame is pushed. What the old
     ABI area held is read before the new areas, which may overlap it, are written.
     */
    method PushInterpreterFrame(topSize: int, resize: int)
      requires topSize >= TOP_ABI
      modifies this`mem, this`sp
      ensures var fp := old(sp) - resize;
              && sp == fp - topSize && Get(mem, sp) == fp
              && Get(mem, fp) == Get(old(mem), old(sp)) && Get(mem, fp + LR) == Get(old(mem), old(sp + FRAME_MANAGER_LR))
              && Get(mem, fp + INITIAL_CALLER_SP) == Get(old(mem), old(sp + INITIAL_CALLER_SP))
              && Get(mem, fp + TOP_FRAME_SP) == old(sp) && SameAbove(old(mem), mem, fp + INITIAL_CALLER_SP)
      ensures Home()
    {
      hide Get;
      var lr, top, initial := Get(mem, sp + FRAME_MANAGER_LR), sp, Get(mem, sp + INITIAL_CALLER_SP);
      ResizeFrame(-resize);
      Put(sp + LR, lr);
      Put(sp + TOP_FRAME_SP, top);
      Put(sp + INITIAL_CALLER_SP, initial);
      Put(sp - topSize, sp);
      sp := sp - topSize;
      Put(sp + FRAME_MANAGER_LR, pc);
      Put(sp + INITIAL_CALLER_SP, sp);
    }

    /** Fills in the new interpreter state, and the object of the method's monitor. */
    method InitState(id: int, locals: int, m: Method)
      requires state + STATE_SIZE <= locals
      modifies this`mem
      ensures forall a :: a < state - WORD * m.Monitors() || a >= state + STATE_SIZE ==> Get(mem, a) == Get(old(mem), a)
      ensures Get(mem, state + PREV_LINK) == prevState && Get(mem, state + METHOD) == id && Get(mem, state + LOCALS) == locals
      ensures Get(mem, state + LAST_JAVA_SP) == sp && Get(mem, state + LAST_JAVA_FP) == Get(old(mem), old(sp))
      ensures Get(mem, state + MONITOR_BASE) == state
      ensures Get(mem, state + MSG) == METHOD_ENTRY && Get(mem, state + CALLEE) == 0
      ensures var base := state - MONITOR_SIZE * m.Monitors();
              && Get(mem, state + STACK_BASE) == base && Get(mem, state + STACK) == base - WORD
              && Get(mem, state + STACK_LIMIT) == base - WORD - WORD * m.StackSlots()
      ensures m.synchronized ==> IsLockee(old(mem), m, locals, Get(mem, state - WORD))
    {
      hide Get;
      var fp := Get(mem, sp);
      var base := if m.synchronized then state - MONITOR_SIZE else state;
      Put(state + PREV_LINK, prevState);
      Put(state + METHOD, id);
      Put(state + LOCALS, locals);
      Put(state + LAST_JAVA_FP, fp);
      Put(state + CALLEE, 0);
      Put(state + MONITOR_BASE, state);
      Put(state + MSG, METHOD_ENTRY);
      Put(state + LAST_JAVA_SP, sp);
      Put(state + STACK_BASE, base);
      Put(state + STACK, base - WORD);
      Put(state + STACK_LIMIT, base - WORD - WORD * m.StackSlots());
      if m.synchronized {
        Put(base + WORD, Lockee(mem, m, locals));
      }
    }

    /** Clears the locals that are not parameters, from the first one down. */
    method ZeroLocals(first: int, count: nat)
      modifies this`mem
      ensures Slots(mem, first, count) == Repeat(0, count)
      ensures forall a :: a > first || a <= first - WORD * count ==> Get(mem, a) == Get(old(mem), a)
    {
      hide Get;
      var addr, left := first, count;
      while left > 0
        invariant 0 <= left <= count && addr == first - WORD * (count - left)
        invariant forall i :: 0 <= i < count - left ==> Get(mem, first - WORD * i) == 0
        invariant forall a :: a > first || a <= addr ==> Get(mem, a) == Get(old(mem), a)
      {
        Put(addr, 0);
        addr := addr - WORD;
        left := left - 1;
      }
    }

    /**
     Makes room for the frame of a callee below the caller's stack top, and fills it in. On
     overflow only the state register has changed; no cell has been written.
     */
    method ComputeInterpreterState(id: int, tos: int) returns (overflow: bool)
      requires methods(id).Wf()
      modifies this`mem, this`sp, this`state
      ensures overflow <==> CallLayout(old(sp), tos, methods(id)).sp < limit
      ensures overflow ==> mem == old(mem) && sp == old(sp)
      ensures !overflow ==> limit <= sp < state
      ensures !overflow ==> Computed(old(mem), mem, old(sp), sp, state, prevState, id, methods(id), tos)
      ensures !overflow ==> Home() && Get(mem, state + MSG) == METHOD_ENTRY
    {
      hide Get, AlignUp, Slots, TopFrameSize, ParentFrameResize, CallLayout;
      var m := methods(id);
      LayoutFacts(sp, tos, m);
      var topSize := TopFrameSize(m);
      var resize := ParentFrameResize(sp, tos, m);
      state := sp - resize - STATE_SIZE;
      if sp - resize - topSize < limit {
        return true;
      }
      PushInterpreterFrame(topSize, resize);
      InitState(id, tos + WORD * m.params, m);
      if !m.native {
        ZeroLocals(tos, m.ExtraLocals());
      }
      return false;
    }

    /** Makes the frame of the current state the top frame again, with a new stack top. */
    method Resume(newTos: int, msg: int)
      requires chain.Frame? && limit > 0 && state == chain.state && prevState == StateOf(chain.caller)
      requires ChainOk(mem, methods, chain, newTos) && sp <= newTos
      modifies this`mem, this`sp
      ensures Valid() && Activations() == Abs(old(mem), methods, chain, newTos)
      ensures Get(mem, state + STACK) == newTos && Get(mem, state + MSG) == msg && KeptAbove(old(mem), mem, state, newTos)
      ensures Home()
    {
      hide Get, FrameOk, LinkOk, ActivationAt;
      FrameFacts(mem, methods, state, newTos);
      var fp := Get(mem, state + LAST_JAVA_FP);
      var top := Get(mem, state + LAST_JAVA_SP);
      Put(sp, fp);
      ResizeFrame(top - sp);
      Put(sp + FRAME_MANAGER_LR, pc);
      Put(sp + INITIAL_CALLER_SP, sp);
      Put(state + STACK, newTos);
      Put(state + MSG, msg);
      ChainSame(old(mem), mem, methods, chain, newTos);
    }

    /**
     Calls an interpreted method, with the arguments on top of the caller's operand stack. On
     overflow the caller goes on as it was, arguments included.
     */
    method ReDispatch() returns (overflow: bool)
      requires Valid()
      requires var m := methods(Get(mem, state + CALLEE));
               m.Wf() && !m.native && m.params <= |Activations().top.stack|
      modifies this
      ensures Valid() && Home() && Get(mem, state + MSG) == if overflow then METHOD_RESUME else METHOD_ENTRY
      ensures overflow <==> CallLayout(old(sp), old(Get(mem, state + STACK)), methods(old(Get(mem, state + CALLEE)))).sp < limit
      ensures overflow ==> Activations() == old(Activations()) && chain == old(chain)
      ensures !overflow ==> chain == Frame(state, old(chain))
      ensures !overflow ==>
                LayoutAt(mem, state) == CallLayout(old(sp), old(Get(mem, state + STACK)), methods(old(Get(mem, state + CALLEE))))
      ensures !overflow ==>
                var id := old(Get(mem, state + CALLEE));
                Activations() == Call(old(Activations()), id, methods(id), FirstMonitors(mem, state, methods(id)))
    {
      hide Get, FrameOk, LinkOk, ActivationAt, AlignUp, CallLayout, FirstMonitors, Computed;
      var id, tos := Get(mem, state + CALLEE), Get(mem, state + STACK);
      FrameFacts(mem, methods, state, tos);
      prevState := state;
      overflow := ComputeInterpreterState(id, tos);
      if overflow {
        state := Get(mem, sp) - STATE_SIZE;
        PrevLinkIs(mem, methods, chain, tos);
        prevState := Get(mem, state + PREV_LINK);
        Resume(Get(mem, state + STACK), METHOD_RESUME);
      } else {
        CalledChain(old(mem), mem, methods, old(chain), old(sp), sp, state, id, tos);
        chain := Frame(state, chain);
      }
    }

    /**
     Native or compiled code, which uses the memory below the arguments and the registers of the
     frame manager, and leaves the back chain alone.
     */
    method RunOther(writes: Memory, tos: int)
      modifies this`mem, this`state, this`prevState
      ensures forall a :: Get(mem, a) == if a in writes && a <= tos && a != sp then writes[a] else Get(old(mem), a)
    {
      mem := mem + map a | a in writes && a <= tos && a != sp :: writes[a];
      state, prevState := *, *;
    }

    /** Puts a result from a register below the operand stack. */
    method PushResult(tos: int, slots: nat, value: int) returns (newTos: int)
      requires slots <= 2
      modifies this`mem
      ensures newTos == tos - WORD * slots && SameAbove(old(mem), mem, tos)
      ensures Slots(mem, tos, slots) == ResultSlots(value, slots)
      ensures slots > 0 ==> Get(mem, newTos + WORD) == value
      ensures slots == 2 ==> Get(mem, newTos + 2 * WORD) == 0
    {
      hide Get;
      newTos := tos - WORD * slots;
      if slots == 1 {
        Put(tos, value);
      } else if slots == 2 {
        Put(tos - WORD, value);
        Put(tos, 0);
      }
    }

    /** Back from native or compiled code, which leaves no arguments and a result or a pending exception. */
    method ReturnFromNative(ending: Ending)
      requires Valid() && !ending.Rethrown?
      requires var m := methods(Get(mem, state + CALLEE));
               && m.Wf() && m.params <= |Activations().top.stack|
               && (ending.Returned? ==>
                     |Activations().top.stack| - m.params + m.resultSlots <= methods(Activations().top.id).maxStack)
      modifies this`mem, this`sp
      ensures Valid() && Home()
      ensures Activations() == CallOther(old(Activations()), methods(old(Get(mem, state + CALLEE))), ending)
      ensures CameBack(old(mem), mem, state, methods(Get(old(mem), state + CALLEE)), ending)
    {
      hide Get, FrameOk, LinkOk, ActivationAt, Slots, CameBack, KeptAbove;
      ghost var before := Get(mem, state + STACK);
      ActivationId(mem, methods, state, before);
      var m := methods(Get(mem, state + CALLEE));
      var tos := Get(mem, state + STACK) + WORD * m.params;
      PopSlots(mem, methods, chain, before, m.params);
      FrameFacts(mem, methods, state, tos);
      if ending.Returned? {
        tos := PushResult(tos, m.resultSlots, ending.value);
        ReturnedChain(old(mem), mem, methods, chain, before + WORD * m.params, m.resultSlots);
        FrameFacts(mem, methods, state, tos);
      }
      ghost var pushed := mem;
      Resume(tos, METHOD_RESUME);
      CameBackNow(old(mem), pushed, mem, state, m, ending, tos);
    }

    /** Runs native or compiled code and finds the state again through the back chain. */
    method RunSpecial(writes: Memory)
      requires Valid()
      modifies this`mem, this`state, this`prevState
      ensures Valid() && state == old(state) && Activations() == old(Activations())
      ensures SameAbove(old(mem), mem, Get(old(mem), state + STACK)) && Get(old(mem), state + STACK) < state
    {
      hide Get, FrameOk, LinkOk, ActivationAt;
      ghost var tos := Get(mem, state + STACK);
      FrameFacts(mem, methods, state, tos);
      PrevLinkIs(mem, methods, chain, tos);
      RunOther(writes, Get(mem, state + STACK));
      ChainSame(old(mem), mem, methods, chain, tos);
      state := Get(mem, sp) - STATE_SIZE;
      prevState := Get(mem, state + PREV_LINK);
    }

    /**
     Calls native or compiled code. It comes back with a result or with an exception pending, and
     the arguments go; or the exception is rethrown, and the caller goes on as it was.
     */
    method CallSpecial(ending: Ending, writes: Memory)
      requires Valid()
      requires var m := methods(Get(mem, state + CALLEE));
               && m.Wf() && m.params <= |Activations().top.stack|
               && (ending.Returned? ==>
                     |Activations().top.stack| - m.params + m.resultSlots <= methods(Activations().top.id).maxStack)
      modifies this
      ensures Valid() && Home() && chain == old(chain) && state == old(state)
      ensures Activations() == CallOther(old(Activations()), methods(old(Get(mem, state + CALLEE))), ending)
      ensures CameBack(old(mem), mem, state, methods(Get(old(mem), state + CALLEE)), ending)
    {
      hide Get, FrameOk, LinkOk, ActivationAt, Abs, ChainOk, CameBack, KeptAbove;
      RunSpecial(writes);
      ghost var ran := mem;
      if ending.Rethrown? {
        FrameBelow(mem, methods, chain, Get(mem, state + STACK));
        Resume(Get(mem, state + STACK), METHOD_RESUME);
        CameBackNow(ran, ran, mem, state, methods(Get(ran, state + CALLEE)), ending, Get(ran, state + STACK));
      } else {
        ReturnFromNative(ending);
      }
      CameBackAfter(old(mem), ran, mem, state, methods(Get(ran, state + CALLEE)), ending);
    }

    /** Calls the method that the interpreter has named, through the entry point it has named. */
    method CallMethod(ending: Ending, writes: Memory) returns (o: Outcome)
      requires Valid()
      requires var m := methods(Get(mem, state + CALLEE));
               && m.Wf() && m.params <= |Activations().top.stack|
               && (if Get(mem, state + CALLEE_ENTRY) == self then !m.native
                   else ending.Returned? ==>
                          |Activations().top.stack| - m.params + m.resultSlots <= methods(Activations().top.id).maxStack)
      modifies this
      ensures Valid() && Home()
      ensures o.Overflowed? <==>
                && old(Get(mem, state + CALLEE_ENTRY)) == self
                && CallLayout(old(sp), old(Get(mem, state + STACK)), methods(old(Get(mem, state + CALLEE)))).sp < limit
      ensures old(Get(mem, state + CALLEE_ENTRY)) != self ==>
                && chain == old(chain) && state == old(state)
                && CameBack(old(mem), mem, state, methods(Get(old(mem), state + CALLEE)), ending)
                && Activations() == CallOther(old(Activations()), methods(old(Get(mem, state + CALLEE))), ending)
      ensures o.Overflowed? ==> Activations() == old(Activations()) && chain == old(chain)
      ensures old(Get(mem, state + CALLEE_ENTRY)) == self && o.Done? ==>
                var id := old(Get(mem, state + CALLEE));
                && chain == Frame(state, old(chain))
                && LayoutAt(mem, state) == CallLayout(old(sp), old(Get(mem, state + STACK)), methods(id))
                && Activations() == Call(old(Activations()), id, methods(id), if methods(id).synchronized then [Monitor(o.lock, 0)] else [])
    {
      hide Get, Abs, ChainOk, CallLayout, LayoutAt, CameBack;
      o := Done(0);
      if Get(mem, state + CALLEE_ENTRY) == self {
        var overflow := ReDispatch();
        o := if overflow then Overflowed else Done(Get(mem, state - MONITOR_SIZE));
      } else {
        CallSpecial(ending, writes);
      }
    }

    /** Pops the state of the callee; the frame goes in Resume. */
    method PopInterpreterState()
      requires chain.Frame? && chain.caller.Frame? && prevState == chain.caller.state
      requires Get(mem, prevState + PREV_LINK) == StateOf(chain.caller.caller)
      modifies this`state, this`prevState, this`chain
      ensures chain == old(chain).caller && state == chain.state && prevState == StateOf(chain.caller)
    {
      state := prevState;
      prevState := Get(mem, state + PREV_LINK);
      chain := chain.caller;
    }

    /** Copies the top slots of the operand stack, at most two, to where the arguments began. */
    method MoveResult(slots: nat) returns (to: int)
      requires slots <= 2
      modifies this`mem
      ensures to == Get(old(mem), state + LOCALS) && SameAbove(old(mem), mem, to)
      ensures Slots(mem, to, slots) == Slots(old(mem), Get(old(mem), state + STACK) + WORD * slots, slots)
    {
      hide Get;
      var from := Get(mem, state + STACK) + WORD;
      to := Get(mem, state + LOCALS);
      if slots == 1 {
        Put(to, Get(mem, from));
      } else if slots == 2 {
        var first, second := Get(mem, from + WORD), Get(mem, from);
        Put(to, first);
        Put(to - WORD, second);
      }
    }

    /** Moves the result, of no, one or two slots, to where the arguments began, and goes back to the caller. */
    method ReturnFromMethod()
      requires Valid() && Activations().callers.Active?
      requires var slots := methods(Activations().top.id).resultSlots;
               && slots <= |Activations().top.stack|
               && |Activations().callers.top.stack| + slots <= methods(Activations().callers.top.id).maxStack
      modifies this
      ensures Valid() && Home() && chain == old(chain).caller && Get(mem, state + MSG) == METHOD_RESUME
      ensures Activations() == Return(old(Activations()), methods(old(Activations()).top.id).resultSlots)
    {
      hide Get, FrameOk, LinkOk, ActivationAt, Slots;
      ActivationId(mem, methods, state, Get(mem, state + STACK));
      var slots := methods(Get(mem, state + METHOD)).resultSlots;
      ghost var tos := Get(mem, state + STACK);
      FrameFacts(mem, methods, state, tos);
      ArgumentsOnTop(mem, methods, chain, tos, slots);
      CallerChain(mem, methods, chain, tos);
      var to := MoveResult(slots);
      ghost var moved := mem;
      ReturnedChain(old(mem), moved, methods, chain.caller, to, slots);
      PopInterpreterState();
      Resume(to - WORD * slots, METHOD_RESUME);
    }

    /** Goes back to the caller without a result. */
    method ThrowingException()
      requires Valid() && Activations().callers.Active?
      modifies this
      ensures Valid() && Home() && chain == old(chain).caller && Get(mem, state + MSG) == METHOD_RESUME
      ensures Activations() == Throw(old(Activations()))
    {
      hide Get, FrameOk, LinkOk, ActivationAt;
      FrameFacts(mem, methods, state, Get(mem, state + STACK));
      CallerChain(mem, methods, chain, Get(mem, state + STACK));
      var newTos := Get(mem, state + LOCALS);
      PopInterpreterState();
      Resume(newTos, METHOD_RESUME);
    }

    /** Goes back to the caller as it was before the call, to make it again. */
    method PoppingFrame()
      requires Valid() && Activations().callers.Active?
      requires methods(Activations().top.id).params <= |Activations().top.locals|
      modifies this
      ensures Valid() && Home() && chain == old(chain).caller && Get(mem, state + MSG) == POPPING_FRAME
      ensures Activations() == PopFrame(old(Activations()), methods(old(Activations()).top.id).params)
    {
      hide Get, FrameOk, LinkOk, ActivationAt, Slots;
      ghost var tos := Get(mem, state + STACK);
      FrameFacts(mem, methods, state, tos);
      ActivationId(mem, methods, state, tos);
      CallerChain(mem, methods, chain, tos);
      PoppedChain(mem, methods, chain, tos);
      var newTos := Get(mem, prevState + STACK);
      PopInterpreterState();
      Resume(newTos, POPPING_FRAME);
    }

    /** The slots above address from, copied two words down, lowest first. */
    method CopySlots(from: int, n: nat)
      modifies this`mem
      ensures Slots(mem, from - MONITOR_SIZE + WORD * n, n) == Slots(old(mem), from + WORD * n, n)
      ensures forall a :: a <= from - MONITOR_SIZE || a > from - MONITOR_SIZE + WORD * n ==> Get(mem, a) == Get(old(mem), a)
    {
      hide Get;
      var source, target, i := from, from - MONITOR_SIZE, 0;
      while i < n
        invariant 0 <= i <= n && source == from + WORD * i && target == source - MONITOR_SIZE
        invariant Slots(mem, target, i) == Slots(old(mem), source, i)
        invariant forall a :: a <= from - MONITOR_SIZE || a > target ==> Get(mem, a) == Get(old(mem), a)
      {
        source := source + WORD;
        target := target + WORD;
        ghost var before := mem;
        Put(target, Get(mem, source));
        SlotsSuffix(mem, target, i + 1, 1);
        SlotsSuffix(old(mem), source, i + 1, 1);
        assert Slots(mem, target - WORD, i) == Slots(before, target - WORD, i);
        assert Slots(mem, target, i + 1) == [Get(mem, target)] + Slots(mem, target - WORD, i);
        assert Slots(old(mem), source, i + 1) == [Get(old(mem), source)] + Slots(old(mem), source - WORD, i);
        i := i + 1;
      }
    }

    /** Lowers the frame by the size of a monitor, and the addresses in the state with it. */
    method LowerFrame()
      requires sp + TOP_ABI <= state
      modifies this`mem, this`sp
      ensures sp == old(sp) - MONITOR_SIZE && Get(mem, sp) == Get(old(mem), old(sp))
      ensures Get(mem, state + LAST_JAVA_SP) == sp
      ensures Get(mem, state + STACK_BASE) == Get(old(mem), state + STACK_BASE) - MONITOR_SIZE
      ensures Get(mem, state + STACK) == Get(old(mem), state + STACK) - MONITOR_SIZE
      ensures Get(mem, state + STACK_LIMIT) == Get(old(mem), state + STACK_LIMIT) - MONITOR_SIZE
      ensures Get(mem, state + MSG) == GOT_MONITORS && (old(Home()) ==> Home())
      ensures forall a :: a > old(sp) + FRAME_MANAGER_LR && !IsLowered(state, a) ==> Get(mem, a) == Get(old(mem), a)
    {
      hide Get;
      var base, oldTos, stackLimit := Get(mem, state + STACK_BASE), Get(mem, state + STACK), Get(mem, state + STACK_LIMIT);
      var lr := Get(mem, sp + FRAME_MANAGER_LR);
      ResizeFrame(-MONITOR_SIZE);
      Put(sp + FRAME_MANAGER_LR, lr);
      Put(sp + INITIAL_CALLER_SP, sp);
      Put(state + LAST_JAVA_SP, sp);
      Put(state + STACK_BASE, base - MONITOR_SIZE);
      Put(state + STACK, oldTos - MONITOR_SIZE);
      Put(state + STACK_LIMIT, stackLimit - MONITOR_SIZE);
      Put(state + MSG, GOT_MONITORS);
    }

    /**
     Moves the operand stack down and puts a monitor in its place. The copy takes one word more
     than the operand stack has, which ends up as the lock word of the new monitor.
     */
    method ShuffleDown(ghost depth: nat)
      requires var base, tos := Get(mem, state + STACK_BASE), Get(mem, state + STACK);
               base <= state && tos == base - WORD - WORD * depth && sp + FRAME_MANAGER_LR <= tos
      requires Get(mem, state + LAST_JAVA_SP) == sp
      modifies this`mem, this`sp
      ensures sp == old(sp) - MONITOR_SIZE && Get(mem, sp) == Get(old(mem), old(sp))
      ensures Shuffled(old(mem), mem, state, depth) && Get(mem, state + MSG) == GOT_MONITORS && (old(Home()) ==> Home())
    {
      hide Get, Slots;
      var base, oldTos := Get(mem, state + STACK_BASE), Get(mem, state + STACK);
      LowerFrame();
      ghost var lowered := mem;
      var n := (base - oldTos) / WORD;
      assert n == depth + 1;
      if n != 0 {
        CopySlots(oldTos, n);
      }
      assert oldTos + WORD * n == base;
      CopiedSlots(lowered, mem, base, depth);
      ghost var copied := mem;
      Put(base - MONITOR_SIZE + WORD, 0);
      SlotsSame(old(mem), lowered, base - WORD, depth);
      SlotsSame(copied, mem, base - MONITOR_SIZE - WORD, depth);
    }

    /** Adds a monitor below the existing ones; operand stack, locals and callers stay as they are. */
    method MoreMonitors()
      requires Valid()
      modifies this`mem, this`sp
      ensures Valid() && (old(Home()) ==> Home())
      ensures Activations() == GrowMonitors(old(Activations()), Get(old(mem), Get(old(mem), state + STACK_BASE)))
      ensures LayoutAt(mem, state) == AddMonitor(LayoutAt(old(mem), state))
      ensures Shuffled(old(mem), mem, state, |old(Activations()).top.stack|) && Get(mem, state + MSG) == GOT_MONITORS
    {
      hide Get, FrameOk, LinkOk, ActivationAt, Shuffled;
      ghost var tos := Get(mem, state + STACK);
      FrameFacts(mem, methods, state, tos);
      BaseFacts(mem, methods, state, tos);
      ghost var depth := |Activations().top.stack|;
      ShuffleDown(depth);
      ShuffledChain(old(mem), mem, methods, chain, tos);
      ShuffledFields(old(mem), mem, state, depth);
    }

    // ----- The bytecode interpreter -----

    method PutSlots(addr: int, values: seq<int>)
      modifies this`mem
      ensures Slots(mem, addr, |values|) == values
      ensures forall a :: a > addr || a <= addr - WORD * |values| ==> Get(mem, a) == Get(old(mem), a)
    {
      hide Get;
      for i := 0 to |values|
        invariant forall j :: 0 <= j < i ==> Slots(mem, addr, i)[j] == values[j]
        invariant forall a :: a > addr || a <= addr - WORD * i ==> Get(mem, a) == Get(old(mem), a)
      {
        ghost var before := mem;
        Put(addr - WORD * i, values[i]);
        SlotsSame(before, mem, addr, i);
        SlotsPrefix(mem, addr, i + 1, i);
      }
    }

    method PutMonitors(monitors: seq<Monitor>)
      modifies this`mem
      ensures MonitorsAt(mem, state, |monitors|) == monitors
      ensures forall a :: a >= state || a < state - MONITOR_SIZE * |monitors| ==> Get(mem, a) == Get(old(mem), a)
    {
      hide Get;
      for i := 0 to |monitors|
        invariant forall j :: 0 <= j < i ==> MonitorsAt(mem, state, i)[j] == monitors[j]
        invariant forall a :: a >= state || a < state - MONITOR_SIZE * i ==> Get(mem, a) == Get(old(mem), a)
      {
        ghost var before := mem;
        Put(state - 16 * i - 16, monitors[i].lock);
        Put(state - 16 * i - 8, monitors[i].obj);
        assert forall j :: 0 <= j < i ==> MonitorsAt(mem, state, i + 1)[j] == MonitorsAt(before, state, i)[j];
      }
    }

    /**
     One run of the bytecode interpreter on the current state, as far as the frame manager can
     tell: new values for its locals, operand stack and monitors, and a message.
     */
    method Interpret(locals: seq<int>, stack: seq<int>, monitors: seq<Monitor>, msg: int, callee: int, entry: int)
      requires Valid() && Fits(Activations().top, methods, locals, stack, monitors)
      modifies this`mem
      ensures Valid() && (old(Home()) ==> Home())
      ensures Activations() == Work(old(Activations()), locals, stack, monitors)
      ensures Get(mem, state + STACK) == Get(old(mem), state + STACK_BASE) - WORD - WORD * |stack|
      ensures Get(mem, state + CALLEE) == callee && Get(mem, state + CALLEE_ENTRY) == entry && Get(mem, state + MSG) == msg
    {
      hide Get, FrameOk, LinkOk, ActivationAt, Worked;
      ghost var tos := Get(mem, state + STACK);
      FrameFacts(mem, methods, state, tos);
      WorkFits(mem, methods, state, tos, locals, stack, monitors);
      WriteActivation(locals, stack, monitors, msg, callee, entry);
      WorkedChain(old(mem), mem, methods, chain, tos, locals, stack, monitors);
      WorkedFields(old(mem), mem, state, locals, stack, monitors);
      FrameFacts(mem, methods, state, Get(mem, state + STACK));
    }

    method PutRequest(top: int, msg: int, callee: int, entry: int)
      modifies this`mem
      ensures Get(mem, state + STACK) == top && Get(mem, state + MSG) == msg
      ensures Get(mem, state + CALLEE) == callee && Get(mem, state + CALLEE_ENTRY) == entry
      ensures forall a :: !(state + STACK <= a <= state + CALLEE_ENTRY) ==> Get(mem, a) == Get(old(mem), a)
    {
      hide Get;
      Put(state + STACK, top);
      Put(state + MSG, msg);
      Put(state + CALLEE, callee);
      Put(state + CALLEE_ENTRY, entry);
    }

    method WriteActivation(locals: seq<int>, stack: seq<int>, monitors: seq<Monitor>, msg: int, callee: int, entry: int)
      requires Get(mem, state + LOCALS) - WORD * |locals| >= state + STATE_SIZE
      requires Get(mem, state + STACK_BASE) == state - MONITOR_SIZE * |monitors|
      modifies this`mem
      ensures Worked(old(mem), mem, state, locals, stack, monitors)
      ensures Get(mem, state + CALLEE) == callee && Get(mem, state + CALLEE_ENTRY) == entry && Get(mem, state + MSG) == msg
    {
      hide Get, Slots, MonitorsAt, LiveTopSize;
      var base, first := Get(mem, state + STACK_BASE), Get(mem, state + LOCALS);
      PutSlots(first, locals);
      ghost var m1 := mem;
      PutSlots(base - WORD, stack);
      ghost var m2 := mem;
      SlotsSame(m1, m2, first, |locals|);
      PutMonitors(monitors);
      ghost var m3 := mem;
      SlotsSame(m2, m3, first, |locals|);
      SlotsSame(m2, m3, base - WORD, |stack|);
      PutRequest(base - WORD - WORD * |stack|, msg, callee, entry);
      SlotsSame(m3, mem, first, |locals|);
      SlotsSame(m3, mem, base - WORD, |stack|);
      MonitorsSame(m3, mem, state, |monitors|);
    }

    // ----- Coming from and going back to other code -----

    /** Gives up the part of the caller's frame that was added for the call. */
    method ResizeToInitialCaller()
      modifies this`mem, this`sp
      ensures sp == Get(old(mem), old(sp) + INITIAL_CALLER_SP)
      ensures Get(mem, sp) == Get(old(mem), old(sp)) && Apart(old(mem), mem, sp)
    {
      var caller, back := Get(mem, sp + INITIAL_CALLER_SP), Get(mem, sp);
      Put(caller, back);
      sp := caller;
    }

    /**
     Entry from a call stub or from compiled code, with the arguments above tos. If there is no
     room for the frame, the stack pointer and return address are the caller's again.
     */
    method Enter(id: int, tos: int, lr: int, sender: int) returns (overflow: bool, returnPc: int)
      requires chain.Outside? && limit > 0 && methods(id).Wf() && !methods(id).native
      requires sp % ALIGNMENT == 0 && tos % WORD == 0 && sp + FRAME_MANAGER_LR <= tos
      modifies this
      ensures overflow ==> sp == sender && returnPc == lr && Get(mem, sp) == Get(old(mem), old(sp)) && chain == old(chain)
      ensures overflow ==> forall a :: a > tos && a != sp ==> Get(mem, a) == Get(old(mem), a)
      ensures !overflow ==> chain == Frame(state, Outside(lr, sender, Get(old(mem), old(sp)), old(mem))) && Valid() && Home()
      ensures !overflow ==> Get(mem, state + MSG) == METHOD_ENTRY
      ensures !overflow ==>
                var m := methods(id);
                Activations() ==
                Active(Activation(id, Slots(old(mem), tos + WORD * m.params, m.params) + Repeat(0, m.ExtraLocals()), [],
                                  FirstMonitors(mem, state, m)), Entry)
    {
      hide Get, FrameOk, ActivationAt, AlignUp, CallLayout, FirstMonitors, Slots, Repeat, LinkOk, Computed;
      Put(sp + INITIAL_CALLER_SP, sender);
      Put(sp + FRAME_MANAGER_LR, lr);
      ghost var saved := mem;
      prevState := 0;
      overflow := ComputeInterpreterState(id, tos);
      returnPc := 0;
      if overflow {
        returnPc := Get(mem, sp + FRAME_MANAGER_LR);
        ResizeToInitialCaller();
      } else {
        var m := methods(id);
        ParametersKept(old(mem), saved, tos, m.params);
        EnteredChain(saved, mem, methods, Outside(lr, sender, Get(old(mem), old(sp)), old(mem)), old(sp), sp, state, id, tos);
        chain := Frame(state, Outside(lr, sender, Get(old(mem), old(sp)), old(mem)));
      }
    }

    /**
     Return of the first activation, with its result or, on an exception, without. The caller
     gets back its own stack pointer, back chain and return address, and finds everything above
     the arguments as it left it.
     */
    method ReturnToInitialCaller(thrown: bool) returns (lr: int, result: seq<int>)
      requires Valid() && Activations().callers.Entry?
      requires thrown || methods(Activations().top.id).resultSlots <= |Activations().top.stack|
      modifies this
      ensures chain == old(chain).caller && chain.Outside?
      ensures lr == chain.lr && sp == chain.sender && Get(mem, sp) == chain.backChain
      ensures forall a :: a > Get(old(mem), old(state) + LOCALS) && a != sp ==> Get(mem, a) == Get(chain.outer, a)
      ensures var stack := old(Activations()).top.stack;
              var slots := methods(old(Activations()).top.id).resultSlots;
              if thrown then result == [] else result == stack[|stack| - slots..]
    {
      hide Get, FrameOk, ActivationAt, Slots;
      ghost var tos := Get(mem, state + STACK);
      ActivationId(mem, methods, state, tos);
      FrameFacts(mem, methods, state, tos);
      OutsideCaller(mem, methods, chain, tos);
      result := [];
      if !thrown {
        var slots := methods(Get(mem, state + METHOD)).resultSlots;
        ArgumentsOnTop(mem, methods, chain, tos, slots);
        result := Slots(mem, Get(mem, state + STACK) + WORD * slots, slots);
      }
      sp := Get(mem, sp);
      lr := Get(mem, sp + LR);
      ResizeToInitialCaller();
      chain := chain.caller;
    }

    // ----- Message by message -----

    /** Entry points other than its own lead to native or compiled code. */
    function EntryOf(r: Request): int { if r.ToCallOther? then self + 1 else self }

    /** One run of the interpreter and the answer to its request. */
    method Serve(turn: Turn, writes: Memory) returns (o: Outcome)
      requires Valid() && Allowed(Activations(), turn, methods)
      modifies this
      ensures Valid() && (old(Home()) ==> Home()) && Adjacent(old(chain), chain)
      ensures Activations() == After(old(Activations()), turn, methods, o)
      ensures o.Overflowed? <==>
                && turn.request.ToCall?
                && var tos := old(Get(mem, state + STACK_BASE)) - WORD - WORD * |turn.stack|;
                   CallLayout(old(sp), tos, methods(turn.request.id)).sp < limit
    {
      hide Abs, ChainOk, Get, CallLayout, LayoutAt;
      o := Done(0);
      var r := turn.request;
      var callee := if r.ToCall? || r.ToCallOther? then r.id else 0;
      Interpret(turn.locals, turn.stack, turn.monitors, Message(r), callee, EntryOf(r));
      var msg := Get(mem, state + MSG);
      if msg == CALL_METHOD {
        o := CallMethod(if r.ToCallOther? then r.ending else Pending, writes);
      } else if msg == RETURN_FROM_METHOD {
        ReturnFromMethod();
      } else if msg == MORE_MONITORS {
        o := Done(Get(mem, Get(mem, state + STACK_BASE)));
        MoreMonitors();
      } else if msg == POPPING_FRAME {
        PoppingFrame();
      } else {
        ThrowingException();
      }
    }

    /**
     The loop of the frame manager, for any behaviour of the interpreter that its methods allow
     and any use that other code makes of free memory. What the activations become is what the
     requests mean, given how each of them went. Activations that are never left keep their states.
     */
    method Execute(script: Script, n: nat, writes: nat -> Memory, ghost floor: nat) returns (history: seq<Outcome>)
      requires Valid() && AllAllowed(Activations(), script, methods, [], n)
      modifies this
      ensures Valid() && (old(Home()) ==> Home()) && |history| == n
      ensures Activations() == AfterAll(old(Activations()), script, methods, history)
      ensures AllowedAlong(old(Activations()), script, methods, history)
      ensures Above(old(Activations()), script, methods, history, floor) ==>
                && floor <= Length(old(chain)) && floor <= Length(chain)
                && Outermost(chain, floor) == Outermost(old(chain), floor)
    {
      hide AllAllowed, AfterAll, Abs, ChainOk, Get, Above, Outermost, Adjacent, AllowedAlong;
      history := [];
      AfterNone(old(Activations()), script, methods);
      ChainLength(mem, methods, chain, Get(mem, state + STACK));
      AboveNow(old(Activations()), script, methods, history, floor);
      for k := 0 to n
        invariant Valid() && (old(Home()) ==> Home()) && |history| == k
        invariant AllAllowed(Activations(), script, methods, history, n - k)
        invariant Activations() == AfterAll(old(Activations()), script, methods, history)
        invariant Above(old(Activations()), script, methods, history, floor) ==>
                    && floor <= Length(old(chain)) && floor <= Length(chain)
                    && Outermost(chain, floor) == Outermost(old(chain), floor)
      {
        ghost var before, was := Activations(), chain;
        NowAllowed(before, script, methods, history, n - k);
        var o := Serve(script(history), writes(k));
        AfterOneMore(old(Activations()), script, methods, history, o);
        ThenAllowed(before, script, methods, history, n - k, o);
        ChainLength(mem, methods, chain, Get(mem, state + STACK));
        AboveNow(old(Activations()), script, methods, history + [o], floor);
        AboveBefore(old(Activations()), script, methods, history, o, floor);
        StillOutermost(was, chain, floor);
        history := history + [o];
      }
      AllowedThroughout(old(Activations()), script, methods, history);
    }

    /**
     What memory holds after a completed call, whatever nests inside it: the caller's state is the
     current one again, with the argument slots replaced by what the callee hands over, and the
     links lead through the same states as before.
     */
    method CompleteCall(script: Script, n: nat, writes: nat -> Memory) returns (history: seq<Outcome>)
      requires Valid() && AllAllowed(Activations(), script, methods, [], n)
      requires n >= 2 && script([]).request.ToCall?
      modifies this
      ensures Valid() && |history| == n
      ensures var s, first, last := old(Activations()), script([]), script(history[..n - 1]);
              StaysAbove(s, script, methods, history) && Depth(AfterAll(s, script, methods, history)) == Depth(s) ==>
                var id := first.request.id;
                && state == old(state) && prevState == old(prevState) && chain == old(chain)
                && methods(id).params <= |first.stack|
                && (last.request.ToReturn? ==> methods(id).resultSlots <= |last.stack|)
                && (last.request.ToPop? ==> methods(id).params <= |last.locals|)
                && Holds(mem, state,
                         Activation(s.top.id, first.locals,
                                    first.stack[..|first.stack| - methods(id).params] + Handed(id, last, methods),
                                    first.monitors))
                && Activations().callers == s.callers
                && Walk(mem, state, Depth(s)) == States(old(chain)) && WalkEnd(mem, state, Depth(s)) == 0
    {
      hide AllAllowed, AfterAll, Abs, ChainOk, Get, Above, Outermost, Adjacent, AllowedAlong, StaysAbove, Handed, Holds;
      ghost var s := Activations();
      ChainLength(mem, methods, chain, Get(mem, state + STACK));
      history := Execute(script, n, writes, Length(chain));
      if StaysAbove(s, script, methods, history) && Depth(AfterAll(s, script, methods, history)) == Depth(s) {
        CompletedCall(s, script, methods, history);
        StaysAtLeast(s, script, methods, history);
        ChainLength(mem, methods, chain, Get(mem, state + STACK));
        AllOutermost(chain);
        AllOutermost(old(chain));
        HoldsTop(mem, methods, chain, Get(mem, state + STACK));
        LinksMirrorCalls(mem, methods, chain, Get(mem, state + STACK));
      }
    }
  }

  // ----- Whole runs -----

  /** At least this deep from the first turn to the last. */
  ghost predicate Above(s: Stack, script: Script, methods: int -> Method, history: seq<Outcome>, floor: nat) {
    forall k :: 0 <= k <= |history| ==> Depth(AfterAll(s, script, methods, history[..k])) >= floor
  }

  lemma AboveNow(s: Stack, script: Script, methods: int -> Method, history: seq<Outcome>, floor: nat)
    ensures Above(s, script, methods, history, floor) ==> Depth(AfterAll(s, script, methods, history)) >= floor
  {
    hide AfterAll;
    assert history[..|history|] == history;
  }

  lemma AboveBefore(s: Stack, script: Script, methods: int -> Method, history: seq<Outcome>, o: Outcome, floor: nat)
    ensures Above(s, script, methods, history + [o], floor) ==> Above(s, script, methods, history, floor)
  {
    hide AfterAll;
    assert forall k :: 0 <= k <= |history| ==> (history + [o])[..k] == history[..k];
  }

  lemma StillOutermost(c: Chain, c': Chain, floor: nat)
    requires Adjacent(c, c')
    ensures floor <= Length(c) && floor <= Length(c') ==> Outermost(c', floor) == Outermost(c, floor)
  {
    if floor <= Length(c) && floor <= Length(c') {
      AdjacentOutermost(c, c', floor);
    }
  }

  lemma AllOutermost(c: Chain)
    ensures Outermost(c, Length(c)) == c
  {
  }

  lemma StaysAtLeast(s: Stack, script: Script, methods: int -> Method, history: seq<Outcome>)
    requires StaysAbove(s, script, methods, history) && Depth(AfterAll(s, script, methods, history)) == Depth(s)
    ensures Above(s, script, methods, history, Depth(s))
  {
    hide AfterAll;
    AfterNone(s, script, methods);
    assert history[..0] == [] && history[..|history|] == history;
  }

  /** The cells of a state's frame hold an activation. */
  ghost predicate Holds(mem: Memory, st: int, t: Activation) {
    var base := Get(mem, st + STACK_BASE);
    && Get(mem, st + METHOD) == t.id
    && Slots(mem, Get(mem, st + LOCALS), |t.locals|) == t.locals
    && Slots(mem, base - WORD, |t.stack|) == t.stack && Get(mem, st + STACK) == base - WORD - WORD * |t.stack|
    && MonitorsAt(mem, st, |t.monitors|) == t.monitors && base == st - MONITOR_SIZE * |t.monitors|
  }

  lemma HoldsTop(mem: Memory, methods: int -> Method, chain: Chain, e: int)
    requires chain.Frame? && ChainOk(mem, methods, chain, e) && e == Get(mem, chain.state + STACK)
    ensures Holds(mem, chain.state, Abs(mem, methods, chain, e).top)
  {
    hide Get, Slots, MonitorsAt, LinkOk, Live;
    WholeSlots(Get(mem, chain.state + STACK_BASE), e);
    WholeMonitors(chain.state, Get(mem, chain.state + STACK_BASE));
  }

  /** As before above e, apart from the stack top and the message in the state. */
  ghost predicate KeptAbove(mem: Memory, mem': Memory, st: int, e: int) {
    forall a :: a > e && a != st + STACK && a != st + MSG ==> Get(mem', a) == Get(mem, a)
  }

  /**
   The caller's cells after a call of other code. With a result, the argument slots have become the
   result slots, the value in the lowest; with a pending exception they are gone; if it was rethrown
   they are still there. All slots above are as before.
   */
  ghost predicate CameBack(mem: Memory, mem': Memory, st: int, m: Method, ending: Ending) {
    var tos, tos' := Get(mem, st + STACK), Get(mem', st + STACK);
    && Get(mem', st + MSG) == METHOD_RESUME
    && KeptAbove(mem, mem', st, if ending.Rethrown? then tos else tos + WORD * m.params)
    && match ending
       case Returned(value) =>
         && tos' == tos + WORD * m.params - WORD * m.resultSlots
         && (m.resultSlots > 0 ==> Get(mem', tos' + WORD) == value)
         && (m.resultSlots == 2 ==> Get(mem', tos' + 2 * WORD) == 0)
       case Pending => tos' == tos + WORD * m.params
       case Rethrown => tos' == tos
  }

  lemma CameBackNow(mem: Memory, pushed: Memory, mem': Memory, st: int, m: Method, ending: Ending, newTos: int)
    requires m.resultSlots <= 2 && Get(mem, st + STACK) + (if ending.Rethrown? then 0 else WORD * m.params) < st
    requires KeptAbove(pushed, mem', st, newTos) && Get(mem', st + STACK) == newTos && Get(mem', st + MSG) == METHOD_RESUME
    requires SameAbove(mem, pushed, Get(mem, st + STACK) + if ending.Rethrown? then 0 else WORD * m.params)
    requires match ending
             case Returned(value) =>
               && newTos == Get(mem, st + STACK) + WORD * m.params - WORD * m.resultSlots
               && (m.resultSlots > 0 ==> Get(pushed, newTos + WORD) == value)
               && (m.resultSlots == 2 ==> Get(pushed, newTos + 2 * WORD) == 0)
             case Pending => newTos == Get(mem, st + STACK) + WORD * m.params
             case Rethrown => newTos == Get(mem, st + STACK)
    ensures CameBack(mem, mem', st, m, ending)
  {
    hide Get;
  }

  lemma CameBackAfter(mem: Memory, ran: Memory, mem': Memory, st: int, m: Method, ending: Ending)
    requires CameBack(ran, mem', st, m, ending) && SameAbove(mem, ran, Get(mem, st + STACK)) && Get(mem, st + STACK) < st
    ensures CameBack(mem, mem', st, m, ending)
  {
    hide Get;
  }

  /** The object whose monitor a synchronized method takes; for a Java method the interpreter fills it in. */
  function Lockee(mem: Memory, m: Method, locals: int): int {
    if !m.native then 0 else if m.isStatic then m.mirror else Get(mem, locals)
  }

  /** A native method takes the monitor of its class if it is static and of its first argument if not. */
  predicate IsLockee(mem: Memory, m: Method, locals: int, obj: int) {
    && (!m.native ==> obj == 0)
    && (m.native && m.isStatic ==> obj == m.mirror)
    && (m.native && !m.isStatic ==> obj == Get(mem, locals))
  }

  /** What a successful call has done to memory. */
  ghost predicate Computed(mem: Memory, mem': Memory, sp: int, sp': int, state: int, prevState: int, id: int, m: Method, tos: int)
    requires m.Wf()
  {
    var l := CallLayout(sp, tos, m);
    && sp' == l.sp && state == l.state
    && Get(mem', l.fp) == Get(mem, sp) && Get(mem', l.fp + LR) == Get(mem, sp + FRAME_MANAGER_LR)
    && Get(mem', l.fp + INITIAL_CALLER_SP) == Get(mem, sp + INITIAL_CALLER_SP)
    && Get(mem', l.sp) == l.fp
    && Get(mem', state + PREV_LINK) == prevState && Get(mem', state + METHOD) == id
    && Get(mem', state + LOCALS) == l.locals
    && Get(mem', state + LAST_JAVA_SP) == l.sp && Get(mem', state + LAST_JAVA_FP) == l.fp
    && Get(mem', state + STACK_BASE) == l.stackBase && Get(mem', state + STACK) == l.tos
    && Get(mem', state + STACK_LIMIT) == l.stackLimit && Get(mem', state + MONITOR_BASE) == state
    && (m.synchronized ==> IsLockee(mem, m, l.locals, Get(mem', state - WORD)))
    && (!m.native ==> Slots(mem', tos, m.ExtraLocals()) == Repeat(0, m.ExtraLocals()))
    && SameAbove(mem, mem', tos)
  }

  lemma StackBaseAligned(fp: int, m: Method)
    requires fp % ALIGNMENT == 0
    ensures var base := fp - STATE_SIZE - MONITOR_SIZE * m.Monitors();
            base % WORD == 0 && (base - WORD) % WORD == 0 && (fp - STATE_SIZE - base) % MONITOR_SIZE == 0
            && (fp - STATE_SIZE - base) / MONITOR_SIZE == m.Monitors()
  {
  }

  lemma LocalsAligned(tos: int, params: nat)
    requires tos % WORD == 0
    ensures (tos + WORD * params) % WORD == 0
  {
  }

  lemma ComputedFrameOk(mem: Memory, mem': Memory, methods: int -> Method, sp: int, sp': int, state: int, prevState: int, id: int, tos: int)
    requires methods(id).Wf() && !methods(id).native && sp % ALIGNMENT == 0 && tos % WORD == 0
    requires Computed(mem, mem', sp, sp', state, prevState, id, methods(id), tos)
    ensures FrameOk(mem', methods, state, Get(mem', state + STACK))
  {
    hide Get, AlignUp, CallLayout, Slots, MonitorsAt, Repeat;
    var m := methods(id);
    LayoutFacts(sp, tos, m);
    LayoutAligned(sp, tos, m);
    StackBaseAligned(state + STATE_SIZE, m);
    LocalsAligned(tos, m.params);
  }

  lemma ComputedFrame(mem: Memory, mem': Memory, methods: int -> Method, sp: int, sp': int, state: int, prevState: int, id: int, tos: int)
    requires methods(id).Wf() && !methods(id).native && sp % ALIGNMENT == 0 && tos % WORD == 0
    requires Computed(mem, mem', sp, sp', state, prevState, id, methods(id), tos)
    ensures var m := methods(id);
            && FrameOk(mem', methods, state, Get(mem', state + STACK))
            && ActivationAt(mem', methods, state, Get(mem', state + STACK)) ==
               Activation(id, Slots(mem, tos + WORD * m.params, m.params) + Repeat(0, m.ExtraLocals()), [],
                          FirstMonitors(mem', state, m))
  {
    hide Get, AlignUp, CallLayout, Slots, MonitorsAt, Repeat, FrameOk, FirstMonitors;
    var m := methods(id);
    LayoutFacts(sp, tos, m);
    LayoutAligned(sp, tos, m);
    StackBaseAligned(state + STATE_SIZE, m);
    ComputedFrameOk(mem, mem', methods, sp, sp', state, prevState, id, tos);
    var locals := tos + WORD * m.params;
    SlotsJoin(mem', locals, m.params, m.ExtraLocals());
    ParametersKept(mem, mem', tos, m.params);
    assert locals - WORD * m.params == tos;
    NoSlots(mem', Get(mem', state + STACK_BASE) - WORD);
    FirstMonitorsAre(mem', state, m);
  }

  lemma ParametersKept(mem: Memory, mem': Memory, tos: int, n: nat)
    requires SameAbove(mem, mem', tos)
    ensures Slots(mem', tos + WORD * n, n) == Slots(mem, tos + WORD * n, n)
  {
    hide Get;
  }

  lemma NoSlots(mem: Memory, a: int)
    ensures Slots(mem, a, 0) == []
  {
  }

  /** The monitor of a synchronized method, not yet owned by any object. */
  function FirstMonitors(mem: Memory, state: int, m: Method): seq<Monitor> {
    if m.synchronized then [Monitor(Get(mem, state - MONITOR_SIZE), 0)] else []
  }

  lemma FirstMonitorsAre(mem: Memory, state: int, m: Method)
    requires m.synchronized ==> Get(mem, state - WORD) == 0
    ensures MonitorsAt(mem, state, m.Monitors()) == FirstMonitors(mem, state, m)
  {
    hide Get;
  }

  lemma FrameBelow(mem: Memory, methods: int -> Method, chain: Chain, e: int)
    requires chain.Frame? && ChainOk(mem, methods, chain, e)
    ensures Get(mem, chain.state + LAST_JAVA_SP) <= e
  {
    hide Get, FrameOk, LinkOk, ActivationAt;
    FrameFacts(mem, methods, chain.state, e);
  }

  lemma PrevLinkIs(mem: Memory, methods: int -> Method, chain: Chain, e: int)
    requires chain.Frame? && ChainOk(mem, methods, chain, e)
    ensures Get(mem, chain.state + PREV_LINK) == StateOf(chain.caller)
  {
  }

  /** A call adds one activation to the chain and takes its arguments from the one before. */
  lemma CalledChain(mem: Memory, mem': Memory, methods: int -> Method, chain: Chain, sp: int, sp': int, state: int, id: int, tos: int)
    requires chain.Frame? && ChainOk(mem, methods, chain, tos) && tos == Get(mem, chain.state + STACK)
    requires methods(id).Wf() && !methods(id).native && sp % ALIGNMENT == 0 && tos % WORD == 0
    requires Computed(mem, mem', sp, sp', state, chain.state, id, methods(id), tos) && state > 0
    requires methods(id).params <= |Abs(mem, methods, chain, tos).top.stack|
    ensures ChainOk(mem', methods, Frame(state, chain), Get(mem', state + STACK))
    ensures Abs(mem', methods, Frame(state, chain), Get(mem', state + STACK)) ==
            Call(Abs(mem, methods, chain, tos), id, methods(id), FirstMonitors(mem', state, methods(id)))
    ensures sp' == Get(mem', state + LAST_JAVA_SP) && Get(mem', sp') == state + STATE_SIZE
    ensures LayoutAt(mem', state) == CallLayout(sp, tos, methods(id))
  {
    hide Get, AlignUp, CallLayout, FrameOk, ActivationAt, FirstMonitors, Slots, Repeat;
    var m := methods(id);
    var locals := tos + WORD * m.params;
    LayoutFacts(sp, tos, m);
    ComputedFrame(mem, mem', methods, sp, sp', state, chain.state, id, tos);
    FrameFacts(mem, methods, chain.state, tos);
    PopSlots(mem, methods, chain, tos, m.params);
    ChainSame(mem, mem', methods, chain, locals);
    ArgumentsOnTop(mem, methods, chain, tos, m.params);
  }

  lemma TopSlots(mem: Memory, methods: int -> Method, st: int, e: int, n: nat)
    requires FrameOk(mem, methods, st, e) && n <= |ActivationAt(mem, methods, st, e).stack|
    ensures var stack := ActivationAt(mem, methods, st, e).stack;
            Slots(mem, e + WORD * n, n) == stack[|stack| - n..]
  {
    hide Get, Slots, MonitorsAt, LiveTopSize;
    var base := Get(mem, st + STACK_BASE);
    BaseFacts(mem, methods, st, e);
    var depth := |ActivationAt(mem, methods, st, e).stack|;
    hide FrameOk;
    SlotsSuffix(mem, base - WORD, depth, depth - n);
  }

  lemma ArgumentsOnTop(mem: Memory, methods: int -> Method, chain: Chain, e: int, n: nat)
    requires chain.Frame? && ChainOk(mem, methods, chain, e) && n <= |Abs(mem, methods, chain, e).top.stack|
    ensures var stack := Abs(mem, methods, chain, e).top.stack;
            Slots(mem, e + WORD * n, n) == stack[|stack| - n..]
  {
    hide Get, Slots, FrameOk, ActivationAt, LinkOk;
    TopSlots(mem, methods, chain.state, e, n);
  }

  lemma CallerChain(mem: Memory, methods: int -> Method, chain: Chain, e: int)
    requires chain.Frame? && ChainOk(mem, methods, chain, e) && Abs(mem, methods, chain, e).callers.Active?
    ensures chain.caller.Frame?
    ensures var locals := Get(mem, chain.state + LOCALS);
            && ChainOk(mem, methods, chain.caller, locals)
            && Abs(mem, methods, chain, e).callers == Abs(mem, methods, chain.caller, locals)
            && Abs(mem, methods, chain.caller, locals).top.id == Get(mem, chain.caller.state + METHOD)
            && Get(mem, chain.caller.state + PREV_LINK) == StateOf(chain.caller.caller)
            && locals < chain.caller.state
  {
    hide Get, Slots, MonitorsAt, LiveTopSize;
  }

  lemma OutsideCaller(mem: Memory, methods: int -> Method, chain: Chain, e: int)
    requires chain.Frame? && ChainOk(mem, methods, chain, e) && Abs(mem, methods, chain, e).callers.Entry?
    ensures chain.caller.Outside? && LinkOk(mem, methods, chain.state, chain.caller)
  {
    hide Get, FrameOk, LinkOk, ActivationAt;
  }

  /** Writing a result below the caller's remaining slots pushes it. */
  lemma ReturnedChain(mem: Memory, mem': Memory, methods: int -> Method, chain: Chain, to: int, slots: nat)
    requires chain.Frame? && ChainOk(mem, methods, chain, to) && SameAbove(mem, mem', to)
    requires |Abs(mem, methods, chain, to).top.stack| + slots <= methods(Get(mem, chain.state + METHOD)).maxStack
    ensures ChainOk(mem', methods, chain, to - WORD * slots)
    ensures var s := Abs(mem, methods, chain, to);
            Abs(mem', methods, chain, to - WORD * slots) == s.(top := s.top.(stack := s.top.stack + Slots(mem', to, slots)))
  {
    hide Get, FrameOk, LinkOk, ActivationAt, Slots;
    FrameFacts(mem, methods, chain.state, to);
    ChainSame(mem, mem', methods, chain, to);
    PushSlots(mem', methods, chain, to, slots);
  }

  /** A callee's arguments were on its caller's stack, so there is room to put them back. */
  lemma RoomForArguments(mem: Memory, methods: int -> Method, st: int, c: Chain)
    requires c.Frame? && FrameOk(mem, methods, c.state, Get(mem, st + LOCALS)) && LinkOk(mem, methods, st, c)
    ensures |ActivationAt(mem, methods, c.state, Get(mem, st + LOCALS)).stack| + methods(Get(mem, st + METHOD)).params
            <= methods(Get(mem, c.state + METHOD)).maxStack
  {
    hide Get, Slots, MonitorsAt, LiveTopSize;
    WholeSlots(Get(mem, c.state + STACK_BASE), Get(mem, st + LOCALS));
  }

  /** Taking the arguments back onto the caller's stack, as the callee has left them. */
  lemma PoppedChain(mem: Memory, methods: int -> Method, chain: Chain, e: int)
    requires chain.Frame? && chain.caller.Frame? && ChainOk(mem, methods, chain, e)
    requires Abs(mem, methods, chain, e).callers.Active?
    requires methods(Get(mem, chain.state + METHOD)).params <= |Abs(mem, methods, chain, e).top.locals|
    ensures var newTos := Get(mem, chain.caller.state + STACK);
            && ChainOk(mem, methods, chain.caller, newTos) && e <= newTos
            && Abs(mem, methods, chain.caller, newTos) ==
               PopFrame(Abs(mem, methods, chain, e), methods(Get(mem, chain.state + METHOD)).params)
  {
    hide Get, FrameOk, ActivationAt, Slots;
    var locals, params := Get(mem, chain.state + LOCALS), methods(Get(mem, chain.state + METHOD)).params;
    RoomForArguments(mem, methods, chain.state, chain.caller);
    FrameFacts(mem, methods, chain.state, e);
    PushSlots(mem, methods, chain.caller, locals, params);
    FirstLocals(mem, methods, chain.state, e, params);
  }

  lemma FirstLocals(mem: Memory, methods: int -> Method, st: int, e: int, n: nat)
    requires FrameOk(mem, methods, st, e) && n <= |ActivationAt(mem, methods, st, e).locals|
    ensures Slots(mem, Get(mem, st + LOCALS), n) == ActivationAt(mem, methods, st, e).locals[..n]
  {
    hide Get, Slots, MonitorsAt, LiveTopSize;
    SlotsPrefix(mem, Get(mem, st + LOCALS), methods(Get(mem, st + METHOD)).maxLocals, n);
  }

  lemma BaseFacts(mem: Memory, methods: int -> Method, st: int, e: int)
    requires FrameOk(mem, methods, st, e)
    ensures var base := Get(mem, st + STACK_BASE);
            base <= st && e == base - WORD - WORD * |ActivationAt(mem, methods, st, e).stack|
  {
    hide Get, Slots, MonitorsAt, LiveTopSize;
    WholeSlots(Get(mem, st + STACK_BASE), e);
  }

  /** The fields of a state that change when a monitor is added. */
  predicate IsLowered(st: int, a: int) {
    st + STACK <= a <= st + CALLEE_ENTRY || a == st + STACK_BASE || a == st + STACK_LIMIT || a == st + LAST_JAVA_SP
  }

  /** How memory differs once a monitor has been added to the frame of st. */
  ghost predicate Shuffled(mem: Memory, mem': Memory, st: int, depth: nat) {
    var base := Get(mem, st + STACK_BASE);
    && (forall a :: a >= base && !IsLowered(st, a) ==> Get(mem', a) == Get(mem, a))
    && Get(mem', st + STACK_BASE) == base - MONITOR_SIZE
    && Get(mem', st + STACK) == Get(mem, st + STACK) - MONITOR_SIZE
    && Get(mem', st + STACK_LIMIT) == Get(mem, st + STACK_LIMIT) - MONITOR_SIZE
    && Get(mem', st + LAST_JAVA_SP) == Get(mem, st + LAST_JAVA_SP) - MONITOR_SIZE
    && Get(mem', base - MONITOR_SIZE) == Get(mem, base) && Get(mem', base - WORD) == 0
    && Slots(mem', base - MONITOR_SIZE - WORD, depth) == Slots(mem, base - WORD, depth)
  }

  lemma CopiedSlots(mem: Memory, mem': Memory, base: int, depth: nat)
    requires Slots(mem', base - MONITOR_SIZE, depth + 1) == Slots(mem, base, depth + 1)
    ensures Get(mem', base - MONITOR_SIZE) == Get(mem, base)
    ensures Slots(mem', base - MONITOR_SIZE - WORD, depth) == Slots(mem, base - WORD, depth)
  {
    hide Get;
    assert Slots(mem', base - MONITOR_SIZE, depth + 1)[0] == Slots(mem, base, depth + 1)[0];
    SlotsSuffix(mem', base - MONITOR_SIZE, depth + 1, 1);
    SlotsSuffix(mem, base, depth + 1, 1);
  }

  lemma ShuffledFields(mem: Memory, mem': Memory, st: int, depth: nat)
    requires Shuffled(mem, mem', st, depth)
    ensures Get(mem', st + STACK) == Get(mem, st + STACK) - MONITOR_SIZE
    ensures Get(mem', st + LAST_JAVA_SP) == Get(mem, st + LAST_JAVA_SP) - MONITOR_SIZE
    ensures Get(mem, st + STACK_BASE) <= st ==> LayoutAt(mem', st) == AddMonitor(LayoutAt(mem, st))
  {
    hide Get;
  }

  lemma ShuffledMonitors(mem: Memory, mem': Memory, st: int, n: nat, depth: nat)
    requires Shuffled(mem, mem', st, depth) && Get(mem, st + STACK_BASE) == st - MONITOR_SIZE * n
    ensures MonitorsAt(mem', st, n + 1) == MonitorsAt(mem, st, n) + [Monitor(Get(mem, st - MONITOR_SIZE * n), 0)]
  {
    hide Get, Slots;
  }

  lemma ShuffledOk(mem: Memory, mem': Memory, methods: int -> Method, st: int, e: int, depth: nat)
    requires FrameOk(mem, methods, st, e) && Shuffled(mem, mem', st, depth)
    ensures FrameOk(mem', methods, st, e - MONITOR_SIZE)
    ensures Get(mem', st + METHOD) == Get(mem, st + METHOD) && Get(mem', st + LOCALS) == Get(mem, st + LOCALS)
    ensures Slots(mem', Get(mem, st + LOCALS), methods(Get(mem, st + METHOD)).maxLocals)
            == Slots(mem, Get(mem, st + LOCALS), methods(Get(mem, st + METHOD)).maxLocals)
  {
    hide Get, Slots, MonitorsAt, LiveTopSize;
    SlotsSame(mem, mem', Get(mem, st + LOCALS), methods(Get(mem, st + METHOD)).maxLocals);
    var base := Get(mem, st + STACK_BASE);
    LoweredAligned(st, base, e);
    ShuffledFields(mem, mem', st, depth);
    AddMonitorsLive(LayoutAt(mem, st), methods(Get(mem, st + METHOD)).maxStack, (st - base) / MONITOR_SIZE, 1);
  }

  lemma LoweredAligned(st: int, base: int, e: int)
    requires (st - base) % MONITOR_SIZE == 0 && base % WORD == 0 && e % WORD == 0
    ensures (st - (base - MONITOR_SIZE)) % MONITOR_SIZE == 0 && (base - MONITOR_SIZE) % WORD == 0
    ensures (st - (base - MONITOR_SIZE)) / MONITOR_SIZE == (st - base) / MONITOR_SIZE + 1 && (e - MONITOR_SIZE) % WORD == 0
  {
  }

  lemma ShuffledFrame(mem: Memory, mem': Memory, methods: int -> Method, st: int, e: int)
    requires FrameOk(mem, methods, st, e) && Shuffled(mem, mem', st, |ActivationAt(mem, methods, st, e).stack|)
    ensures FrameOk(mem', methods, st, e - MONITOR_SIZE)
    ensures var t := ActivationAt(mem, methods, st, e);
            ActivationAt(mem', methods, st, e - MONITOR_SIZE) ==
            t.(monitors := t.monitors + [Monitor(Get(mem, Get(mem, st + STACK_BASE)), 0)])
  {
    var base := Get(mem, st + STACK_BASE);
    var n := (st - base) / MONITOR_SIZE;
    var depth := (base - WORD - e) / WORD;
    ShuffledOk(mem, mem', methods, st, e, depth);
    assert base == st - MONITOR_SIZE * n;
    hide Get, Slots, MonitorsAt, FrameOk;
    ShuffledMonitors(mem, mem', st, n, depth);
    assert (st - (base - MONITOR_SIZE)) / MONITOR_SIZE == n + 1;
  }

  lemma ShuffledChain(mem: Memory, mem': Memory, methods: int -> Method, chain: Chain, e: int)
    requires chain.Frame? && ChainOk(mem, methods, chain, e)
    requires Shuffled(mem, mem', chain.state, |Abs(mem, methods, chain, e).top.stack|)
    ensures ChainOk(mem', methods, chain, e - MONITOR_SIZE)
    ensures Abs(mem', methods, chain, e - MONITOR_SIZE) ==
            GrowMonitors(Abs(mem, methods, chain, e), Get(mem, Get(mem, chain.state + STACK_BASE)))
  {
    hide Get, FrameOk, ActivationAt, Slots, LinkOk;
    ShuffledFrame(mem, mem', methods, chain.state, e);
    FrameFacts(mem, methods, chain.state, e);
    BaseFacts(mem, methods, chain.state, e);
    var locals := Get(mem, chain.state + LOCALS);
    assert SameAbove(mem, mem', chain.state + STATE_SIZE - WORD);
    ChainSame(mem, mem', methods, chain.caller, locals);
    LinkSame(mem, mem', methods, chain.state, chain.caller, e);
  }

  lemma MonitorsSame(mem: Memory, mem': Memory, st: int, n: nat)
    requires forall b :: st - MONITOR_SIZE * n <= b < st ==> Get(mem', b) == Get(mem, b)
    ensures MonitorsAt(mem', st, n) == MonitorsAt(mem, st, n)
  {
    hide Get;
  }

  /** How memory differs once the interpreter has worked on the state st. */
  ghost predicate Worked(mem: Memory, mem': Memory, st: int, locals: seq<int>, stack: seq<int>, monitors: seq<Monitor>) {
    var base, first := Get(mem, st + STACK_BASE), Get(mem, st + LOCALS);
    && Slots(mem', first, |locals|) == locals && Slots(mem', base - WORD, |stack|) == stack
    && MonitorsAt(mem', st, |monitors|) == monitors
    && Get(mem', st + STACK) == base - WORD - WORD * |stack|
    && (forall a :: a >= st && !(st + STACK <= a <= st + CALLEE_ENTRY) && !(first - WORD * |locals| < a <= first) ==>
          Get(mem', a) == Get(mem, a))
    && (forall a :: a <= base - WORD - WORD * |stack| ==> Get(mem', a) == Get(mem, a))
  }

  lemma WorkedFields(mem: Memory, mem': Memory, st: int, locals: seq<int>, stack: seq<int>, monitors: seq<Monitor>)
    requires Worked(mem, mem', st, locals, stack, monitors)
    requires Get(mem, st + LOCALS) - WORD * |locals| >= st + STATE_SIZE
    ensures Get(mem', st + STACK) == Get(mem, st + STACK_BASE) - WORD - WORD * |stack|
    ensures Get(mem', st + LAST_JAVA_SP) == Get(mem, st + LAST_JAVA_SP)
    ensures forall a :: a <= Get(mem', st + STACK) ==> Get(mem', a) == Get(mem, a)
  {
    hide Get;
  }

  lemma WorkFits(mem: Memory, methods: int -> Method, st: int, e: int, locals: seq<int>, stack: seq<int>, monitors: seq<Monitor>)
    requires FrameOk(mem, methods, st, e) && Fits(ActivationAt(mem, methods, st, e), methods, locals, stack, monitors)
    ensures Get(mem, st + LOCALS) - WORD * |locals| >= st + STATE_SIZE + PARENT_ABI
    ensures Get(mem, st + STACK_BASE) == st - MONITOR_SIZE * |monitors|
    ensures Get(mem, st + LAST_JAVA_SP) <= Get(mem, st + STACK_BASE) - WORD - WORD * |stack|
  {
    hide Get, Slots, MonitorsAt, LiveTopSize;
    FrameFacts(mem, methods, st, e);
    WholeMonitors(st, Get(mem, st + STACK_BASE));
  }

  lemma WorkedFrame(mem: Memory, mem': Memory, methods: int -> Method, st: int, e: int,
                    locals: seq<int>, stack: seq<int>, monitors: seq<Monitor>)
    requires FrameOk(mem, methods, st, e) && Fits(ActivationAt(mem, methods, st, e), methods, locals, stack, monitors)
    requires Worked(mem, mem', st, locals, stack, monitors)
    ensures var e' := Get(mem, st + STACK_BASE) - WORD - WORD * |stack|;
            && FrameOk(mem', methods, st, e')
            && ActivationAt(mem', methods, st, e') == Activation(Get(mem, st + METHOD), locals, stack, monitors)
  {
    hide Get, Slots, MonitorsAt, LiveTopSize;
    WorkFits(mem, methods, st, e, locals, stack, monitors);
    var base := Get(mem, st + STACK_BASE);
    WorkedOk(mem, mem', methods, st, e, locals, stack, monitors);
    hide FrameOk;
    assert (base - WORD - (base - WORD - WORD * |stack|)) / WORD == |stack|;
    assert (st - base) / MONITOR_SIZE == |monitors|;
  }

  lemma SlotAligned(base: int, n: nat)
    requires base % WORD == 0
    ensures (base - WORD - WORD * n) % WORD == 0
  {
  }

  lemma WorkedOk(mem: Memory, mem': Memory, methods: int -> Method, st: int, e: int,
                 locals: seq<int>, stack: seq<int>, monitors: seq<Monitor>)
    requires FrameOk(mem, methods, st, e) && Fits(ActivationAt(mem, methods, st, e), methods, locals, stack, monitors)
    requires Worked(mem, mem', st, locals, stack, monitors)
    ensures FrameOk(mem', methods, st, Get(mem, st + STACK_BASE) - WORD - WORD * |stack|)
    ensures Get(mem', st + METHOD) == Get(mem, st + METHOD) && Get(mem', st + LOCALS) == Get(mem, st + LOCALS)
    ensures Get(mem', st + STACK_BASE) == Get(mem, st + STACK_BASE)
    ensures methods(Get(mem, st + METHOD)).maxLocals == |locals|
  {
    hide Get, Slots, MonitorsAt, LiveTopSize;
    WorkFits(mem, methods, st, e, locals, stack, monitors);
    SlotAligned(Get(mem, st + STACK_BASE), |stack|);
  }

  lemma WorkedChain(mem: Memory, mem': Memory, methods: int -> Method, chain: Chain, e: int,
                    locals: seq<int>, stack: seq<int>, monitors: seq<Monitor>)
    requires chain.Frame? && ChainOk(mem, methods, chain, e)
    requires Fits(Abs(mem, methods, chain, e).top, methods, locals, stack, monitors)
    requires Worked(mem, mem', chain.state, locals, stack, monitors)
    ensures var e' := Get(mem, chain.state + STACK_BASE) - WORD - WORD * |stack|;
            && ChainOk(mem', methods, chain, e')
            && Abs(mem', methods, chain, e') == Work(Abs(mem, methods, chain, e), locals, stack, monitors)
  {
    hide Get, FrameOk, ActivationAt, Slots, MonitorsAt, LinkOk;
    var st := chain.state;
    WorkedFrame(mem, mem', methods, st, e, locals, stack, monitors);
    WorkFits(mem, methods, st, e, locals, stack, monitors);
    FrameFacts(mem, methods, st, e);
    assert (ActivationAt(mem, methods, st, e)).id == Get(mem, st + METHOD) by { ActivationId(mem, methods, st, e); }
    assert Get(mem', st + LOCALS) == Get(mem, st + LOCALS);
    ChainSame(mem, mem', methods, chain.caller, Get(mem, st + LOCALS));
    LinkSame(mem, mem', methods, st, chain.caller, e);
  }

  lemma ActivationId(mem: Memory, methods: int -> Method, st: int, e: int)
    requires FrameOk(mem, methods, st, e)
    ensures ActivationAt(mem, methods, st, e).id == Get(mem, st + METHOD)
  {
  }

  /** The first activation, called from outside. */
  lemma EnteredChain(mem: Memory, mem': Memory, methods: int -> Method, c: Chain, sp: int, sp': int, state: int, id: int, tos: int)
    requires c.Outside? && methods(id).Wf() && !methods(id).native && sp % ALIGNMENT == 0 && tos % WORD == 0
    requires Computed(mem, mem', sp, sp', state, 0, id, methods(id), tos) && state > 0
    requires Get(mem, sp) == c.backChain && Get(mem, sp + FRAME_MANAGER_LR) == c.lr
    requires Get(mem, sp + INITIAL_CALLER_SP) == c.sender && SameAbove(c.outer, mem, tos)
    ensures ChainOk(mem', methods, Frame(state, c), Get(mem', state + STACK))
    ensures Abs(mem', methods, Frame(state, c), Get(mem', state + STACK)) ==
            Active(Activation(id, Slots(mem, tos + WORD * methods(id).params, methods(id).params)
                                  + Repeat(0, methods(id).ExtraLocals()), [],
                              FirstMonitors(mem', state, methods(id))), Entry)
    ensures sp' == Get(mem', state + LAST_JAVA_SP) && Get(mem', sp') == state + STATE_SIZE
  {
    hide Get, AlignUp, CallLayout, FrameOk, ActivationAt, FirstMonitors, Slots, Repeat;
    LayoutFacts(sp, tos, methods(id));
    ComputedFrame(mem, mem', methods, sp, sp', state, 0, id, tos);
  }

  function Message(r: Request): int {
    match r
    case ToCall(_) => CALL_METHOD
    case ToCallOther(_, _) => CALL_METHOD
    case ToReturn => RETURN_FROM_METHOD
    case ToThrow => THROWING_EXCEPTION
    case ToPop => POPPING_FRAME
    case ToGrow => MORE_MONITORS
  }
}
