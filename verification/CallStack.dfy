/**
 Interpreted activations as a call stack, without addresses: what calls, returns, exceptions and
 new monitors mean to the Java program.
 */
module CallStack {
  import opened Common
  import opened FrameLayout

  datatype Monitor = Monitor(lock: int, obj: int)

  /** A running method: its locals, its operand stack (bottom first) and its monitors (oldest first). */
  datatype Activation = Activation(id: int, locals: seq<int>, stack: seq<int>, monitors: seq<Monitor>)

  datatype Stack = Entry | Active(top: Activation, callers: Stack)

  function Depth(s: Stack): nat {
    match s
    case Entry => 0
    case Active(_, c) => 1 + Depth(c)
  }

  /** The arguments leave the caller's stack and become the first locals of the callee. */
  function Call(s: Stack, id: int, m: Method, monitors: seq<Monitor>): Stack
    requires s.Active? && m.Wf() && m.params <= |s.top.stack|
  {
    var kept := |s.top.stack| - m.params;
    Active(Activation(id, s.top.stack[kept..] + Repeat(0, m.ExtraLocals()), [], monitors),
           Active(s.top.(stack := s.top.stack[..kept]), s.callers))
  }

  /** The top slots of the callee's stack, one, two or none, move to the caller's. */
  function Return(s: Stack, slots: nat): Stack
    requires s.Active? && s.callers.Active? && slots <= |s.top.stack|
  {
    var result := s.top.stack[|s.top.stack| - slots..];
    s.callers.(top := s.callers.top.(stack := s.callers.top.stack + result))
  }

  /** An exception leaves the callee without a result. */
  function Throw(s: Stack): Stack
    requires s.Active? && s.callers.Active?
  {
    s.callers
  }

  /** Popped to be called again: the caller has its arguments back, as the callee leaves them. */
  function PopFrame(s: Stack, params: nat): Stack
    requires s.Active? && s.callers.Active? && params <= |s.top.locals|
  {
    s.callers.(top := s.callers.top.(stack := s.callers.top.stack + s.top.locals[..params]))
  }

  /** How a call of native or compiled code ends; it is rethrown past an adapter that pops nothing. */
  datatype Ending = Returned(value: int) | Pending | Rethrown

  /** A result register as operand stack slots: a value of two slots is in the upper one. */
  function ResultSlots(value: int, slots: nat): (r: seq<int>)
    requires slots <= 2
    ensures |r| == slots && (slots > 0 ==> r[slots - 1] == value)
  {
    if slots == 0 then [] else if slots == 1 then [value] else [0, value]
  }

  /** A call that pushes no activation: at once its arguments are gone and its result is there. */
  function CallOther(s: Stack, m: Method, ending: Ending): Stack
    requires s.Active? && m.Wf() && m.params <= |s.top.stack|
  {
    var kept := s.top.stack[..|s.top.stack| - m.params];
    match ending
    case Returned(value) => s.(top := s.top.(stack := kept + ResultSlots(value, m.resultSlots)))
    case Pending => s.(top := s.top.(stack := kept))
    case Rethrown => s
  }

  function GrowMonitors(s: Stack, lock: int): Stack
    requires s.Active?
  {
    s.(top := s.top.(monitors := s.top.monitors + [Monitor(lock, 0)]))
  }

  /** What the bytecode interpreter may do between two messages: change its own activation. */
  function Work(s: Stack, locals: seq<int>, stack: seq<int>, monitors: seq<Monitor>): Stack
    requires s.Active?
  {
    s.(top := s.top.(locals := locals, stack := stack, monitors := monitors))
  }

  // ----- What the requests of the interpreter mean -----

  datatype Request = ToCall(id: int) | ToCallOther(id: int, ending: Ending) | ToReturn | ToThrow | ToPop | ToGrow

  predicate Leaves(r: Request) { r.ToReturn? || r.ToThrow? || r.ToPop? }

  /** What one run of the interpreter leaves behind. */
  datatype Turn = Turn(locals: seq<int>, stack: seq<int>, monitors: seq<Monitor>, request: Request)

  /** How a request went: with the lock word that a new monitor starts with, or without room for the callee. */
  datatype Outcome = Done(lock: int) | Overflowed

  /** The interpreter: what it does next, given how its requests went so far. */
  type Script = seq<Outcome> -> Turn

  /** What the interpreter keeps to: the sizes its method was loaded with. */
  predicate Fits(t: Activation, methods: int -> Method, locals: seq<int>, stack: seq<int>, monitors: seq<Monitor>) {
    |locals| == |t.locals| && |stack| <= methods(t.id).maxStack && |monitors| == |t.monitors|
  }

  /** What class file verification guarantees of the interpreter's next message. */
  predicate Allowed(s: Stack, t: Turn, methods: int -> Method) {
    && s.Active? && Fits(s.top, methods, t.locals, t.stack, t.monitors)
    && match t.request
       case ToCall(id) => methods(id).Wf() && !methods(id).native && methods(id).params <= |t.stack|
       case ToCallOther(id, ending) =>
         && methods(id).Wf() && methods(id).params <= |t.stack|
         && (ending.Returned? ==>
               |t.stack| - methods(id).params + methods(id).resultSlots <= methods(s.top.id).maxStack)
       case ToReturn =>
         && s.callers.Active? && methods(s.top.id).resultSlots <= |t.stack|
         && |s.callers.top.stack| + methods(s.top.id).resultSlots <= methods(s.callers.top.id).maxStack
       case ToThrow => s.callers.Active?
       case ToPop => s.callers.Active? && methods(s.top.id).params <= |t.locals|
       case ToGrow => true
  }

  /** A caller whose call finds no room goes on as it was, arguments included. */
  function After(s: Stack, t: Turn, methods: int -> Method, o: Outcome): Stack {
    if !Allowed(s, t, methods) then s
    else
      var w := Work(s, t.locals, t.stack, t.monitors);
      var lock := if o.Done? then o.lock else 0;
      match t.request
      case ToCall(id) =>
        if o.Overflowed? then w else Call(w, id, methods(id), if methods(id).synchronized then [Monitor(lock, 0)] else [])
      case ToCallOther(id, ending) => CallOther(w, methods(id), ending)
      case ToReturn => Return(w, methods(s.top.id).resultSlots)
      case ToThrow => Throw(w)
      case ToPop => PopFrame(w, methods(s.top.id).params)
      case ToGrow => GrowMonitors(w, lock)
  }

  /** A call in terms of slots: the top slots are the first locals, all other locals are zero. */
  lemma CallMeans(s: Stack, t: Turn, methods: int -> Method, o: Outcome)
    requires Allowed(s, t, methods) && t.request.ToCall?
    ensures var s', m := After(s, t, methods, o), methods(t.request.id);
            var kept := |t.stack| - m.params;
            if o.Overflowed? then s' == Active(Activation(s.top.id, t.locals, t.stack, t.monitors), s.callers)
            else
              && s'.Active? && s'.callers == Active(Activation(s.top.id, t.locals, t.stack[..kept], t.monitors), s.callers)
              && s'.top.id == t.request.id && s'.top.stack == [] && |s'.top.locals| == m.maxLocals
              && (forall i :: 0 <= i < m.params ==> s'.top.locals[i] == t.stack[kept + i])
              && (forall i :: m.params <= i < m.maxLocals ==> s'.top.locals[i] == 0)
              && s'.top.monitors == if m.synchronized then [Monitor(o.lock, 0)] else []
  {
  }

  /** A call of other code: all but the arguments stays, and a result is on top, its value last. */
  lemma OtherCallMeans(s: Stack, t: Turn, methods: int -> Method, o: Outcome)
    requires Allowed(s, t, methods) && t.request.ToCallOther?
    ensures var s', m := After(s, t, methods, o), methods(t.request.id);
            var kept := |t.stack| - m.params;
            && s'.Active? && s'.callers == s.callers
            && s'.top.id == s.top.id && s'.top.locals == t.locals && s'.top.monitors == t.monitors
            && (match t.request.ending
                case Returned(value) =>
                  && |s'.top.stack| == kept + m.resultSlots && s'.top.stack[..kept] == t.stack[..kept]
                  && (m.resultSlots > 0 ==> s'.top.stack[kept + m.resultSlots - 1] == value)
                case Pending => s'.top.stack == t.stack[..kept]
                case Rethrown => s'.top.stack == t.stack)
  {
  }

  /** A new monitor is the youngest, and locks no object. */
  lemma GrowMeans(s: Stack, t: Turn, methods: int -> Method, lock: int)
    requires Allowed(s, t, methods) && t.request.ToGrow?
    ensures After(s, t, methods, Done(lock)) ==
            Active(Activation(s.top.id, t.locals, t.stack, t.monitors + [Monitor(lock, 0)]), s.callers)
  {
  }

  /** The next n turns are allowed, however the requests go. */
  ghost predicate AllAllowed(s: Stack, script: Script, methods: int -> Method, history: seq<Outcome>, n: nat)
    decreases n
  {
    n > 0 ==>
      && Allowed(s, script(history), methods)
      && forall o :: AllAllowed(After(s, script(history), methods, o), script, methods, history + [o], n - 1)
  }

  ghost function AfterAll(s: Stack, script: Script, methods: int -> Method, history: seq<Outcome>): Stack {
    if history == [] then s
    else
      var before := history[..|history| - 1];
      After(AfterAll(s, script, methods, before), script(before), methods, history[|history| - 1])
  }

  lemma AfterNone(s: Stack, script: Script, methods: int -> Method)
    ensures AfterAll(s, script, methods, []) == s
  {
  }

  lemma AfterOneMore(s: Stack, script: Script, methods: int -> Method, history: seq<Outcome>, o: Outcome)
    ensures AfterAll(s, script, methods, history + [o]) ==
            After(AfterAll(s, script, methods, history), script(history), methods, o)
  {
    hide After;
    assert (history + [o])[..|history|] == history;
  }

  lemma NowAllowed(s: Stack, script: Script, methods: int -> Method, history: seq<Outcome>, n: nat)
    requires n > 0 && AllAllowed(s, script, methods, history, n)
    ensures Allowed(s, script(history), methods)
  {
  }

  lemma ThenAllowed(s: Stack, script: Script, methods: int -> Method, history: seq<Outcome>, n: nat, o: Outcome)
    requires n > 0 && AllAllowed(s, script, methods, history, n)
    ensures AllAllowed(After(s, script(history), methods, o), script, methods, history + [o], n - 1)
  {
    hide After;
  }

  // ----- Whole calls -----

  /** Every turn finds the activations it needs. */
  ghost predicate AllowedAlong(s: Stack, script: Script, methods: int -> Method, history: seq<Outcome>) {
    forall k :: 0 <= k < |history| ==> Allowed(AfterAll(s, script, methods, history[..k]), script(history[..k]), methods)
  }

  lemma {:induction false} StillAllowed(s: Stack, script: Script, methods: int -> Method, history: seq<Outcome>, n: nat, k: nat)
    requires k <= |history| && k <= n && AllAllowed(s, script, methods, [], n)
    ensures AllAllowed(AfterAll(s, script, methods, history[..k]), script, methods, history[..k], n - k)
  {
    hide After, Allowed, AllAllowed, AfterAll;
    if k == 0 {
      AfterNone(s, script, methods);
      assert history[..0] == [];
    } else {
      var before := history[..k - 1];
      StillAllowed(s, script, methods, history, n, k - 1);
      ThenAllowed(AfterAll(s, script, methods, before), script, methods, before, n - k + 1, history[k - 1]);
      AfterOneMore(s, script, methods, before, history[k - 1]);
      assert before + [history[k - 1]] == history[..k];
    }
  }

  /** A script that is allowed beforehand is allowed at each step, however its requests go. */
  lemma AllowedThroughout(s: Stack, script: Script, methods: int -> Method, history: seq<Outcome>)
    requires AllAllowed(s, script, methods, [], |history|)
    ensures AllowedAlong(s, script, methods, history)
  {
    hide After, Allowed, AllAllowed, AfterAll;
    forall k | 0 <= k < |history|
      ensures Allowed(AfterAll(s, script, methods, history[..k]), script(history[..k]), methods)
    {
      StillAllowed(s, script, methods, history, |history|, k);
      NowAllowed(AfterAll(s, script, methods, history[..k]), script, methods, history[..k], |history| - k);
    }
  }

  /** The activations under a given depth. */
  function Below(s: Stack, floor: nat): (r: Stack)
    requires Depth(s) >= floor
    ensures Depth(r) == floor
  {
    if Depth(s) == floor then s else Below(s.callers, floor)
  }

  lemma BelowTop(s: Stack)
    requires s.Active?
    ensures Below(s, Depth(s.callers)) == s.callers
  {
    assert Below(s.callers, Depth(s.callers)) == s.callers;
  }

  /** The method that runs just above a given depth. */
  function IdAbove(s: Stack, floor: nat): int
    requires Depth(s) > floor
  {
    Below(s, floor + 1).top.id
  }

  lemma SameIds(s: Stack, s': Stack, floor: nat)
    requires s.Active? && s'.Active? && s'.callers == s.callers && s'.top.id == s.top.id && Depth(s) > floor
    ensures IdAbove(s', floor) == IdAbove(s, floor) && Below(s', floor) == Below(s, floor)
  {
  }

  /** Activations that a turn leaves in place it does not change, except the one it works on. */
  lemma AfterKeepsBelow(s: Stack, t: Turn, methods: int -> Method, o: Outcome, floor: nat)
    requires Allowed(s, t, methods) && Depth(s) > floor && Depth(After(s, t, methods, o)) > floor
    ensures Below(After(s, t, methods, o), floor) == Below(s, floor)
    ensures IdAbove(After(s, t, methods, o), floor) == IdAbove(s, floor)
  {
    var s' := After(s, t, methods, o);
    if Leaves(t.request) {
      SameIds(s.callers, s', floor);
      assert Below(s, floor + 1) == Below(s.callers, floor + 1);
    } else if t.request.ToCall? && o.Done? {
      SameIds(s, s'.callers, floor);
      assert Below(s', floor + 1) == Below(s'.callers, floor + 1);
    } else {
      SameIds(s, s', floor);
    }
  }

  /** Deeper than the caller at every point from the call up to the last turn. */
  ghost predicate StaysAbove(s: Stack, script: Script, methods: int -> Method, history: seq<Outcome>) {
    forall k :: 1 <= k < |history| ==> Depth(AfterAll(s, script, methods, history[..k])) > Depth(s)
  }

  lemma {:induction false} BelowUnchanged(s: Stack, script: Script, methods: int -> Method, history: seq<Outcome>, k: nat)
    requires 1 <= k < |history|
    requires AllowedAlong(s, script, methods, history) && StaysAbove(s, script, methods, history)
    ensures var begun, now := AfterAll(s, script, methods, history[..1]), AfterAll(s, script, methods, history[..k]);
            && Depth(begun) > Depth(s) && Depth(now) > Depth(s)
            && Below(now, Depth(s)) == Below(begun, Depth(s)) && IdAbove(now, Depth(s)) == IdAbove(begun, Depth(s))
  {
    hide After, Allowed, Depth, AfterAll, Below, IdAbove;
    if k > 1 {
      var before := history[..k - 1];
      BelowUnchanged(s, script, methods, history, k - 1);
      AfterOneMore(s, script, methods, before, history[k - 1]);
      assert before + [history[k - 1]] == history[..k];
      AfterKeepsBelow(AfterAll(s, script, methods, before), script(before), methods, history[k - 1], Depth(s));
    }
  }

  lemma AfterFirst(s: Stack, script: Script, methods: int -> Method, history: seq<Outcome>)
    requires |history| >= 1
    ensures history[..0] == [] && AfterAll(s, script, methods, history[..0]) == s
    ensures AfterAll(s, script, methods, history[..1]) == After(s, script([]), methods, history[0])
  {
    hide After;
    AfterNone(s, script, methods);
    assert history[..0] == [] && [] + [history[0]] == history[..1];
    AfterOneMore(s, script, methods, [], history[0]);
  }

  /** What the caller gets from a callee in its last turn: its result, nothing, or the arguments back. */
  function Handed(id: int, last: Turn, methods: int -> Method): seq<int>
    requires last.request.ToReturn? ==> methods(id).resultSlots <= |last.stack|
    requires last.request.ToPop? ==> methods(id).params <= |last.locals|
  {
    if last.request.ToReturn? then last.stack[|last.stack| - methods(id).resultSlots..]
    else if last.request.ToPop? then last.locals[..methods(id).params] else []
  }

  /** Leaving a callee whose caller is as the call left it. */
  lemma LastTurn(s: Stack, first: Turn, before: Stack, last: Turn, methods: int -> Method, o: Outcome, o': Outcome)
    requires Allowed(s, first, methods) && first.request.ToCall? && o.Done? && Allowed(before, last, methods)
    requires before.callers == After(s, first, methods, o).callers && Leaves(last.request)
    ensures After(before, last, methods, o') ==
            Active(Activation(s.top.id, first.locals,
                              first.stack[..|first.stack| - methods(first.request.id).params]
                              + Handed(before.top.id, last, methods), first.monitors),
                   s.callers)
  {
    var kept := first.stack[..|first.stack| - methods(first.request.id).params];
    assert kept + [] == kept;
  }

  /**
   A completed call, whatever nests inside it, calls that found no room included: the caller's
   operand stack has lost the arguments and gained the result of the method called, nothing on
   an exception, or the arguments again when the callee is popped; all else in the caller and
   under it is as it was at the call.
   */
  lemma CompletedCall(s: Stack, script: Script, methods: int -> Method, history: seq<Outcome>)
    requires |history| >= 2 && script([]).request.ToCall?
    requires AllowedAlong(s, script, methods, history) && StaysAbove(s, script, methods, history)
    requires Depth(AfterAll(s, script, methods, history)) == Depth(s)
    ensures var first, last := script([]), script(history[..|history| - 1]);
            var id := first.request.id;
            && s.Active? && Leaves(last.request) && methods(id).params <= |first.stack|
            && (last.request.ToReturn? ==> methods(id).resultSlots <= |last.stack|)
            && (last.request.ToPop? ==> methods(id).params <= |last.locals|)
            && AfterAll(s, script, methods, history) ==
               Active(Activation(s.top.id, first.locals,
                                 first.stack[..|first.stack| - methods(id).params] + Handed(id, last, methods),
                                 first.monitors),
                      s.callers)
  {
    hide After, AfterAll, Allowed, Handed, IdAbove;
    var n := |history| - 1;
    var first, last := script([]), script(history[..n]);
    AfterFirst(s, script, methods, history);
    assert Allowed(s, first, methods);
    var begun := AfterAll(s, script, methods, history[..1]);
    var before := AfterAll(s, script, methods, history[..n]);
    BelowUnchanged(s, script, methods, history, n);
    assert history[..n] + [history[n]] == history;
    AfterOneMore(s, script, methods, history[..n], history[n]);
    assert Allowed(before, last, methods);
    LastIsLeave(before, last, methods, history[n], Depth(s));
    CallDeepens(s, first, methods, history[0]);
    BelowTop(begun);
    BelowTop(before);
    LastTurn(s, first, before, last, methods, history[0], history[n]);
  }

  lemma CallDeepens(s: Stack, t: Turn, methods: int -> Method, o: Outcome)
    requires Allowed(s, t, methods) && t.request.ToCall? && Depth(After(s, t, methods, o)) > Depth(s)
    ensures s.Active? && o.Done? && After(s, t, methods, o).Active?
    ensures Depth(After(s, t, methods, o).callers) == Depth(s)
    ensures |t.stack| >= methods(t.request.id).params
    ensures IdAbove(After(s, t, methods, o), Depth(s)) == t.request.id
  {
  }

  lemma LastIsLeave(s: Stack, t: Turn, methods: int -> Method, o: Outcome, floor: nat)
    requires Allowed(s, t, methods) && Depth(s) > floor && Depth(After(s, t, methods, o)) == floor
    ensures Leaves(t.request) && s.Active? && Depth(s.callers) == floor && IdAbove(s, floor) == s.top.id
    ensures t.request.ToReturn? ==> methods(s.top.id).resultSlots <= |t.stack|
    ensures t.request.ToPop? ==> methods(s.top.id).params <= |t.locals|
  {
  }
}
