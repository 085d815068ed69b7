/**
 Runs that show what the barriers around a native call are for: the fence after the change to the
 transition state, and the release between the two stores that set the frame anchor, and between
 the two that clear it, which is not there.
 */
module SafepointRaces {
  import opened Common
  import opened Safepoint

  // ----- Runs of one thread, with the fence after the transition state and without -----

  /** Whether the fence is there, and the anchors that may be set. */
  datatype Setting = Setting(fenced: bool, anchors: set<Anchor>)

  /** As Next; but without the fence the safepoint state is loaded without waiting for the transition state. */
  function NextWith(c: Setting, s: State, a: Action): Option<State> {
    if !c.fenced && a.Move? && a.i < |s.threads| && s.threads[a.i].place.ToTrans?
    then Some(Put(s, a.i, s.threads[a.i].(place := Check)))
    else Next(s, a)
  }

  ghost predicate ReachableWith(c: Setting, s: State) {
    exists states: seq<State>, actions: seq<Action> :: IsRun(c, states, actions, s)
  }

  ghost predicate IsRun(c: Setting, states: seq<State>, actions: seq<Action>, s: State) {
    && |states| == |actions| + 1 && states[0] == Initial(1) && states[|actions|] == s
    && (forall k :: 0 <= k < |actions| ==> NextWith(c, states[k], actions[k]) == Some(states[k + 1]))
    && (forall k :: 0 <= k < |actions| && actions[k].CallNative? ==> actions[k].anchor in c.anchors)
  }

  lemma Start(c: Setting)
    ensures ReachableWith(c, Initial(1))
  {
    var states: seq<State>, actions: seq<Action> := [Initial(1)], [];
    assert IsRun(c, states, actions, Initial(1));
  }

  lemma Step(c: Setting, s: State, a: Action, s': State)
    requires ReachableWith(c, s) && NextWith(c, s, a) == Some(s') && (a.CallNative? ==> a.anchor in c.anchors)
    ensures ReachableWith(c, s')
  {
    hide NextWith, Initial;
    var states, actions :| IsRun(c, states, actions, s);
    assert IsRun(c, states + [s'], actions + [a], s');
  }

  /** With the fence these are runs of the system. */
  lemma {:induction false} FencedIsReachable(c: Setting, states: seq<State>, actions: seq<Action>, s: State)
    requires c.fenced && IsRun(c, states, actions, s)
    ensures Run(Initial(1), actions) == Some(s)
  {
    hide Next, Initial;
    if actions != [] {
      var last := |actions| - 1;
      FencedIsReachable(c, states[..last + 1], actions[..last], states[last]);
      assert NextWith(c, states[last], actions[last]) == Some(states[last + 1]);
    }
  }

  const FRAME := Anchor(64, 32)

  /** A single thread in a native call, with its buffered stores and what memory shows of it. */
  function Caller(place: Place, buffer: seq<Entry>, state: ThreadState, seen: Anchor, kind: Kind): Thread {
    Thread(place, buffer, FRAME, state, seen, false, false, kind, false)
  }

  function Quiet(t: Thread): State {
    State([t], NotSynchronized, None, Idle, 0, None, Free, Free)
  }

  lemma Moves(c: Setting, s: State, t: Thread, u: Thread)
    requires ReachableWith(c, s) && s.threads == [t] && (if !c.fenced && t.place.ToTrans? then u == t.(place := Check)
                                                                          else Advance(t, s.sync, false) == Some(u))
    requires InCall(t.place) && !t.place.ToBlock? && !t.place.Restored?
    ensures ReachableWith(c, s.(threads := [u]))
  {
    assert [t][0 := u] == [u];
    hide Advance, ReachableWith;
    Step(c, s, Move(0, false), s.(threads := [u]));
  }

  lemma Reaches(c: Setting, s: State, t: Thread, rest: seq<Entry>, u: Thread)
    requires ReachableWith(c, s) && s.threads == [t] && t.buffer != [] && t.buffer[1..] == rest
    requires u == match t.buffer[0]
                  case Barrier => t.(buffer := rest)
                  case PutState(v) => t.(buffer := rest, state := v)
                  case PutSp(x) => t.(buffer := rest, seen := t.seen.(sp := x))
                  case PutPc(x) => t.(buffer := rest, seen := t.seen.(pc := x))
    ensures ReachableWith(c, s.(threads := [u]))
  {
    assert t.buffer[..0] + t.buffer[1..] == rest;
    assert [t][0 := u] == [u];
    hide ReachableWith;
    Step(c, s, Reach(0, 0), s.(threads := [u]));
  }

  /** The thread enters native code in the ordinary way. */
  lemma EntersNative(c: Setting)
    requires FRAME in c.anchors
    ensures ReachableWith(c, Quiet(Caller(InNative, [], InNativeState, FRAME, Running)))
  {
    Start(c);
    hide ReachableWith;
    var t0 := Thread(Java, [], CLEARED, InJavaState, CLEARED, false, false, Running, false);
    assert Initial(1) == Quiet(t0);
    var t1 := Caller(AnchorSet, [PutPc(32), PutSp(64)], InJavaState, CLEARED, Running);
    assert [t0][0 := t1] == [t1] && t0.buffer + [PutPc(32), PutSp(64)] == t1.buffer;
    Step(c, Initial(1), CallNative(0, FRAME), Quiet(t1));
    var t2 := Caller(AnchorSet, [PutSp(64)], InJavaState, Anchor(0, 32), Running);
    Reaches(c, Quiet(t1), t1, [PutSp(64)], t2);
    var t3 := Caller(AnchorSet, [], InJavaState, FRAME, Running);
    Reaches(c, Quiet(t2), t2, [], t3);
    var t4 := Caller(ToNative, [Barrier, PutState(InNativeState)], InJavaState, FRAME, Running);
    assert t3.buffer + [Barrier, PutState(InNativeState)] == t4.buffer;
    Moves(c, Quiet(t3), t3, t4);
    var t5 := Caller(ToNative, [PutState(InNativeState)], InJavaState, FRAME, Running);
    Reaches(c, Quiet(t4), t4, [PutState(InNativeState)], t5);
    var t6 := Caller(ToNative, [], InNativeState, FRAME, Running);
    Reaches(c, Quiet(t5), t5, [], t6);
    Moves(c, Quiet(t6), t6, Caller(InNative, [], InNativeState, FRAME, Running));
  }

  const LATE := [Barrier, PutState(NativeTransState), Barrier, PutState(InJavaState)]

  /** It leaves again, seeing no safepoint, before memory shows that it has left. */
  lemma LeavesNative(c: Setting)
    requires !c.fenced && FRAME in c.anchors
    ensures ReachableWith(c, Quiet(Caller(ToJava, LATE, InNativeState, FRAME, Running)))
  {
    EntersNative(c);
    hide ReachableWith;
    var t1 := Caller(InNative, [], InNativeState, FRAME, Running);
    var b := [Barrier, PutState(NativeTransState)];
    var t2 := Caller(ToTrans, b, InNativeState, FRAME, Running);
    assert t1.buffer + b == b;
    Moves(c, Quiet(t1), t1, t2);
    var t3 := Caller(Check, b, InNativeState, FRAME, Running);
    Moves(c, Quiet(t2), t2, t3);
    var t4 := Caller(Checked, b, InNativeState, FRAME, Running);
    Moves(c, Quiet(t3), t3, t4);
    assert b + [Barrier, PutState(InJavaState)] == LATE;
    Moves(c, Quiet(t4), t4, Caller(ToJava, LATE, InNativeState, FRAME, Running));
  }

  function AtOperation(t: Thread): State {
    State([t], Synchronized, None, Arrived, 0, None, Vm, Vm)
  }

  /** The VM thread brings a single thread to a safepoint, on the strength of the state it sees. */
  lemma Stops(c: Setting, t: Thread)
    requires ReachableWith(c, Quiet(t)) && (t.state.InNativeState? || t.state.BlockedState?)
    requires t.kind.Running? && !t.suspended && !t.calledBack
    ensures ReachableWith(c, AtOperation(t.(kind := AtSafepoint)))
  {
    hide ReachableWith, Advance, Drain;
    var s0 := Quiet(t);
    var s1 := s0.(threadsLock := Vm, vm := Starting);
    Step(c, s0, VmMove, s1);
    var s2 := s1.(safepointLock := Vm, waiting := 1, vm := Counting);
    Step(c, s1, VmMove, s2);
    var s3 := s2.(vmBuffer := Some(Synchronizing), vm := Publishing);
    Step(c, s2, VmMove, s3);
    var s4 := s3.(vmBuffer := None, sync := Synchronizing);
    Step(c, s3, VmReach, s4);
    var s5 := s4.(vm := Examining);
    Step(c, s4, VmMove, s5);
    Judged(c, s5, t);
  }

  lemma Judged(c: Setting, s: State, t: Thread)
    requires ReachableWith(c, s) && (t.state.InNativeState? || t.state.BlockedState?)
    requires t.kind.Running? && !t.suspended && !t.calledBack
    requires s == State([t], Synchronizing, None, Examining, 1, None, Vm, Vm)
    ensures ReachableWith(c, AtOperation(t.(kind := AtSafepoint)))
  {
    hide ReachableWith, Advance, Drain;
    var s1 := s.(looked := Some(Look(0, t.state)));
    Step(c, s, Load(0), s1);
    var u := t.(kind := AtSafepoint);
    assert [t][0 := u] == [u];
    var s2 := s1.(threads := [u], looked := None, waiting := 0);
    Step(c, s1, Judge, s2);
    var s3 := s2.(vmBuffer := Some(Synchronized), vm := Marking);
    Step(c, s2, VmMove, s3);
    var s4 := s3.(vmBuffer := None, sync := Synchronized);
    Step(c, s3, VmReach, s4);
    Step(c, s4, VmMove, AtOperation(u));
  }

  /** And so a thread that counts as safe runs Java code during the safepoint operation. */
  lemma RaceWithoutFence()
    ensures exists s :: ReachableWith(Setting(false, {FRAME}), s) && s.sync.Synchronized? && Counted(s, 0) && s.threads[0].place.Java?
  {
    var c := Setting(false, {FRAME});
    LeavesNative(c);
    hide ReachableWith;
    // The VM thread takes the stale state for a thread that is still in native code.
    Stops(c, Caller(ToJava, LATE, InNativeState, FRAME, Running));
    var t0 := Caller(ToJava, LATE, InNativeState, FRAME, AtSafepoint);
    var b := LATE[1..];
    var t1 := t0.(buffer := b);
    Reaches(c, AtOperation(t0), t0, b, t1);
    var t2 := t1.(buffer := b[1..], state := NativeTransState);
    Reaches(c, AtOperation(t1), t1, b[1..], t2);
    var t3 := t2.(buffer := [PutState(InJavaState)]);
    Reaches(c, AtOperation(t2), t2, [PutState(InJavaState)], t3);
    var t4 := t3.(buffer := [], state := InJavaState);
    Reaches(c, AtOperation(t3), t3, [], t4);
    var t5 := t4.(place := BackInJava);
    Moves(c, AtOperation(t4), t4, t5);
    var t6 := t5.(place := Java, own := CLEARED, buffer := [PutSp(0), PutPc(0)]);
    assert t5.buffer + [PutSp(0), PutPc(0)] == t6.buffer;
    Moves(c, AtOperation(t5), t5, t6);
    assert ReachableWith(c, AtOperation(t6)) && Counted(AtOperation(t6), 0);
  }

  // ----- Without a release between the stores of the anchor -----

  /** A run of the only thread after which memory shows a mixed pair for it. */
  ghost predicate ShownMixed(actions: seq<Action>, s: State, t: Thread) {
    Run(Initial(1), actions) == Some(s) && s.threads == [t] && Mixed(actions, 0, t.seen)
  }

  lemma IsShownMixed(c: Setting, s: State, t: Thread)
    requires c.fenced && ReachableWith(c, s) && s.threads == [t] && t.seen.sp != 0 && t.seen !in c.anchors
    ensures exists actions :: ShownMixed(actions, s, t)
  {
    hide Initial, Next, Run, NextWith;
    var states: seq<State>, actions: seq<Action> :| IsRun(c, states, actions, s);
    FencedIsReachable(c, states, actions, s);
    assert ShownMixed(actions, s, t);
  }

  /** A buffered store overtakes the one before it. */
  lemma Overtakes(c: Setting, s: State, t: Thread, e: Entry, f: Entry, rest: seq<Entry>, u: Thread)
    requires ReachableWith(c, s) && s.threads == [t] && t.buffer == [e, f] + rest
    requires (e.PutSp? && f.PutPc? && u == t.(buffer := [e] + rest, seen := t.seen.(pc := f.pc)))
             || (e.PutPc? && f.PutSp? && u == t.(buffer := [e] + rest, seen := t.seen.(sp := f.sp)))
    ensures ReachableWith(c, s.(threads := [u]))
  {
    assert t.buffer[..1] + t.buffer[2..] == [e] + rest;
    assert [t][0 := u] == [u];
    hide ReachableWith;
    Step(c, s, Reach(0, 1), s.(threads := [u]));
  }

  /** Setting the anchor: the stack pointer of the new frame is seen before its pc. */
  lemma AnchorSeenHalfSet()
    ensures exists actions, s, t :: ShownMixed(actions, s, t) && t.seen == Anchor(t.own.sp, 0) && t.state.InJavaState?
  {
    var c := Setting(true, {FRAME});
    Start(c);
    hide ReachableWith;
    var t0 := Thread(Java, [], CLEARED, InJavaState, CLEARED, false, false, Running, false);
    assert Initial(1) == Quiet(t0);
    var t1 := Caller(AnchorSet, [PutPc(32), PutSp(64)], InJavaState, CLEARED, Running);
    assert [t0][0 := t1] == [t1] && t0.buffer + [PutPc(32), PutSp(64)] == t1.buffer;
    Step(c, Initial(1), CallNative(0, FRAME), Quiet(t1));
    var t2 := Caller(AnchorSet, [PutPc(32)], InJavaState, Anchor(64, 0), Running);
    Overtakes(c, Quiet(t1), t1, PutPc(32), PutSp(64), [], t2);
    IsShownMixed(c, Quiet(t2), t2);
  }

  /** A thread back in Java from its native call, with the stores that clear the anchor still buffered. */
  const BACK := Caller(Java, [PutSp(0), PutPc(0)], InJavaState, FRAME, Running).(own := CLEARED)

  /** The thread comes back from the native call in the ordinary way, and clears the anchor. */
  lemma ComesBack(c: Setting)
    requires c.fenced && FRAME in c.anchors
    ensures ReachableWith(c, Quiet(BACK))
  {
    EntersNative(c);
    hide ReachableWith;
    var t1 := Caller(InNative, [], InNativeState, FRAME, Running);
    var b := [Barrier, PutState(NativeTransState)];
    var t2 := Caller(ToTrans, b, InNativeState, FRAME, Running);
    assert t1.buffer + b == b;
    Moves(c, Quiet(t1), t1, t2);
    var t3 := Caller(ToTrans, b[1..], InNativeState, FRAME, Running);
    Reaches(c, Quiet(t2), t2, b[1..], t3);
    var t4 := Caller(ToTrans, [], NativeTransState, FRAME, Running);
    Reaches(c, Quiet(t3), t3, [], t4);
    var t5 := Caller(Check, [], NativeTransState, FRAME, Running);
    Moves(c, Quiet(t4), t4, t5);
    var t6 := Caller(Checked, [], NativeTransState, FRAME, Running);
    Moves(c, Quiet(t5), t5, t6);
    BackFromChecked(c, t6);
  }

  lemma BackFromChecked(c: Setting, t6: Thread)
    requires t6 == Caller(Checked, [], NativeTransState, FRAME, Running) && c.fenced && ReachableWith(c, Quiet(t6))
    ensures ReachableWith(c, Quiet(BACK))
  {
    hide ReachableWith;
    var b := [Barrier, PutState(InJavaState)];
    var t7 := Caller(ToJava, b, NativeTransState, FRAME, Running);
    assert t6.buffer + b == b;
    Moves(c, Quiet(t6), t6, t7);
    var t8 := Caller(ToJava, b[1..], NativeTransState, FRAME, Running);
    Reaches(c, Quiet(t7), t7, b[1..], t8);
    var t9 := Caller(ToJava, [], InJavaState, FRAME, Running);
    Reaches(c, Quiet(t8), t8, [], t9);
    var t10 := Caller(BackInJava, [], InJavaState, FRAME, Running);
    Moves(c, Quiet(t9), t9, t10);
    assert t10.buffer + [PutSp(0), PutPc(0)] == BACK.buffer;
    Moves(c, Quiet(t10), t10, BACK);
  }

  /** Clearing the anchor: the stack pointer of the old frame is still seen when its pc is gone. */
  lemma AnchorSeenHalfCleared()
    ensures exists actions, s, t :: ShownMixed(actions, s, t) && t.seen.pc == 0 && t.own == CLEARED && t.state.InJavaState?
  {
    var c := Setting(true, {FRAME});
    ComesBack(c);
    hide ReachableWith;
    var u := BACK.(buffer := [PutSp(0)], seen := Anchor(64, 0));
    Overtakes(c, Quiet(BACK), BACK, PutSp(0), PutPc(0), [], u);
    IsShownMixed(c, Quiet(u), u);
  }

  const NEXT_FRAME := Anchor(128, 96)

  /** With another native call at once, that stack pointer can be seen with the pc of the new frame. */
  lemma AnchorSeenWithOtherPc()
    ensures exists actions, s, t :: && ShownMixed(actions, s, t) && t.seen == Anchor(FRAME.sp, NEXT_FRAME.pc)
                                    && t.own == NEXT_FRAME && t.state.InJavaState?
  {
    var c := Setting(true, {FRAME, NEXT_FRAME});
    ComesBack(c);
    hide ReachableWith;
    var b := [PutSp(0), PutPc(0), PutPc(96), PutSp(128)];
    var t1 := BACK.(place := AnchorSet, own := NEXT_FRAME, buffer := b);
    assert [BACK][0 := t1] == [t1] && BACK.buffer + [PutPc(96), PutSp(128)] == b;
    Step(c, Quiet(BACK), CallNative(0, NEXT_FRAME), Quiet(t1));
    var t2 := t1.(buffer := [PutSp(0), PutPc(96), PutSp(128)], seen := Anchor(64, 0));
    assert b == [PutSp(0), PutPc(0)] + b[2..] && t2.buffer == [PutSp(0)] + b[2..];
    Overtakes(c, Quiet(t1), t1, PutSp(0), PutPc(0), b[2..], t2);
    var t3 := t2.(buffer := [PutSp(0), PutSp(128)], seen := Anchor(64, 96));
    assert t2.buffer == [PutSp(0), PutPc(96)] + b[3..] && t3.buffer == [PutSp(0)] + b[3..];
    Overtakes(c, Quiet(t2), t2, PutSp(0), PutPc(96), b[3..], t3);
    IsShownMixed(c, Quiet(t3), t3);
  }

  /** A mixed pair can be seen in exactly one of the thread states that memory shows: in_Java. */
  lemma MixedExactly(v: ThreadState)
    ensures (exists n: nat, actions: seq<Action>, s: State, i: nat ::
               && Run(Initial(n), actions) == Some(s) && i < |s.threads|
               && s.threads[i].state == v && Mixed(actions, i, s.threads[i].seen))
            <==> v.InJavaState?
  {
    hide Run, Initial, Mixed;
    if n: nat, actions: seq<Action>, s: State, i: nat :|
      && Run(Initial(n), actions) == Some(s) && i < |s.threads|
      && s.threads[i].state == v && Mixed(actions, i, s.threads[i].seen) {
      if !v.InJavaState? {
        NothingMixed(n, actions, s, i);
      }
    }
    if v.InJavaState? {
      AnchorSeenHalfSet();
      var actions, s, t :| ShownMixed(actions, s, t) && t.seen == Anchor(t.own.sp, 0) && t.state.InJavaState?;
      assert s.threads[0] == t;
    }
  }
}
