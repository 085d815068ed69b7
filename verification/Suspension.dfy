/**
 Suspending a thread from outside: what a request promises while the thread is in native code, at a
 poll or blocked, and when the safepoint that the requester forces is enough.
 */
module Suspension {
  import opened Common
  import opened Safepoint
  import opened SafepointRaces

  predicate NoResume(actions: seq<Action>, i: nat) {
    forall k :: 0 <= k < |actions| ==> actions[k] != Resume(i)
  }

  /** Running Java code, or past the last look at the suspend request on the way there. */
  predicate OnTheWay(p: Place) { p.Checked? || p.ToJava? || p.BackInJava? || p.Java? }

  /** Past a look at the request, with a look at the safepoint state to come. */
  predicate BetweenLooks(p: Place) { p.FromSuspend? || p.SlowCheck? }

  /** Anywhere else a request that stands will be seen before Java code. */
  predicate WillLook(p: Place) { !OnTheWay(p) && !BetweenLooks(p) }

  lemma SuccessorLooks(p: Place, sync: Sync, flag: bool)
    requires WillLook(p)
    ensures WillLook(Successor(p, sync, true, flag))
  {
  }

  lemma StepLooks(s: State, a: Action, s': State, i: nat)
    requires Next(s, a) == Some(s') && a != Resume(i) && i < |s.threads| && s.threads[i].requested
    ensures |s'.threads| == |s.threads| && s'.threads[i].requested
    ensures WillLook(s.threads[i].place) ==> WillLook(s'.threads[i].place)
  {
    assert a.VmMove? ==> s'.threads == s.threads by { VmMoveThreads(s); }
    hide NextVm, MayDrain;
    if a.Move? {
      AdvancePlaces(s.threads[a.i], s.sync, a.flag);
      LocksParts(s, a.i, Advance(s.threads[a.i], s.sync, a.flag).value);
      if a.i == i && WillLook(s.threads[i].place) {
        SuccessorLooks(s.threads[i].place, s.sync, a.flag);
      }
    }
    hide Advance, Locks, LocksMoved, Successor;
  }

  /** While a request stands, a thread that will look at it does not get to Java, whatever all threads do. */
  lemma {:induction false} HeldBack(s: State, actions: seq<Action>, s': State, i: nat)
    requires Run(s, actions) == Some(s') && NoResume(actions, i)
    requires i < |s.threads| && s.threads[i].requested && WillLook(s.threads[i].place)
    ensures i < |s'.threads| && s'.threads[i].requested && WillLook(s'.threads[i].place)
  {
    hide Next, WillLook;
    if actions != [] {
      var last := |actions| - 1;
      var before := Run(s, actions[..last]).value;
      HeldBack(s, actions[..last], before, i);
      StepLooks(before, actions[last], s', i);
    }
  }

  lemma {:induction false} RequestStands(s: State, actions: seq<Action>, s': State, i: nat)
    requires Run(s, actions) == Some(s') && NoResume(actions, i) && i < |s.threads| && s.threads[i].requested
    ensures |s'.threads| == |s.threads| && s'.threads[i].requested
  {
    hide Next;
    if actions != [] {
      var last := |actions| - 1;
      var before := Run(s, actions[..last]).value;
      RequestStands(s, actions[..last], before, i);
      StepLooks(before, actions[last], s', i);
    }
  }

  lemma {:induction false} RunJoins(s: State, a: seq<Action>, b: seq<Action>)
    requires Run(s, a + b).Some?
    ensures Run(s, a).Some? && Run(Run(s, a).value, b) == Run(s, a + b)
  {
    hide Next;
    if b == [] {
      assert a + b == a;
    } else {
      var last := |b| - 1;
      assert (a + b)[..|a + b| - 1] == a + b[..last];
      RunJoins(s, a, b[..last]);
    }
  }

  lemma {:induction false} RunOn(s: State, a: seq<Action>, b: seq<Action>)
    requires Run(s, a).Some? && Run(Run(s, a).value, b).Some?
    ensures Run(s, a + b) == Run(Run(s, a).value, b)
  {
    hide Next;
    if b == [] {
      assert a + b == a;
    } else {
      var last := |b| - 1;
      assert (a + b)[..|a + b| - 1] == a + b[..last];
      RunOn(s, a, b[..last]);
    }
  }

  /**
   In every run: a thread asked at point k, found in native code at a later point m, and not resumed
   since k, is neither in Java nor past its checks on the way there, however many safepoints come and go.
   */
  lemma AskedInNative(n: nat, actions: seq<Action>, s: State, i: nat, k: nat, m: nat)
    requires Run(Initial(n), actions) == Some(s) && k < m <= |actions|
    requires actions[k] == Request(i) && NoResume(actions[k..], i)
    requires var there := Run(Initial(n), actions[..m]);
             there.Some? && i < |there.value.threads| && there.value.threads[i].place.InNative?
    ensures i < |s.threads| && !OnTheWay(s.threads[i].place) && !BetweenLooks(s.threads[i].place)
  {
    hide Run, Initial;
    assert actions == actions[..m] + actions[m..];
    RunJoins(Initial(n), actions[..m], actions[m..]);
    var there := Run(Initial(n), actions[..m]).value;
    assert actions[..m] == actions[..k + 1] + actions[k + 1..m];
    RunJoins(Initial(n), actions[..k + 1], actions[k + 1..m]);
    var asked := Run(Initial(n), actions[..k + 1]).value;
    LastAction(Initial(n), actions[..k + 1], asked, i);
    assert actions[k + 1..m] == actions[k..][1..m - k] && actions[m..] == actions[k..][m - k..];
    RequestStands(asked, actions[k + 1..m], there, i);
    HeldBack(there, actions[m..], s, i);
  }

  lemma LastAction(s: State, actions: seq<Action>, s': State, i: nat)
    requires Run(s, actions) == Some(s') && actions != [] && actions[|actions| - 1] == Request(i)
    ensures i < |s'.threads| && s'.threads[i].requested
  {
  }

  // ----- When a safepoint is enough -----

  ghost predicate CanReach(s: State, s': State, i: nat) {
    exists actions :: Run(s, actions) == Some(s') && NoResume(actions, i)
  }

  lemma Here(s: State, i: nat)
    ensures CanReach(s, s, i)
  {
    assert Run(s, []) == Some(s);
  }

  lemma Onward(s: State, s1: State, a: Action, s2: State, i: nat)
    requires CanReach(s, s1, i) && Next(s1, a) == Some(s2) && a != Resume(i)
    ensures CanReach(s, s2, i)
  {
    hide Next;
    var actions :| Run(s, actions) == Some(s1) && NoResume(actions, i);
    assert (actions + [a])[..|actions|] == actions;
    assert Run(s, actions + [a]) == Some(s2);
  }

  lemma Further(s: State, s1: State, s2: State, i: nat)
    requires CanReach(s, s1, i) && CanReach(s1, s2, i)
    ensures CanReach(s, s2, i)
  {
    hide Run;
    var a :| Run(s, a) == Some(s1) && NoResume(a, i);
    var b :| Run(s1, b) == Some(s2) && NoResume(b, i);
    RunOn(s, a, b);
  }

  /** The VM thread can end the safepoint without any other thread. */
  lemma VmEnds(s: State, i: nat) returns (s': State)
    requires Inv(s) && s.sync.Synchronized?
    ensures CanReach(s, s', i) && Inv(s') && s'.threads == s.threads && s'.sync.NotSynchronized?
    decreases if s.vm.Marking? then 4 else if s.vm.Arrived? then 3 else if s.vm.Operating? then 2 else if s.vm.Ending? then 1 else 0
  {
    hide Inv;
    Here(s, i);
    SyncPlaces(s);
    if s.vm.Unpublishing? {
      s' := s.(sync := NotSynchronized, vmBuffer := None);
      Onward(s, s, VmReach, s', i);
      NextKeeps(s, VmReach, s');
    } else {
      var next := NextVm(s).value;
      Onward(s, s, VmMove, next, i);
      NextKeeps(s, VmMove, next);
      s' := VmEnds(next, i);
      Further(s, next, s', i);
    }
  }

  /** Where the VM thread is while the state is _synchronized, and that it can go on. */
  lemma SyncPlaces(s: State)
    requires Inv(s) && s.sync.Synchronized?
    ensures s.vm.Unpublishing? ==> s.vmBuffer == Some(NotSynchronized)
    ensures s.vm.Marking? || s.vm.Arrived? || s.vm.Operating? || s.vm.Ending? || s.vm.Unpublishing?
    ensures s.vm.Marking? || s.vm.Arrived? || s.vm.Operating? || s.vm.Ending? ==> NextVm(s).Some?
  {
    hide LocalInv, Outstanding;
    if s.vm.Operating? && s.safepointLock.Held? {
      StoppedHoldsNothing(s, s.safepointLock.thread);
    }
  }

  lemma StoppedHoldsNothing(s: State, i: nat)
    requires Inv(s) && s.sync.Synchronized? && i < |s.threads|
    ensures s.safepointLock != Held(i)
  {
    hide LocalInv, Outstanding;
    assert ThreadInv(s, i);
  }

  /** All of a thread's buffered stores can reach memory, in their order. */
  lemma {:induction false} Drains(s: State, i: nat) returns (s': State)
    requires Inv(s) && i < |s.threads|
    ensures CanReach(s, s', i) && Inv(s') && s'.sync == s.sync && i < |s'.threads|
    ensures s'.threads[i].buffer == [] && s'.threads[i].place == s.threads[i].place
    decreases |s.threads[i].buffer|
  {
    hide Inv;
    Here(s, i);
    s' := s;
    if s.threads[i].buffer != [] {
      var next := Next(s, Reach(i, 0)).value;
      Onward(s, s, Reach(i, 0), next, i);
      NextKeeps(s, Reach(i, 0), next);
      s' := Drains(next, i);
      Further(s, next, s', i);
    }
  }

  function StepsLeft(p: Place): nat {
    match p
    case FromSuspend => 5 case SlowCheck => 4 case Checked => 3 case ToJava => 2 case BackInJava => 1 case _ => 0
  }

  lemma OneStep(s: State, i: nat) returns (s': State)
    requires Inv(s) && i < |s.threads| && s.sync.NotSynchronized? && s.threads[i].buffer == []
    requires StepsLeft(s.threads[i].place) > 0
    ensures CanReach(s, s', i) && Inv(s') && s'.sync.NotSynchronized? && i < |s'.threads|
    ensures OnTheWay(s'.threads[i].place) || BetweenLooks(s'.threads[i].place)
    ensures StepsLeft(s'.threads[i].place) < StepsLeft(s.threads[i].place)
  {
    hide Inv, Run;
    Here(s, i);
    s' := Next(s, Move(i, false)).value;
    Onward(s, s, Move(i, false), s', i);
    NextKeeps(s, Move(i, false), s');
  }

  /** A thread that has passed the looks can be in Java before anyone resumes it. */
  lemma {:induction false} GetsToJava(s: State, i: nat) returns (s': State)
    requires Inv(s) && i < |s.threads| && s.sync.NotSynchronized?
    requires OnTheWay(s.threads[i].place) || BetweenLooks(s.threads[i].place)
    ensures CanReach(s, s', i) && i < |s'.threads| && s'.threads[i].place.Java?
    decreases StepsLeft(s.threads[i].place)
  {
    hide Inv, CanReach;
    Here(s, i);
    s' := s;
    if !s.threads[i].place.Java? {
      var s1 := Drains(s, i);
      var s2 := OneStep(s1, i);
      s' := GetsToJava(s2, i);
      Further(s, s1, s2, i);
      Further(s, s2, s', i);
    }
  }

  /**
   A requester that forces a safepoint is promised that the thread runs no new bytecode. Once the
   state is _synchronized this is so, until the thread is resumed, exactly if it is not between its
   own suspension and its look at the safepoint state: there it can sleep through the safepoint.
   */
  lemma SafepointIsEnough(s: State, i: nat)
    requires Reachable(s) && s.sync.Synchronized? && i < |s.threads| && s.threads[i].requested
    ensures (forall s' :: CanReach(s, s', i) && i < |s'.threads| ==> !OnTheWay(s'.threads[i].place))
            <==> !BetweenLooks(s.threads[i].place)
  {
    SynchronizedIsStopped(s, i);
    ReachableInv(s);
    hide Inv;
    if BetweenLooks(s.threads[i].place) {
      var s1 := VmEnds(s, i);
      var s2 := GetsToJava(s1, i);
      Further(s, s1, s2, i);
    } else {
      forall s' | CanReach(s, s', i) && i < |s'.threads|
        ensures !OnTheWay(s'.threads[i].place)
      {
        var actions :| Run(s, actions) == Some(s') && NoResume(actions, i);
        HeldBack(s, actions, s', i);
      }
    }
  }

  // ----- A thread that sleeps through the safepoint -----

  const GAP := [Barrier, PutState(NativeTransState)]

  /** In native code, asked to suspend itself, and doing so on the way out. */
  lemma SuspendsItself(c: Setting)
    requires c.fenced && FRAME in c.anchors
    ensures ReachableWith(c, Quiet(Caller(Suspended, [], BlockedState, FRAME, Running).(suspended := true, requested := true)))
  {
    EntersNative(c);
    hide ReachableWith;
    var t0 := Caller(InNative, [], InNativeState, FRAME, Running);
    var t1 := t0.(requested := true);
    assert [t0][0 := t1] == [t1];
    Step(c, Quiet(t0), Request(0), Quiet(t1));
    var t2 := t1.(place := ToTrans, buffer := GAP);
    assert t1.buffer + GAP == GAP;
    Moves(c, Quiet(t1), t1, t2);
    var t3 := t2.(buffer := GAP[1..]);
    Reaches(c, Quiet(t2), t2, GAP[1..], t3);
    var t4 := t3.(buffer := [], state := NativeTransState);
    Reaches(c, Quiet(t3), t3, [], t4);
    var t5 := t4.(place := Check);
    Moves(c, Quiet(t4), t4, t5);
    var t6 := t5.(place := Slow);
    Moves(c, Quiet(t5), t5, t6);
    Blocks(c, t6);
  }

  lemma Blocks(c: Setting, t: Thread)
    requires ReachableWith(c, Quiet(t)) && c.fenced
    requires t == Caller(Slow, [], NativeTransState, FRAME, Running).(requested := true)
    ensures ReachableWith(c, Quiet(Caller(Suspended, [], BlockedState, FRAME, Running).(suspended := true, requested := true)))
  {
    hide ReachableWith;
    var b := [Barrier, PutState(BlockedState)];
    var t1 := t.(place := ToSuspend, buffer := b);
    assert t.buffer + b == b;
    Moves(c, Quiet(t), t, t1);
    var t2 := t1.(buffer := b[1..]);
    Reaches(c, Quiet(t1), t1, b[1..], t2);
    var t3 := t2.(buffer := [], state := BlockedState);
    Reaches(c, Quiet(t2), t2, [], t3);
    Moves(c, Quiet(t3), t3, t3.(place := Suspended, suspended := true));
  }

  /** Resumed and awake, still shown blocked, and asked again. */
  lemma AskedAgain(c: Setting)
    requires c.fenced && FRAME in c.anchors
    ensures ReachableWith(c, Quiet(Caller(FromSuspend, GAP, BlockedState, FRAME, Running).(requested := true)))
  {
    SuspendsItself(c);
    hide ReachableWith;
    var t0 := Caller(Suspended, [], BlockedState, FRAME, Running).(suspended := true, requested := true);
    var t1 := t0.(suspended := false, requested := false);
    assert [t0][0 := t1] == [t1];
    Step(c, Quiet(t0), Resume(0), Quiet(t1));
    var t2 := t1.(place := FromSuspend, buffer := GAP);
    assert t1.buffer + GAP == GAP;
    Moves(c, Quiet(t1), t1, t2);
    var t3 := t2.(requested := true);
    assert [t2][0 := t3] == [t3];
    Step(c, Quiet(t2), Request(0), Quiet(t3));
  }

  /** A thread that was asked before the safepoint, stopped by it, and is in Java after it. */
  lemma SleepsThrough()
    ensures exists s, s' :: && Reachable(s) && s.sync.Synchronized? && |s.threads| == 1 && s.threads[0].requested
                            && CanReach(s, s', 0) && |s'.threads| == 1
                            && s'.threads[0].place.Java? && s'.threads[0].requested
  {
    var c := Setting(true, {FRAME});
    AskedAgain(c);
    hide ReachableWith, CanReach, Initial, Run, NextWith;
    var t := Caller(FromSuspend, GAP, BlockedState, FRAME, Running).(requested := true);
    Stops(c, t);
    var s := AtOperation(t.(kind := AtSafepoint));
    IsReachable(c, s);
    ReachableInv(s);
    var s1 := VmEnds(s, 0);
    var s2 := GetsToJava(s1, 0);
    Further(s, s1, s2, 0);
    StillRequested(s, s2, 0);
  }

  lemma IsReachable(c: Setting, s: State)
    requires c.fenced && ReachableWith(c, s)
    ensures Reachable(s)
  {
    hide Initial, Next, Run, NextWith;
    var states: seq<State>, actions: seq<Action> :| IsRun(c, states, actions, s);
    FencedIsReachable(c, states, actions, s);
  }

  lemma StillRequested(s: State, s': State, i: nat)
    requires CanReach(s, s', i) && i < |s.threads| && s.threads[i].requested
    ensures |s'.threads| == |s.threads| && s'.threads[i].requested
  {
    hide Run;
    var actions :| Run(s, actions) == Some(s') && NoResume(actions, i);
    RequestStands(s, actions, s', i);
  }
}
