/**
 Nothing gets stuck for good: from every state that the threads and the VM thread can get to, some
 continuation brings all of them to rest.
 */
module Progress {
  import opened Common
  import opened Safepoint

  /** No safepoint, no lock taken, and every thread in Java, with all its stores in memory. */
  ghost predicate AtRest(s: State) {
    && s.vm.Idle? && s.sync.NotSynchronized? && s.vmBuffer.None? && s.looked.None?
    && s.threadsLock.Free? && s.safepointLock.Free?
    && forall i :: 0 <= i < |s.threads| ==> Resting(s.threads[i])
  }

  predicate Resting(t: Thread) { t.place.Java? && t.buffer == [] && !t.requested && !t.suspended }

  ghost predicate Leads(s: State, s': State) {
    exists actions :: Run(s, actions) == Some(s')
  }

  lemma Stays(s: State)
    ensures Leads(s, s)
  {
    assert Run(s, []) == Some(s);
  }

  lemma Goes(s: State, s1: State, a: Action, s2: State)
    requires Leads(s, s1) && Next(s1, a) == Some(s2)
    ensures Leads(s, s2)
  {
    hide Next;
    var actions :| Run(s, actions) == Some(s1);
    assert (actions + [a])[..|actions|] == actions;
    assert Run(s, actions + [a]) == Some(s2);
  }

  lemma {:induction false} GoesOn(s: State, s1: State, s2: State, actions: seq<Action>)
    requires Leads(s, s1) && Run(s1, actions) == Some(s2)
    ensures Leads(s, s2)
    decreases |actions|
  {
    hide Next, Leads;
    if actions != [] {
      var last := |actions| - 1;
      var before := Run(s1, actions[..last]).value;
      GoesOn(s, s1, before, actions[..last]);
      Goes(s, before, actions[last], s2);
    }
  }

  lemma Joins(s: State, s1: State, s2: State)
    requires Leads(s, s1) && Leads(s1, s2)
    ensures Leads(s, s2)
  {
    hide Run;
    var actions :| Run(s1, actions) == Some(s2);
    GoesOn(s, s1, s2, actions);
  }

  // ----- How far there is to go -----

  /** Stages of the VM thread still to come before it is idle. */
  function Stages(vm: VmPlace): nat {
    match vm
    case Idle => 0 case Leaving => 1 case Restarting => 2 case Unpublishing => 3 case Ending => 4 case Operating => 5
    case Arrived => 6 case Marking => 7 case Waiting => 8 case Examining => 9 case Publishing => 10 case Counting => 11
    case Starting => 12
  }

  /** The VM thread can tell what to make of the thread. */
  predicate Ready(t: Thread) { !Classify(t.state, t.suspended).Running? }

  /** Steps until a thread that is asked to stop can be classified. */
  function ToReady(p: Place): nat {
    match p
    case Java => 3 case BackInJava => 6 case ToJava => 7 case Checked => 10
    case SlowCheck => 3 case Slow => 4 case Check => 5 case ToTrans => 6 case FromSuspend => 4
    case AnchorSet => 3 case Unblocked(_) => 12 case ToHalt(_) => 11 case Halted(_) => 11
    case _ => 0
  }

  /** Steps until a thread has dropped the Safepoint_lock again. */
  function ToDrop(p: Place): nat {
    match p
    case ToVm => 5 case InVm => 4 case Reported => 1
    case _ => 0
  }

  /** Steps until a thread that nobody stops is in Java. */
  function ToRest(p: Place): nat {
    match p
    case Java => 0 case BackInJava => 3 case ToJava => 4 case Checked => 7 case Check => 8 case ToTrans => 9
    case InNative => 12 case ToNative => 13 case AnchorSet => 16
    case SlowCheck => 8 case FromSuspend => 9 case Slow => 9 case Suspended => 12 case ToSuspend => 12
    case Unblocked(poll) => if poll then 1 else 8
    case ToHalt(poll) => if poll then 1 else 8
    case Halted(poll) => if poll then 1 else 8
    case Restored => 9 case Released => 12 case ToBlock => 13
    case ResumedInJava => 2 case Resumed => 5 case LinedUp => 6 case Reported => 7 case InVm => 10 case ToVm => 11
  }

  function Weight(vm: VmPlace, t: Thread): nat {
    match vm
    case Examining => if !t.kind.Running? then 0 else if Ready(t) then 1 else 1 + ToReady(t.place) + |t.buffer|
    case Starting | Waiting => if ToDrop(t.place) > 0 then ToDrop(t.place) + |t.buffer| else 0
    case Restarting => if t.kind.Running? then 0 else 1
    case Idle => ToRest(t.place) + |t.buffer| + if t.requested then 1 else 0
    case _ => 0
  }

  function Total(vm: VmPlace, threads: seq<Thread>): nat {
    if threads == [] then 0 else Total(vm, threads[..|threads| - 1]) + Weight(vm, threads[|threads| - 1])
  }

  lemma {:induction false} TotalUpdate(vm: VmPlace, threads: seq<Thread>, i: nat, t: Thread)
    requires i < |threads|
    ensures Total(vm, threads[i := t]) == Total(vm, threads) - Weight(vm, threads[i]) + Weight(vm, t)
  {
    hide Weight;
    var last := |threads| - 1;
    if i == last {
      assert threads[i := t][..last] == threads[..last];
    } else {
      TotalUpdate(vm, threads[..last], i, t);
      assert threads[i := t][..last] == threads[..last][i := t];
    }
  }

  /** What is left within a stage. */
  function Left(s: State): nat {
    Total(s.vm, s.threads) + (if s.vmBuffer.Some? then 1 else 0) + (if s.looked.Some? then 1 else 0)
  }

  ghost predicate Nearer(s: State, s': State) {
    && Leads(s, s') && Inv(s')
    && (Stages(s'.vm) < Stages(s.vm) || (s'.vm == s.vm && Left(s') < Left(s)))
  }

  /** One action that takes a single thread forward. */
  lemma OneThread(s: State, a: Action, s': State, i: nat)
    requires Inv(s) && Next(s, a) == Some(s') && i < |s.threads|
    requires s'.threads == s.threads[i := s'.threads[i]] && |s'.threads| == |s.threads|
    requires s'.vm == s.vm && s'.vmBuffer == s.vmBuffer && s'.looked == s.looked
    requires Weight(s.vm, s'.threads[i]) < Weight(s.vm, s.threads[i])
    ensures Nearer(s, s')
  {
    hide Inv, Next, Weight, Leads;
    Stays(s);
    Goes(s, s, a, s');
    NextKeeps(s, a, s');
    TotalUpdate(s.vm, s.threads, i, s'.threads[i]);
  }

  /** One action of the VM thread. */
  lemma OneStage(s: State, a: Action, s': State)
    requires Inv(s) && Next(s, a) == Some(s')
    requires Stages(s'.vm) < Stages(s.vm) || (s'.vm == s.vm && Left(s') < Left(s))
    ensures Nearer(s, s')
  {
    hide Inv, Next, Leads, Left;
    Stays(s);
    Goes(s, s, a, s');
    NextKeeps(s, a, s');
  }

  // ----- Single steps -----

  /** A buffered store reaches memory. */
  lemma Drained(t: Thread) returns (u: Thread)
    requires t.buffer != []
    ensures Drain(t, 0) == Some(u) && |u.buffer| == |t.buffer| - 1 && u.place == t.place && u.kind == t.kind
    ensures u.requested == t.requested && u.suspended == t.suspended && u.calledBack == t.calledBack
  {
    u := Drain(t, 0).value;
  }

  lemma DrainOne(s: State, i: nat) returns (s': State)
    requires Inv(s) && i < |s.threads| && s.threads[i].buffer != []
    requires s.vm.Idle?
             || ((s.vm.Starting? || s.vm.Waiting?) && ToDrop(s.threads[i].place) > 0)
             || (s.vm.Examining? && s.threads[i].kind.Running? && !Ready(s.threads[i]))
    ensures Nearer(s, s')
  {
    var u := Drained(s.threads[i]);
    s' := Put(s, i, u);
    hide Inv, Drain, Nearer, ToReady, ToDrop, ToRest;
    OneThread(s, Reach(i, 0), s', i);
  }

  /** With all its stores in memory, a thread that cannot be classified yet can go on towards it. */
  lemma MovesToReady(t: Thread, sync: Sync)
    requires LocalInv(t) && t.buffer == [] && !Ready(t) && t.kind.Running? && !sync.NotSynchronized?
    requires !t.place.Java? && !ThreadsLockPlace(t.place) && !SafepointLockPlace(t.place)
    ensures Advance(t, sync, false).Some?
    ensures var u := Advance(t, sync, false).value;
            u.kind == t.kind && Weight(Examining, u) < Weight(Examining, t)
    ensures !t.place.ToBlock? && !t.place.LinedUp? && !t.place.ToVm?
  {
    assert !t.suspended && t.state == Target(t.place);
    hide LocalInv, Advance;
    if Stores(t.place) {
      AdvanceStores(t, sync, false);
    } else if Waits(t.place) {
      AdvanceWaits(t, sync, false);
    } else {
      LooksToReady(t, sync);
    }
  }

  lemma LooksToReady(t: Thread, sync: Sync)
    requires Looks(t.place) && t.buffer == [] && !t.suspended && t.state == Target(t.place)
    requires !Ready(t) && t.kind.Running? && !sync.NotSynchronized?
    ensures Advance(t, sync, false).Some?
    ensures var u := Advance(t, sync, false).value;
            u.kind == t.kind && Weight(Examining, u) < Weight(Examining, t)
  {
  }

  lemma PollsToReady(t: Thread)
    requires LocalInv(t) && t.buffer == [] && t.kind.Running? && t.place.Java?
    ensures var u := Issue(t, InVmState, ToVm);
            Weight(Examining, u) < Weight(Examining, t)
  {
    hide Shaped, LatestSp, LatestPc, InCall, Previous;
  }

  /** A running thread is brought nearer to being classified, or is classified. */
  lemma ExamineOne(s: State, i: nat) returns (s': State)
    requires Inv(s) && s.vm.Examining? && s.looked.None? && i < |s.threads| && s.threads[i].kind.Running?
    ensures Nearer(s, s')
  {
    var t := s.threads[i];
    ExaminingFacts(s, i);
    hide Inv, Nearer;
    if Ready(t) {
      s' := Classified(s, i);
    } else if t.buffer != [] {
      s' := DrainOne(s, i);
    } else if t.place.Java? {
      PollsToReady(t);
      s' := Put(s, i, Issue(t, InVmState, ToVm));
      hide Weight;
      OneThread(s, Poll(i), s', i);
    } else {
      MovesToReady(t, s.sync);
      var u := Advance(t, s.sync, false).value;
      s' := Put(s, i, u);
      hide Weight, Advance;
      OneThread(s, Move(i, false), s', i);
    }
  }

  lemma ExaminingFacts(s: State, i: nat)
    requires Inv(s) && s.vm.Examining? && i < |s.threads|
    ensures LocalInv(s.threads[i]) && !ThreadsLockPlace(s.threads[i].place) && !SafepointLockPlace(s.threads[i].place)
    ensures !s.sync.NotSynchronized?
  {
    hide LocalInv, Outstanding, KindInv;
    assert ThreadInv(s, i);
  }

  lemma Classified(s: State, i: nat) returns (s': State)
    requires Inv(s) && s.vm.Examining? && s.looked.None? && i < |s.threads| && s.threads[i].kind.Running? && Ready(s.threads[i])
    ensures Nearer(s, s')
  {
    hide Inv, Leads;
    var t := s.threads[i];
    var s1 := s.(looked := Some(Look(i, t.state)));
    Stays(s);
    Goes(s, s, Load(i), s1);
    NextKeeps(s, Load(i), s1);
    s' := Next(s1, Judge).value;
    Goes(s, s1, Judge, s');
    NextKeeps(s1, Judge, s');
    TotalUpdate(Examining, s.threads, i, s'.threads[i]);
  }

  lemma JudgeLooked(s: State) returns (s': State)
    requires Inv(s) && s.vm.Examining? && s.looked.Some?
    ensures Nearer(s, s')
  {
    var i := s.looked.value.thread;
    assert i < |s.threads| && s.threads[i].kind.Running?;
    hide Inv;
    s' := Next(s, Judge).value;
    TotalUpdate(Examining, s.threads, i, s'.threads[i]);
    hide Next, Leads, Nearer;
    OneStage(s, Judge, s');
  }

  /** A thread that has the Safepoint_lock, or waits for it, gets on to drop it. */
  lemma MovesToDrop(t: Thread, sync: Sync)
    requires LocalInv(t) && t.buffer == [] && ToDrop(t.place) > 0
    ensures Advance(t, sync, false).Some?
    ensures var u := Advance(t, sync, false).value; ToDrop(u.place) + |u.buffer| < ToDrop(t.place) || ToDrop(u.place) == 0
  {
    hide LocalInv;
  }

  lemma DropOne(s: State, i: nat) returns (s': State)
    requires Inv(s) && (s.vm.Starting? || s.vm.Waiting?) && i < |s.threads| && ToDrop(s.threads[i].place) > 0
    requires s.threads[i].place.ToVm? ==> s.safepointLock.Free?
    ensures Nearer(s, s')
  {
    var t := s.threads[i];
    assert ThreadInv(s, i);
    if t.buffer != [] {
      hide Inv;
      s' := DrainOne(s, i);
    } else {
      MovesToDrop(t, s.sync);
      s' := Next(s, Move(i, false)).value;
      LocksParts(s, i, Advance(t, s.sync, false).value);
      hide Inv, Nearer, Advance, LocksMoved;
      OneThread(s, Move(i, false), s', i);
    }
  }

  lemma StoresToRest(t: Thread, sync: Sync)
    requires Stores(t.place) && t.buffer == []
    ensures Advance(t, sync, false).Some?
    ensures var u := Advance(t, sync, false).value; ToRest(u.place) + |u.buffer| < ToRest(t.place)
  {
    hide Advance;
    AdvanceStores(t, sync, false);
  }

  lemma WaitsToRest(t: Thread, sync: Sync)
    requires Waits(t.place) && t.buffer == []
    ensures Advance(t, sync, false).Some?
    ensures var u := Advance(t, sync, false).value; ToRest(u.place) + |u.buffer| < ToRest(t.place)
  {
    hide Advance;
    AdvanceWaits(t, sync, false);
  }

  lemma LooksToRest(t: Thread, sync: Sync)
    requires Looks(t.place) && t.buffer == [] && sync.NotSynchronized? && !t.requested && !t.suspended
    ensures Advance(t, sync, false).Some?
    ensures var u := Advance(t, sync, false).value; ToRest(u.place) + |u.buffer| < ToRest(t.place)
  {
  }

  /** A thread that nobody stops gets on towards Java. */
  lemma MovesToRest(t: Thread, sync: Sync)
    requires LocalInv(t) && t.buffer == [] && sync.NotSynchronized? && !t.place.Java?
    requires !t.requested || ThreadsLockPlace(t.place) || SafepointLockPlace(t.place)
    ensures Advance(t, sync, false).Some?
    ensures var u := Advance(t, sync, false).value; u.requested == t.requested && ToRest(u.place) + |u.buffer| < ToRest(t.place)
  {
    assert t.suspended ==> t.requested && (t.place.Suspended? || t.place.Halted?);
    hide LocalInv, Advance, ToRest;
    if Stores(t.place) {
      StoresToRest(t, sync);
    } else if Waits(t.place) {
      WaitsToRest(t, sync);
    } else {
      LooksToRest(t, sync);
    }
    AdvancePlaces(t, sync, false);
  }

  lemma RestOne(s: State, i: nat) returns (s': State)
    requires Inv(s) && s.vm.Idle? && i < |s.threads| && !Resting(s.threads[i])
    requires (s.threadsLock == Held(i) || s.threadsLock.Free?) && (s.safepointLock == Held(i) || s.safepointLock.Free?)
    ensures Nearer(s, s')
  {
    var t := s.threads[i];
    assert ThreadInv(s, i);
    assert s.sync.NotSynchronized?;
    if t.buffer != [] {
      hide Inv;
      s' := DrainOne(s, i);
    } else if t.requested && !ThreadsLockPlace(t.place) && !SafepointLockPlace(t.place) {
      s' := Put(s, i, t.(requested := false, suspended := false));
      hide Inv, Nearer;
      OneThread(s, Resume(i), s', i);
    } else {
      MovesToRest(t, s.sync);
      var u := Advance(t, s.sync, false).value;
      assert Locks(s, i, u).Some?;
      s' := Locks(s, i, u).value;
      LocksParts(s, i, u);
      hide Inv, Nearer, Advance, LocksMoved, Locks;
      OneThread(s, Move(i, false), s', i);
    }
  }

  lemma {:induction false} SomeOutstanding(threads: seq<Thread>) returns (i: nat)
    requires Outstanding(threads) > 0
    ensures i < |threads| && IsOutstanding(threads[i])
  {
    var last := |threads| - 1;
    if IsOutstanding(threads[last]) {
      i := last;
    } else {
      i := SomeOutstanding(threads[..last]);
    }
  }

  lemma WaitOne(s: State) returns (s': State)
    requires Inv(s) && s.vm.Waiting?
    ensures Nearer(s, s')
  {
    if s.safepointLock.Held? {
      var i := s.safepointLock.thread;
      assert ThreadInv(s, i);
      hide Inv;
      s' := DropOne(s, i);
    } else if s.waiting <= 0 {
      s' := NextVm(s).value;
      hide Inv, Nearer, Left;
      OneStage(s, VmMove, s');
    } else {
      var i := SomeOutstanding(s.threads);
      assert ThreadInv(s, i);
      hide Inv;
      s' := DropOne(s, i);
    }
  }

  lemma StartOne(s: State) returns (s': State)
    requires Inv(s) && s.vm.Starting?
    ensures Nearer(s, s')
  {
    if s.safepointLock.Held? {
      var i := s.safepointLock.thread;
      assert ThreadInv(s, i);
      hide Inv;
      s' := DropOne(s, i);
    } else {
      s' := NextVm(s).value;
      hide Inv, Nearer, Left;
      OneStage(s, VmMove, s');
    }
  }

  lemma RestartOne(s: State) returns (s': State)
    requires Inv(s) && s.vm.Restarting?
    ensures Nearer(s, s')
  {
    if i :| 0 <= i < |s.threads| && !s.threads[i].kind.Running? {
      s' := Put(s, i, s.threads[i].(kind := Running, calledBack := false));
      hide Inv, Nearer;
      OneThread(s, Restart(i), s', i);
    } else {
      s' := NextVm(s).value;
      hide Inv, Nearer, Left;
      OneStage(s, VmMove, s');
    }
  }

  lemma IdleOne(s: State) returns (s': State)
    requires Inv(s) && s.vm.Idle? && !AtRest(s)
    ensures Nearer(s, s')
  {
    if s.threadsLock.Held? {
      HolderRests(s, s.threadsLock.thread);
      s' := HolderMoves(s, s.threadsLock.thread);
    } else if s.safepointLock.Held? {
      HolderRests(s, s.safepointLock.thread);
      s' := RestOne(s, s.safepointLock.thread);
    } else {
      var i :| 0 <= i < |s.threads| && !Resting(s.threads[i]);
      hide Inv;
      s' := RestOne(s, i);
    }
  }

  lemma HolderRests(s: State, i: nat)
    requires Inv(s) && i < |s.threads| && (s.threadsLock == Held(i) || s.safepointLock == Held(i))
    ensures !Resting(s.threads[i])
  {
    assert ThreadInv(s, i);
    hide LocalInv, KindInv, Outstanding;
  }

  /** A thread with the Threads_lock needs no other lock. */
  lemma HolderMoves(s: State, i: nat) returns (s': State)
    requires Inv(s) && s.vm.Idle? && i < |s.threads| && s.threadsLock == Held(i)
    ensures Nearer(s, s')
  {
    var t := s.threads[i];
    assert ThreadInv(s, i);
    assert s.sync.NotSynchronized?;
    if t.buffer != [] {
      hide Inv;
      s' := DrainOne(s, i);
    } else {
      MovesToRest(t, s.sync);
      var u := Advance(t, s.sync, false).value;
      s' := Locks(s, i, u).value;
      LocksParts(s, i, u);
      hide Inv, Nearer, Advance, LocksMoved, Locks;
      OneThread(s, Move(i, false), s', i);
    }
  }

  /** Unless all are at rest, some action brings them nearer to it. */
  lemma Forward(s: State) returns (s': State)
    requires Inv(s) && !AtRest(s)
    ensures Nearer(s, s')
  {
    match s.vm
    case Idle => s' := IdleOne(s);
    case Starting => s' := StartOne(s);
    case Waiting => s' := WaitOne(s);
    case Restarting => s' := RestartOne(s);
    case Examining =>
      hide Nearer;
      if s.looked.Some? {
        s' := JudgeLooked(s);
      } else if i :| 0 <= i < |s.threads| && s.threads[i].kind.Running? {
        s' := ExamineOne(s, i);
      } else {
        s' := NextVm(s).value;
        hide Inv, Left;
        OneStage(s, VmMove, s');
      }
    case _ => s' := StageOne(s);
  }

  /** The stages in which the VM thread waits for nothing but its own stores. */
  lemma StageOne(s: State) returns (s': State)
    requires Inv(s)
    requires s.vm.Counting? || s.vm.Publishing? || s.vm.Marking? || s.vm.Arrived? || s.vm.Operating? || s.vm.Ending?
             || s.vm.Unpublishing? || s.vm.Leaving?
    ensures Nearer(s, s')
  {
    if s.vmBuffer.Some? {
      s' := s.(sync := s.vmBuffer.value, vmBuffer := None);
      hide Inv, Nearer;
      OneStage(s, VmReach, s');
    } else {
      if s.vm.Operating? && s.safepointLock.Held? {
        OperatingFree(s, s.safepointLock.thread);
      }
      s' := NextVm(s).value;
      hide Inv, Nearer, Left;
      OneStage(s, VmMove, s');
    }
  }

  lemma OperatingFree(s: State, i: nat)
    requires Inv(s) && s.vm.Operating? && i < |s.threads|
    ensures s.safepointLock != Held(i)
  {
    hide LocalInv, Outstanding;
    assert ThreadInv(s, i);
  }

  lemma {:induction false} InvCanRest(s: State) returns (s': State)
    requires Inv(s)
    ensures Leads(s, s') && AtRest(s')
    decreases Stages(s.vm), Left(s)
  {
    hide Inv, AtRest, Leads, Left;
    Stays(s);
    s' := s;
    if !AtRest(s) {
      var s1 := Forward(s);
      s' := InvCanRest(s1);
      Joins(s, s1, s');
    }
  }

  /** From every reachable state the system can come to rest: no lock and no wait keeps it for good. */
  lemma CanRest(s: State)
    requires Reachable(s)
    ensures exists s' :: Leads(s, s') && AtRest(s')
  {
    ReachableInv(s);
    hide Inv;
    var s' := InvCanRest(s);
  }
}
