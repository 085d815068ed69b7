/**
 Returning from a native method while the VM thread brings the system to a safepoint.

 Any number of Java threads run against one VM thread. Each Java thread has a store buffer whose
 entries reach memory in any order that release barriers and same-location order allow, so
 another thread may see its stores late and out of order. A fence, and the fence inside taking or
 dropping a VM lock, waits for the buffer to empty.
 */
module Safepoint {
  import opened Common

  // ----- Java threads -----

  datatype ThreadState = InJavaState | InNativeState | NativeTransState | InVmState | BlockedState

  /** A store that another thread may not have seen yet, or a release barrier. */
  datatype Entry = Barrier | PutState(state: ThreadState) | PutSp(sp: int) | PutPc(pc: int)

  predicate SameLocation(e: Entry, f: Entry) {
    (e.PutState? && f.PutState?) || (e.PutSp? && f.PutSp?) || (e.PutPc? && f.PutPc?)
  }

  /** Where a Java thread is in its code. "To" places wait for a fence or for a lock. */
  datatype Place =
    | Java          // running Java code
    | AnchorSet     // frame anchor stored, before the change to native
    | ToNative
    | InNative      // in the native function
    | ToTrans
    | Check         // about to load the safepoint state and the suspend flags
    | Slow          // in the slow path, about to look at the suspend request
    | ToSuspend
    | Suspended
    | FromSuspend
    | SlowCheck     // about to load the safepoint state in the slow path
    | ToBlock       // blocked, waiting for the Threads_lock
    | Released      // got the Threads_lock
    | Restored      // state restored, Threads_lock still held
    | Checked       // about to change to Java
    | ToJava
    | BackInJava    // about to clear the frame anchor
    | ToVm          // at a poll, waiting for the Safepoint_lock
    | InVm          // got the Safepoint_lock
    | Reported      // blocked, Safepoint_lock still held
    | LinedUp       // blocked, waiting for the Threads_lock
    | Resumed       // got the Threads_lock
    | ResumedInJava // state restored, Threads_lock still held
    // The end of blocking, after a native call or at a poll:
    | Unblocked(poll: bool)  // Threads_lock dropped, about to look at the suspend request
    | ToHalt(poll: bool)
    | Halted(poll: bool)     // self-suspended with the restored state

  datatype Anchor = Anchor(sp: int, pc: int)

  /** How the VM thread has classified a thread. */
  datatype Kind = Running | AtSafepoint | CallBack

  /**
   One Java thread: its place and store buffer, the anchor it has set last, what memory shows of
   it (state, anchor), whether it has suspended itself and whether it has been asked to, and the VM
   thread's record of it. The suspend flags are set with a lock, and not buffered.
   */
  datatype Thread = Thread(
    place: Place, buffer: seq<Entry>, own: Anchor,
    state: ThreadState, seen: Anchor, suspended: bool, requested: bool,
    kind: Kind, calledBack: bool)

  const CLEARED := Anchor(0, 0)

  function Issue(t: Thread, state: ThreadState, place: Place): Thread {
    t.(buffer := t.buffer + [Barrier, PutState(state)], place := place)
  }

  function IssueAnchor(t: Thread, entries: seq<Entry>, anchor: Anchor, place: Place): Thread {
    t.(buffer := t.buffer + entries, own := anchor, place := place)
  }

  function Fence(t: Thread, place: Place): Option<Thread> {
    if t.buffer == [] then Some(t.(place := place)) else None
  }

  /** An entry may leave the buffer when no barrier and no store to its location is ahead of it. */
  predicate MayDrain(buffer: seq<Entry>, k: nat)
    requires k < |buffer|
  {
    if buffer[k].Barrier? then k == 0
    else forall j :: 0 <= j < k ==> !buffer[j].Barrier? && !SameLocation(buffer[j], buffer[k])
  }

  function Drain(t: Thread, k: nat): Option<Thread> {
    if k < |t.buffer| && MayDrain(t.buffer, k) then
      var u := t.(buffer := t.buffer[..k] + t.buffer[k + 1..]);
      Some(match t.buffer[k]
           case Barrier => u
           case PutState(v) => u.(state := v)
           case PutSp(x) => u.(seen := u.seen.(sp := x))
           case PutPc(x) => u.(seen := u.seen.(pc := x)))
    else None
  }

  datatype Sync = NotSynchronized | Synchronizing | Synchronized

  /** Suspending itself, or staying so, as long as there is a request; waits for the buffer as taking a lock does. */
  function SuspendSelf(t: Thread, place: Place, onward: Thread): Option<Thread> {
    if t.buffer != [] || t.suspended then None
    else if t.requested then Some(t.(suspended := true, place := place))
    else Some(onward)
  }

  /**
   The next step of a thread's own code, given the safepoint state it would load, and whether it
   would find a suspend flag other than the request. The locks are looked after by Next.
   */
  function Advance(t: Thread, sync: Sync, flag: bool): Option<Thread> {
    match t.place
    case Java => None
    case AnchorSet => Some(Issue(t, InNativeState, ToNative))
    case ToNative => Fence(t, InNative)
    case InNative => Some(Issue(t, NativeTransState, ToTrans))
    case ToTrans => Fence(t, Check)
    case Check => Some(t.(place := if sync.NotSynchronized? && !t.requested && !flag then Checked else Slow))
    case Slow => if t.requested then Some(Issue(t, BlockedState, ToSuspend)) else Some(t.(place := SlowCheck))
    case ToSuspend | Suspended => SuspendSelf(t, Suspended, Issue(t, NativeTransState, FromSuspend))
    case FromSuspend => Fence(t, SlowCheck)
    case SlowCheck => if sync.NotSynchronized? then Some(t.(place := Checked)) else Some(Issue(t, BlockedState, ToBlock))
    case ToBlock => Fence(t, Released)
    case Released => Some(Issue(t, NativeTransState, Restored))
    case Restored => Fence(t, Unblocked(false))
    case Checked => Some(Issue(t, InJavaState, ToJava))
    case ToJava => Fence(t, BackInJava)
    case BackInJava => Some(IssueAnchor(t, [PutSp(0), PutPc(0)], CLEARED, Java))
    case ToVm => Fence(t, InVm)
    case InVm => Some(Issue(t, BlockedState, Reported))
    case Reported => Fence(t, LinedUp)
    case LinedUp => Fence(t, Resumed)
    case Resumed => Some(Issue(t, InJavaState, ResumedInJava))
    case ResumedInJava => Fence(t, Unblocked(true))
    case Unblocked(poll) => Some(t.(place := if t.requested then ToHalt(poll) else AfterBlock(poll)))
    case ToHalt(_) | Halted(_) => SuspendSelf(t, Halted(t.place.poll), t.(place := AfterBlock(t.place.poll)))
  }

  function AfterBlock(poll: bool): Place { if poll then Java else Checked }

  // ----- The whole system -----

  datatype Owner = Free | Vm | Held(thread: nat)

  /** Where the VM thread is. */
  datatype VmPlace =
    | Idle
    | Starting      // Threads_lock
    | Counting      // Threads_lock, Safepoint_lock
    | Publishing    // _synchronizing stored, both locks
    | Examining     // fence done, both locks
    | Waiting       // every thread classified, Safepoint_lock released while waiting
    | Marking       // _synchronized stored, both locks
    | Arrived       // fence done, both locks
    | Operating     // the safepoint operation, Threads_lock
    | Ending        // both locks
    | Unpublishing  // _not_synchronized stored, both locks
    | Restarting    // fence done, both locks
    | Leaving       // Safepoint_lock

  /** A thread state that the VM thread has loaded and not yet acted on. */
  datatype Look = Look(thread: nat, state: ThreadState)

  datatype State = State(
    threads: seq<Thread>, sync: Sync, vmBuffer: Option<Sync>, vm: VmPlace,
    waiting: int, looked: Option<Look>, threadsLock: Owner, safepointLock: Owner)

  datatype Action =
    | Move(i: nat, flag: bool)            // a thread's own code
    | CallNative(i: nat, anchor: Anchor)
    | Poll(i: nat)
    | Reach(i: nat, k: nat)               // a buffered store reaches memory
    | Request(i: nat)                     // another thread asks for a suspension
    | Resume(i: nat)                      // another thread lifts it
    | VmReach
    | VmMove
    | Load(i: nat)                        // the two steps of examining a thread
    | Judge
    | Restart(i: nat)

  function Put(s: State, i: nat, t: Thread): State
    requires i < |s.threads|
  {
    s.(threads := s.threads[i := t])
  }

  /** The locks a thread takes and drops on leaving a place, and the count it keeps. */
  function Locks(s: State, i: nat, t: Thread): Option<State>
    requires i < |s.threads|
  {
    match s.threads[i].place
    case ToBlock | LinedUp =>
      if s.threadsLock.Free? then Some(Put(s, i, t).(threadsLock := Held(i))) else None
    case Restored | ResumedInJava => Some(Put(s, i, t).(threadsLock := Free))
    case ToVm => if s.safepointLock.Free? then Some(Put(s, i, t).(safepointLock := Held(i))) else None
    case InVm =>
      if s.sync.Synchronizing? then Some(Put(s, i, t.(calledBack := true)).(waiting := s.waiting - 1))
      else Some(Put(s, i, t))
    case Reported => Some(Put(s, i, t).(safepointLock := Free))
    case _ => Some(Put(s, i, t))
  }

  function NextVm(s: State): Option<State> {
    match s.vm
    case Idle => if s.threadsLock.Free? then Some(s.(threadsLock := Vm, vm := Starting)) else None
    case Starting =>
      if s.safepointLock.Free? then Some(s.(safepointLock := Vm, waiting := |s.threads|, vm := Counting)) else None
    case Counting => Some(s.(vmBuffer := Some(Synchronizing), vm := Publishing))
    case Publishing => if s.vmBuffer.None? then Some(s.(vm := Examining)) else None
    case Examining =>
      if s.looked.Some? then None
      else if exists i :: 0 <= i < |s.threads| && s.threads[i].kind.Running? then None
      else if s.waiting > 0 then Some(s.(safepointLock := Free, vm := Waiting))
      else Some(s.(vmBuffer := Some(Synchronized), vm := Marking))
    case Waiting =>
      if s.safepointLock.Free? && s.waiting <= 0
      then Some(s.(safepointLock := Vm, vmBuffer := Some(Synchronized), vm := Marking)) else None
    case Marking => if s.vmBuffer.None? then Some(s.(vm := Arrived)) else None
    case Arrived => Some(s.(safepointLock := Free, vm := Operating))
    case Operating => if s.safepointLock.Free? then Some(s.(safepointLock := Vm, vm := Ending)) else None
    case Ending => Some(s.(vmBuffer := Some(NotSynchronized), vm := Unpublishing))
    case Unpublishing => if s.vmBuffer.None? then Some(s.(vm := Restarting)) else None
    case Restarting =>
      if exists i :: 0 <= i < |s.threads| && !s.threads[i].kind.Running? then None
      else Some(s.(threadsLock := Free, vm := Leaving))
    case Leaving => Some(s.(safepointLock := Free, vm := Idle))
  }

  /** What the VM thread makes of a thread, from the state it loaded and then the suspend flag. */
  function Classify(state: ThreadState, suspended: bool): Kind {
    if suspended || state.InNativeState? || state.BlockedState? then AtSafepoint
    else if state.InVmState? then CallBack
    else Running
  }

  function Next(s: State, a: Action): Option<State> {
    match a
    case Move(i, flag) =>
      if i >= |s.threads| then None
      else (match Advance(s.threads[i], s.sync, flag)
            case None => None
            case Some(t) => Locks(s, i, t))
    case CallNative(i, anchor) =>
      if i < |s.threads| && s.threads[i].place.Java? && anchor.sp != 0 && anchor.pc != 0 then
        Some(Put(s, i, IssueAnchor(s.threads[i], [PutPc(anchor.pc), PutSp(anchor.sp)], anchor, AnchorSet)))
      else None
    case Poll(i) =>
      if i < |s.threads| && s.threads[i].place.Java? then Some(Put(s, i, Issue(s.threads[i], InVmState, ToVm))) else None
    case Reach(i, k) =>
      if i >= |s.threads| then None
      else (match Drain(s.threads[i], k)
            case None => None
            case Some(t) => Some(Put(s, i, t)))
    case Request(i) =>
      if i < |s.threads| then Some(Put(s, i, s.threads[i].(requested := true))) else None
    case Resume(i) =>
      if i < |s.threads| && s.threads[i].requested && s.threadsLock.Free?
      then Some(Put(s, i, s.threads[i].(requested := false, suspended := false))) else None
    case VmReach =>
      if s.vmBuffer.Some? then Some(s.(sync := s.vmBuffer.value, vmBuffer := None)) else None
    case VmMove => NextVm(s)
    case Load(i) =>
      if s.vm.Examining? && s.looked.None? && i < |s.threads| && s.threads[i].kind.Running?
      then Some(s.(looked := Some(Look(i, s.threads[i].state)))) else None
    case Judge =>
      if s.looked.Some? && s.looked.value.thread < |s.threads| then
        var i := s.looked.value.thread;
        var kind := Classify(s.looked.value.state, s.threads[i].suspended);
        Some(Put(s, i, s.threads[i].(kind := kind, calledBack := false))
             .(looked := None, waiting := if kind.AtSafepoint? then s.waiting - 1 else s.waiting))
      else None
    case Restart(i) =>
      if s.vm.Restarting? && i < |s.threads|
      then Some(Put(s, i, s.threads[i].(kind := Running, calledBack := false))) else None
  }

  function Initial(n: nat): State {
    State(seq(n, _ => Thread(Java, [], CLEARED, InJavaState, CLEARED, false, false, Running, false)),
          NotSynchronized, None, Idle, 0, None, Free, Free)
  }

  function Run(s: State, actions: seq<Action>): Option<State> {
    if actions == [] then Some(s)
    else match Run(s, actions[..|actions| - 1])
      case None => None
      case Some(s') => Next(s', actions[|actions| - 1])
  }

  /** The states that some number of threads can get to, in any interleaving. */
  ghost predicate Reachable(s: State) {
    exists n: nat, actions: seq<Action> :: Run(Initial(n), actions) == Some(s)
  }

  // ----- What holds of one thread on its own -----

  /** The state a thread has stored last, in its own order. */
  function Target(p: Place): ThreadState {
    match p
    case Java | AnchorSet | ToJava | BackInJava | ResumedInJava => InJavaState
    case ToNative | InNative => InNativeState
    case ToTrans | Check | Slow | FromSuspend | SlowCheck | Restored | Checked => NativeTransState
    case ToVm | InVm => InVmState
    case ToSuspend | Suspended | ToBlock | Released | Reported | LinedUp | Resumed => BlockedState
    case Unblocked(_) | ToHalt(_) | Halted(_) => if p.poll then InJavaState else NativeTransState
  }

  /** The state before that one, which memory may still show. */
  function Previous(p: Place): Option<ThreadState> {
    match p
    case ToNative | ToVm => Some(InJavaState)
    case ToTrans => Some(InNativeState)
    case ToSuspend | ToBlock | ToJava => Some(NativeTransState)
    case FromSuspend | Restored | ResumedInJava => Some(BlockedState)
    case Reported => Some(InVmState)
    case _ => None
  }

  predicate IsAnchorStore(e: Entry) { e.PutSp? || e.PutPc? }

  /** At most one state store is pending; it comes last, and with everything else behind its barrier. */
  predicate Shaped(b: seq<Entry>) {
    && (forall k :: 0 <= k < |b| && b[k].PutState? ==> k == |b| - 1 && (k == 0 || b[k - 1].Barrier?))
    && (forall k :: 0 <= k < |b| && b[k].Barrier? ==> k == |b| - 2 && b[k + 1].PutState?)
  }

  function LatestSp(b: seq<Entry>, seen: int): int {
    if b == [] then seen
    else if b[|b| - 1].PutSp? then b[|b| - 1].sp
    else LatestSp(b[..|b| - 1], seen)
  }

  function LatestPc(b: seq<Entry>, seen: int): int {
    if b == [] then seen
    else if b[|b| - 1].PutPc? then b[|b| - 1].pc
    else LatestPc(b[..|b| - 1], seen)
  }

  predicate Unsent(b: seq<Entry>) { b != [] && b[|b| - 1].PutState? }

  /** Between setting the frame anchor for a native call and clearing it. */
  predicate InCall(p: Place) {
    match p
    case Java | ToVm | InVm | Reported | LinedUp | Resumed | ResumedInJava => false
    case Unblocked(_) | ToHalt(_) | Halted(_) => !p.poll
    case _ => true
  }

  predicate LatestInv(t: Thread) {
    LatestSp(t.buffer, t.seen.sp) == t.own.sp && LatestPc(t.buffer, t.seen.pc) == t.own.pc
  }

  /** Memory shows the state stored last, unless that store is pending, when it shows the one before. */
  predicate SentInv(t: Thread) {
    if Unsent(t.buffer)
    then t.buffer[|t.buffer| - 1] == PutState(Target(t.place)) && Previous(t.place) == Some(t.state)
    else t.state == Target(t.place) && (t.place.Java? || t.place.AnchorSet? || t.buffer == [])
  }

  /** Stores to the anchor are pending only around Java code. */
  predicate QuietInv(t: Thread) {
    t.place.Java? || t.place.AnchorSet? || t.place.ToNative? || t.place.ToVm? ||
    forall k :: 0 <= k < |t.buffer| ==> !IsAnchorStore(t.buffer[k])
  }

  predicate FlagInv(t: Thread) {
    && (t.suspended ==> t.requested && (t.place.Suspended? || t.place.Halted?))
    && (InCall(t.place) <==> t.own.sp != 0) && (t.own.sp == 0 <==> t.own.pc == 0)
  }

  predicate LocalInv(t: Thread) {
    Shaped(t.buffer) && LatestInv(t) && SentInv(t) && QuietInv(t) && FlagInv(t)
  }

  lemma LatestAppend(b: seq<Entry>, e: Entry, sp: int, pc: int)
    ensures LatestSp(b + [e], sp) == if e.PutSp? then e.sp else LatestSp(b, sp)
    ensures LatestPc(b + [e], pc) == if e.PutPc? then e.pc else LatestPc(b, pc)
  {
    assert (b + [e])[..|b|] == b;
  }

  lemma NoStateStores(b: seq<Entry>)
    requires Shaped(b) && !Unsent(b)
    ensures forall k :: 0 <= k < |b| ==> IsAnchorStore(b[k])
  {
  }

  lemma LatestAppendTwo(b: seq<Entry>, e: Entry, f: Entry, sp: int, pc: int)
    ensures LatestSp(b + [e, f], sp) == if f.PutSp? then f.sp else if e.PutSp? then e.sp else LatestSp(b, sp)
    ensures LatestPc(b + [e, f], pc) == if f.PutPc? then f.pc else if e.PutPc? then e.pc else LatestPc(b, pc)
  {
    LatestAppend(b, e, sp, pc);
    LatestAppend(b + [e], f, sp, pc);
    assert b + [e] + [f] == b + [e, f];
  }

  lemma ShapedAppend(b: seq<Entry>, state: ThreadState)
    requires forall k :: 0 <= k < |b| ==> IsAnchorStore(b[k])
    ensures Shaped(b + [Barrier, PutState(state)])
  {
  }

  lemma IssueKeeps(t: Thread, state: ThreadState, place: Place)
    requires LocalInv(t) && !Unsent(t.buffer) && Target(place) == state && Previous(place) == Some(t.state)
    requires place.ToNative? || place.ToVm? || t.buffer == []
    requires !t.suspended && InCall(place) == InCall(t.place)
    ensures LocalInv(Issue(t, state, place))
  {
    NoStateStores(t.buffer);
    ShapedAppend(t.buffer, state);
    LatestAppendTwo(t.buffer, Barrier, PutState(state), t.seen.sp, t.seen.pc);
    hide Shaped, LatestSp, LatestPc, Target, Previous, InCall;
  }

  lemma AnchorKeeps(t: Thread, e: Entry, f: Entry, anchor: Anchor, place: Place)
    requires LocalInv(t) && !Unsent(t.buffer) && Target(place) == t.state && (place.Java? || place.AnchorSet?)
    requires (e == PutSp(anchor.sp) && f == PutPc(anchor.pc)) || (e == PutPc(anchor.pc) && f == PutSp(anchor.sp))
    requires !t.suspended && (place.AnchorSet? <==> anchor.sp != 0) && (anchor.sp == 0 <==> anchor.pc == 0)
    ensures LocalInv(IssueAnchor(t, [e, f], anchor, place))
  {
    NoStateStores(t.buffer);
    LatestAppendTwo(t.buffer, e, f, t.seen.sp, t.seen.pc);
    assert Shaped(t.buffer + [e, f]);
    hide Shaped, LatestSp, LatestPc, Target, Previous;
  }

  /** Moving on without a store, from memory that shows the state stored last. */
  lemma PlaceKeeps(t: Thread, suspended: bool, place: Place)
    requires LocalInv(t) && !Unsent(t.buffer) && t.buffer == [] && Target(place) == t.state
    requires InCall(place) == InCall(t.place) && (suspended ==> t.requested && (place.Suspended? || place.Halted?))
    ensures LocalInv(t.(suspended := suspended, place := place))
  {
    hide Shaped, LatestSp, LatestPc, Target, Previous, InCall;
  }

  lemma FenceKeeps(t: Thread, place: Place)
    requires LocalInv(t) && Fence(t, place).Some? && Target(place) == Target(t.place)
    requires InCall(place) == InCall(t.place) && !t.suspended
    ensures LocalInv(Fence(t, place).value)
  {
    hide Shaped, LatestSp, LatestPc, Target, Previous, InCall;
    PlaceKeeps(t, false, place);
  }

  /** Where a step of its own code takes a thread. */
  function Successor(p: Place, sync: Sync, requested: bool, flag: bool): Place {
    match p
    case Java => Java
    case AnchorSet => ToNative
    case ToNative => InNative
    case InNative => ToTrans
    case ToTrans => Check
    case Check => if sync.NotSynchronized? && !requested && !flag then Checked else Slow
    case Slow => if requested then ToSuspend else SlowCheck
    case ToSuspend | Suspended => if requested then Suspended else FromSuspend
    case FromSuspend => SlowCheck
    case SlowCheck => if sync.NotSynchronized? then Checked else ToBlock
    case ToBlock => Released
    case Released => Restored
    case Restored => Unblocked(false)
    case Checked => ToJava
    case ToJava => BackInJava
    case BackInJava => Java
    case ToVm => InVm
    case InVm => Reported
    case Reported => LinedUp
    case LinedUp => Resumed
    case Resumed => ResumedInJava
    case ResumedInJava => Unblocked(true)
    case Unblocked(poll) => if requested then ToHalt(poll) else AfterBlock(poll)
    case ToHalt(_) | Halted(_) => if requested then Halted(p.poll) else AfterBlock(p.poll)
  }

  /** Places with a store next, places that wait for the buffer to empty, and places with a load next. */
  predicate Stores(p: Place) {
    p.AnchorSet? || p.InNative? || p.Released? || p.Checked? || p.BackInJava? || p.InVm? || p.Resumed?
  }

  predicate Waits(p: Place) {
    || p.ToNative? || p.ToTrans? || p.FromSuspend? || p.ToBlock? || p.Restored? || p.ToJava? || p.ToVm? || p.Reported?
    || p.LinedUp? || p.ResumedInJava?
  }

  predicate Looks(p: Place) {
    || p.Check? || p.Slow? || p.SlowCheck? || p.ToSuspend? || p.Suspended? || p.Unblocked? || p.ToHalt? || p.Halted?
  }

  lemma AdvanceStores(t: Thread, sync: Sync, flag: bool)
    requires Stores(t.place)
    ensures var next := Successor(t.place, sync, t.requested, flag);
            Advance(t, sync, flag) == Some(if t.place.BackInJava? then IssueAnchor(t, [PutSp(0), PutPc(0)], CLEARED, Java)
                                           else Issue(t, Target(next), next))
  {
    hide Issue, IssueAnchor;
  }

  lemma AdvanceWaits(t: Thread, sync: Sync, flag: bool)
    requires Waits(t.place)
    ensures Advance(t, sync, flag) == Fence(t, Successor(t.place, sync, t.requested, flag))
  {
    hide Fence;
  }

  lemma StoreKeeps(t: Thread, sync: Sync, flag: bool)
    requires LocalInv(t) && Stores(t.place)
    ensures Advance(t, sync, flag).Some? && LocalInv(Advance(t, sync, flag).value)
  {
    assert !t.suspended && !Unsent(t.buffer) && t.state == Target(t.place) && (t.place.AnchorSet? || t.buffer == []);
    hide LocalInv, Issue, IssueAnchor;
    match t.place
    case AnchorSet => IssueKeeps(t, InNativeState, ToNative);
    case InNative => IssueKeeps(t, NativeTransState, ToTrans);
    case Released => IssueKeeps(t, NativeTransState, Restored);
    case Checked => IssueKeeps(t, InJavaState, ToJava);
    case BackInJava => AnchorKeeps(t, PutSp(0), PutPc(0), CLEARED, Java);
    case InVm => IssueKeeps(t, BlockedState, Reported);
    case Resumed => IssueKeeps(t, InJavaState, ResumedInJava);
  }

  lemma WaitKeeps(t: Thread, sync: Sync, flag: bool)
    requires LocalInv(t) && Waits(t.place) && Advance(t, sync, flag).Some?
    ensures LocalInv(Advance(t, sync, flag).value)
  {
    assert !t.suspended;
    AdvanceWaits(t, sync, flag);
    hide LocalInv, Advance;
    FenceKeeps(t, Successor(t.place, sync, t.requested, flag));
  }

  lemma AdvanceKeeps(t: Thread, sync: Sync, flag: bool)
    requires LocalInv(t) && Advance(t, sync, flag).Some?
    ensures LocalInv(Advance(t, sync, flag).value)
  {
    assert !t.place.Java?;
    hide LocalInv, Advance;
    if Stores(t.place) {
      StoreKeeps(t, sync, flag);
    } else if Waits(t.place) {
      WaitKeeps(t, sync, flag);
    } else {
      AdvanceLooks(t, sync, flag);
    }
  }

  /** The steps that depend on the safepoint state or the suspend flags. */
  lemma AdvanceLooks(t: Thread, sync: Sync, flag: bool)
    requires LocalInv(t) && Advance(t, sync, flag).Some? && Looks(t.place)
    ensures LocalInv(Advance(t, sync, flag).value)
  {
    hide Shaped, LatestSp, LatestPc, Issue, IssueAnchor;
    var u := Advance(t, sync, flag).value;
    if t.place.Slow? && t.requested {
      IssueKeeps(t, BlockedState, ToSuspend);
    } else if (t.place.ToSuspend? || t.place.Suspended?) && !t.requested {
      IssueKeeps(t, NativeTransState, FromSuspend);
    } else if t.place.SlowCheck? && !sync.NotSynchronized? {
      IssueKeeps(t, BlockedState, ToBlock);
    } else {
      PlaceKeeps(t, u.suspended, u.place);
    }
  }

  /** A store that reaches memory does not change what its thread stored last. */
  lemma {:induction false} DrainLatest(b: seq<Entry>, k: nat, sp: int, pc: int)
    requires k < |b| && MayDrain(b, k)
    ensures LatestSp(b, sp) == LatestSp(b[..k] + b[k + 1..], if b[k].PutSp? then b[k].sp else sp)
    ensures LatestPc(b, pc) == LatestPc(b[..k] + b[k + 1..], if b[k].PutPc? then b[k].pc else pc)
  {
    var last := |b| - 1;
    if k == last {
      assert b[..k] + b[k + 1..] == b[..last];
      NoneAhead(b[..last], b[k], sp, pc);
    } else {
      DrainLatest(b[..last], k, sp, pc);
      LatestAppend(b[..k] + b[k + 1..last], b[last], if b[k].PutSp? then b[k].sp else sp, if b[k].PutPc? then b[k].pc else pc);
      assert b[..k] + b[k + 1..last] + [b[last]] == b[..k] + b[k + 1..];
      assert b[..last][..k] + b[..last][k + 1..] == b[..k] + b[k + 1..last];
    }
  }

  lemma {:induction false} NoneAhead(b: seq<Entry>, e: Entry, sp: int, pc: int)
    requires forall j :: 0 <= j < |b| ==> !SameLocation(b[j], e)
    ensures e.PutSp? ==> LatestSp(b, e.sp) == e.sp
    ensures e.PutPc? ==> LatestPc(b, e.pc) == e.pc
  {
    if b != [] {
      NoneAhead(b[..|b| - 1], e, sp, pc);
    }
  }

  lemma DrainShape(b: seq<Entry>, k: nat)
    requires k < |b| && MayDrain(b, k) && Shaped(b)
    ensures Shaped(b[..k] + b[k + 1..])
    ensures b[k].PutState? ==> b == [b[k]]
    ensures !b[k].PutState? ==> Unsent(b[..k] + b[k + 1..]) == Unsent(b)
    ensures !b[k].PutState? && Unsent(b) ==>
              (b[..k] + b[k + 1..])[|b| - 2] == b[|b| - 1]
  {
    var c := b[..k] + b[k + 1..];
    assert forall j :: 0 <= j < |c| ==> c[j] == if j < k then b[j] else b[j + 1];
    assert k > 0 && !b[k].Barrier? ==> !b[k - 1].Barrier?;
  }

  lemma DrainSent(t: Thread, k: nat)
    requires Shaped(t.buffer) && SentInv(t) && Drain(t, k).Some?
    ensures SentInv(Drain(t, k).value)
  {
    var b := t.buffer;
    DrainShape(b, k);
    hide Shaped, MayDrain, Target, Previous;
    assert b[k].PutState? ==> b[..k] + b[k + 1..] == [];
    assert |b[..k] + b[k + 1..]| == |b| - 1;
  }

  lemma DrainQuiet(t: Thread, k: nat)
    requires QuietInv(t) && Drain(t, k).Some?
    ensures QuietInv(Drain(t, k).value)
  {
    hide MayDrain;
    var b := t.buffer;
    var c := b[..k] + b[k + 1..];
    assert forall j :: 0 <= j < |c| ==> c[j] == if j < k then b[j] else b[j + 1];
  }

  lemma DrainKeeps(t: Thread, k: nat)
    requires LocalInv(t) && Drain(t, k).Some?
    ensures LocalInv(Drain(t, k).value)
  {
    DrainLatest(t.buffer, k, t.seen.sp, t.seen.pc);
    DrainShape(t.buffer, k);
    DrainSent(t, k);
    DrainQuiet(t, k);
    hide Shaped, MayDrain, LatestSp, LatestPc, SentInv, QuietInv, InCall, SameLocation;
  }

  // ----- What holds of the whole system -----

  predicate VmHasThreadsLock(vm: VmPlace) { !vm.Idle? && !vm.Leaving? }

  predicate VmHasSafepointLock(vm: VmPlace) {
    !vm.Idle? && !vm.Starting? && !vm.Waiting? && !vm.Operating?
  }

  /** The VM thread has classified some threads, and is not done with them. */
  predicate Stopping(vm: VmPlace, sync: Sync) {
    && (vm.Examining? || vm.Waiting? || vm.Marking? || vm.Arrived? || vm.Operating? || vm.Ending? || vm.Unpublishing?)
    && !sync.NotSynchronized?
  }

  /** The VM thread has gone past waiting for the others. */
  predicate Stopped(vm: VmPlace, sync: Sync) {
    Stopping(vm, sync) && !vm.Examining? && !vm.Waiting?
  }

  predicate SyncInv(vm: VmPlace, sync: Sync, buffer: Option<Sync>) {
    match vm
    case Idle | Starting | Counting | Restarting | Leaving => sync.NotSynchronized? && buffer.None?
    case Publishing =>
      (sync.NotSynchronized? && buffer == Some(Synchronizing)) || (sync.Synchronizing? && buffer.None?)
    case Examining | Waiting => sync.Synchronizing? && buffer.None?
    case Marking => (sync.Synchronizing? && buffer == Some(Synchronized)) || (sync.Synchronized? && buffer.None?)
    case Arrived | Operating | Ending => sync.Synchronized? && buffer.None?
    case Unpublishing =>
      (sync.Synchronized? && buffer == Some(NotSynchronized)) || (sync.NotSynchronized? && buffer.None?)
  }

  /** In native code, or on the way out of it and certain to block before Java, or blocked. */
  predicate SafePlace(t: Thread) {
    match t.place
    case InNative | ToTrans | Check | Slow | ToSuspend | Suspended | FromSuspend | SlowCheck | ToBlock | LinedUp => true
    case ToNative => t.buffer == []
    case Halted(_) => t.suspended
    case _ => false
  }

  predicate ThreadsLockPlace(p: Place) { p.Released? || p.Restored? || p.Resumed? || p.ResumedInJava? }

  predicate SafepointLockPlace(p: Place) { p.InVm? || p.Reported? }

  predicate KindInv(t: Thread, vm: VmPlace, sync: Sync) {
    && (vm.Idle? || vm.Starting? || vm.Counting? || vm.Publishing? || vm.Leaving? ==> t.kind.Running?)
    && (vm.Waiting? || Stopped(vm, sync) ==> !t.kind.Running?)
    && (Stopping(vm, sync) && t.kind.AtSafepoint? ==> SafePlace(t))
    && (Stopping(vm, sync) && t.kind.CallBack? ==>
          if t.calledBack then t.place.Reported? || t.place.LinedUp? else t.place.ToVm? || t.place.InVm?)
    && (Stopped(vm, sync) && t.kind.CallBack? ==> t.place.LinedUp?)
  }

  predicate LockInv(t: Thread, i: nat, threadsLock: Owner, safepointLock: Owner) {
    && (threadsLock == Held(i) <==> ThreadsLockPlace(t.place))
    && (safepointLock == Held(i) <==> SafepointLockPlace(t.place))
  }

  /** A thread that the VM thread still has to hear from. */
  predicate IsOutstanding(t: Thread) { t.kind.Running? || (t.kind.CallBack? && !t.calledBack) }

  function Outstanding(threads: seq<Thread>): nat {
    if threads == [] then 0
    else Outstanding(threads[..|threads| - 1]) + if IsOutstanding(threads[|threads| - 1]) then 1 else 0
  }

  predicate LookInv(s: State) {
    s.looked.Some? ==>
      && s.vm.Examining? && s.looked.value.thread < |s.threads|
      && var t := s.threads[s.looked.value.thread];
      && t.kind.Running?
      && (s.looked.value.state.InNativeState? || s.looked.value.state.BlockedState? ==> SafePlace(t))
      && (s.looked.value.state.InVmState? ==> t.place.ToVm?)
  }

  predicate CountInv(s: State) {
    s.vm.Counting? || s.vm.Publishing? || s.vm.Examining? || s.vm.Waiting? ==> s.waiting == Outstanding(s.threads)
  }

  predicate ThreadInv(s: State, i: nat)
    requires i < |s.threads|
  {
    && LocalInv(s.threads[i])
    && LockInv(s.threads[i], i, s.threadsLock, s.safepointLock)
    && KindInv(s.threads[i], s.vm, s.sync)
  }

  predicate VmInv(s: State) {
    && SyncInv(s.vm, s.sync, s.vmBuffer)
    && (s.threadsLock.Vm? <==> VmHasThreadsLock(s.vm))
    && (s.safepointLock.Vm? <==> VmHasSafepointLock(s.vm))
    && (s.threadsLock.Held? ==> s.threadsLock.thread < |s.threads|)
    && (s.safepointLock.Held? ==> s.safepointLock.thread < |s.threads|)
  }

  ghost predicate Inv(s: State) {
    && VmInv(s) && LookInv(s) && CountInv(s)
    && forall i :: 0 <= i < |s.threads| ==> ThreadInv(s, i)
  }

  // ----- Counting -----

  function One(t: Thread): nat { if IsOutstanding(t) then 1 else 0 }

  lemma {:induction false} OutstandingUpdate(threads: seq<Thread>, i: nat, t: Thread)
    requires i < |threads|
    ensures Outstanding(threads[i := t]) == Outstanding(threads) - One(threads[i]) + One(t)
  {
    var last := |threads| - 1;
    if i == last {
      assert threads[i := t][..last] == threads[..last];
    } else {
      OutstandingUpdate(threads[..last], i, t);
      assert threads[i := t][..last] == threads[..last][i := t];
    }
  }

  lemma {:induction false} AllOutstanding(threads: seq<Thread>)
    requires forall i :: 0 <= i < |threads| ==> threads[i].kind.Running?
    ensures Outstanding(threads) == |threads|
  {
    if threads != [] {
      AllOutstanding(threads[..|threads| - 1]);
    }
  }

  lemma {:induction false} NoneOutstanding(threads: seq<Thread>, i: nat)
    requires Outstanding(threads) == 0 && i < |threads|
    ensures !IsOutstanding(threads[i])
  {
    if i < |threads| - 1 {
      NoneOutstanding(threads[..|threads| - 1], i);
    }
  }

  // ----- Steps of a Java thread -----

  /** What one thread's step may do to the rest, and what it must establish for itself. */
  lemma PutKeeps(s: State, i: nat, t: Thread, s': State)
    requires Inv(s) && i < |s.threads|
    requires s' == Put(s, i, t).(threadsLock := s'.threadsLock, safepointLock := s'.safepointLock, waiting := s'.waiting)
    requires s'.threadsLock == s.threadsLock
             || (s.threadsLock.Free? && s'.threadsLock == Held(i)) || (s.threadsLock == Held(i) && s'.threadsLock.Free?)
    requires s'.safepointLock == s.safepointLock
             || (s.safepointLock.Free? && s'.safepointLock == Held(i)) || (s.safepointLock == Held(i) && s'.safepointLock.Free?)
    requires ThreadInv(s', i) && LookInv(s')
    requires s.waiting - s'.waiting == One(s.threads[i]) - One(t)
    ensures Inv(s')
  {
    hide LocalInv, KindInv;
    OutstandingUpdate(s.threads, i, t);
    forall j | 0 <= j < |s'.threads|
      ensures ThreadInv(s', j)
    {
      assert ThreadInv(s, j);
    }
  }

  /** What a step of its own code leaves of a thread. */
  predicate Advanced(t: Thread, sync: Sync, flag: bool, u: Thread) {
    && u.place == Successor(t.place, sync, t.requested, flag) && u.kind == t.kind && u.calledBack == t.calledBack
    && u.requested == t.requested && (t.suspended ==> u.suspended) && (u.place.Halted? ==> u.suspended)
    && (u.own == t.own || u.own == CLEARED)
  }

  lemma StoresAdvanced(t: Thread, sync: Sync, flag: bool)
    requires Stores(t.place)
    ensures Advance(t, sync, flag).Some? && Advanced(t, sync, flag, Advance(t, sync, flag).value)
  {
    hide Advance;
    AdvanceStores(t, sync, flag);
  }

  lemma WaitsAdvanced(t: Thread, sync: Sync, flag: bool)
    requires Waits(t.place) && Advance(t, sync, flag).Some?
    ensures Advanced(t, sync, flag, Advance(t, sync, flag).value)
  {
    hide Advance;
    AdvanceWaits(t, sync, flag);
  }

  lemma LooksAdvanced(t: Thread, sync: Sync, flag: bool)
    requires Looks(t.place) && Advance(t, sync, flag).Some?
    ensures Advanced(t, sync, flag, Advance(t, sync, flag).value)
  {
  }

  lemma AdvancePlaces(t: Thread, sync: Sync, flag: bool)
    requires Advance(t, sync, flag).Some?
    ensures Advanced(t, sync, flag, Advance(t, sync, flag).value)
  {
    assert !t.place.Java?;
    hide Advance, Advanced;
    if Stores(t.place) {
      StoresAdvanced(t, sync, flag);
    } else if Waits(t.place) {
      WaitsAdvanced(t, sync, flag);
    } else {
      LooksAdvanced(t, sync, flag);
    }
  }

  predicate Reports(p: Place, sync: Sync) { p.InVm? && sync.Synchronizing? }

  /** The locks before and after a step that leaves place p. */
  predicate LocksMoved(p: Place, i: nat, s: State, s': State) {
    && (p.ToBlock? || p.LinedUp? ==> s.threadsLock.Free? && s'.threadsLock == Held(i))
    && (p.Restored? || p.ResumedInJava? ==> s'.threadsLock.Free?)
    && (p.ToBlock? || p.LinedUp? || p.Restored? || p.ResumedInJava? || s'.threadsLock == s.threadsLock)
    && (p.ToVm? ==> s.safepointLock.Free? && s'.safepointLock == Held(i))
    && (p.Reported? ==> s'.safepointLock.Free?)
    && (p.ToVm? || p.Reported? || s'.safepointLock == s.safepointLock)
    && s'.waiting == s.waiting - (if Reports(p, s.sync) then 1 else 0)
  }

  lemma LocksParts(s: State, i: nat, t: Thread)
    requires i < |s.threads| && Locks(s, i, t).Some?
    ensures var s' := Locks(s, i, t).value;
            var p := s.threads[i].place;
            && s' == Put(s, i, t.(calledBack := t.calledBack || Reports(p, s.sync)))
                     .(threadsLock := s'.threadsLock, safepointLock := s'.safepointLock, waiting := s'.waiting)
            && LocksMoved(p, i, s, s')
  {
    assert t == t.(calledBack := t.calledBack);
  }

  lemma SuccessorLocks(t: Thread, u: Thread, i: nat, s: State, s': State, flag: bool)
    requires VmInv(s) && LockInv(t, i, s.threadsLock, s.safepointLock)
    requires u.place == Successor(t.place, s.sync, t.requested, flag) && LocksMoved(t.place, i, s, s')
    ensures LockInv(u, i, s'.threadsLock, s'.safepointLock)
  {
    hide SyncInv;
  }

  /** A thread is heard from only in its turn, so the count stays right. */
  lemma ReportsOnce(t: Thread, i: nat, s: State)
    requires VmInv(s) && LockInv(t, i, s.threadsLock, s.safepointLock) && KindInv(t, s.vm, s.sync)
    requires Reports(t.place, s.sync)
    ensures t.kind.CallBack? && !t.calledBack && s.vm.Waiting?
  {
  }

  /**
   The step that matters: with the safepoint state visibly set and the Threads_lock taken, a
   thread classified as safe finds no way on to Java.
   */
  lemma SuccessorKind(t: Thread, u: Thread, i: nat, s: State, flag: bool)
    requires VmInv(s) && LockInv(t, i, s.threadsLock, s.safepointLock) && KindInv(t, s.vm, s.sync)
    requires u.place == Successor(t.place, s.sync, t.requested, flag) && u.kind == t.kind
    requires u.calledBack == (t.calledBack || Reports(t.place, s.sync)) && (u.place.Halted? ==> u.suspended)
    requires t.place.Halted? ==> !t.suspended
    requires t.place.ToBlock? || t.place.LinedUp? ==> s.threadsLock.Free?
    requires !t.place.Java?
    ensures KindInv(u, s.vm, s.sync)
  {
    if Reports(t.place, s.sync) {
      ReportsOnce(t, i, s);
    }
  }

  lemma SuccessorLook(s: State, i: nat, u: Thread, s': State, flag: bool)
    requires VmInv(s) && LookInv(s) && i < |s.threads| && LockInv(s.threads[i], i, s.threadsLock, s.safepointLock)
    requires u.place == Successor(s.threads[i].place, s.sync, s.threads[i].requested, flag) && u.kind == s.threads[i].kind
    requires !s.threads[i].place.Java? && (u.place.Halted? ==> u.suspended)
    requires s.threads[i].place.Halted? ==> !s.threads[i].suspended
    requires LocksMoved(s.threads[i].place, i, s, s')
    requires s'.threads == s.threads[i := u] && s'.vm == s.vm && s'.looked == s.looked
    ensures LookInv(s')
  {
  }

  lemma MoveKeeps(s: State, i: nat, flag: bool, s': State)
    requires Inv(s) && Next(s, Move(i, flag)) == Some(s')
    ensures Inv(s')
  {
    assert ThreadInv(s, i);
    var t := s.threads[i];
    var v := Advance(t, s.sync, flag).value;
    assert !t.place.Java?;
    AdvanceKeeps(t, s.sync, flag);
    AdvancePlaces(t, s.sync, flag);
    LocksParts(s, i, v);
    var u := v.(calledBack := v.calledBack || Reports(t.place, s.sync));
    assert LocalInv(u) by { hide Shaped, LatestSp, LatestPc, Unsent, Target, Previous, InCall, Advance; }
    hide LocalInv, KindInv, LockInv, LookInv, CountInv, VmInv, Advance, Locks, Successor, SyncInv, SafePlace;
    SuccessorLocks(t, u, i, s, s', flag);
    SuccessorKind(t, u, i, s, flag);
    SuccessorLook(s, i, u, s', flag);
    if Reports(t.place, s.sync) {
      ReportsOnce(t, i, s);
    }
    PutKeeps(s, i, u, s');
  }

  /** A step that leaves Java code: not one of a thread that has been classified. */
  lemma LeaveJavaKeeps(s: State, i: nat, u: Thread, s': State)
    requires Inv(s) && i < |s.threads| && s.threads[i].place.Java? && s' == Put(s, i, u)
    requires LocalInv(u) && (u.place.AnchorSet? || u.place.ToVm?)
    requires u.kind == s.threads[i].kind && u.calledBack == s.threads[i].calledBack
    ensures Inv(s')
  {
    assert ThreadInv(s, i);
    hide LocalInv, CountInv, SyncInv;
    PutKeeps(s, i, u, s');
  }

  lemma CallNativeKeeps(s: State, i: nat, anchor: Anchor, s': State)
    requires Inv(s) && Next(s, CallNative(i, anchor)) == Some(s')
    ensures Inv(s')
  {
    var t := s.threads[i];
    assert ThreadInv(s, i);
    AnchorKeeps(t, PutPc(anchor.pc), PutSp(anchor.sp), anchor, AnchorSet);
    LeaveJavaKeeps(s, i, IssueAnchor(t, [PutPc(anchor.pc), PutSp(anchor.sp)], anchor, AnchorSet), s');
  }

  lemma PollKeeps(s: State, i: nat, s': State)
    requires Inv(s) && Next(s, Poll(i)) == Some(s')
    ensures Inv(s')
  {
    var t := s.threads[i];
    assert ThreadInv(s, i);
    IssueKeeps(t, InVmState, ToVm);
    LeaveJavaKeeps(s, i, Issue(t, InVmState, ToVm), s');
  }

  /** A step that changes neither place nor record, as stores reaching memory do. */
  lemma StayKeeps(s: State, i: nat, u: Thread, s': State)
    requires Inv(s) && i < |s.threads| && s' == Put(s, i, u)
    requires LocalInv(u) && u.place == s.threads[i].place && (s.threads[i].buffer == [] ==> u.buffer == [])
    requires (s.threads[i].suspended ==> u.suspended) || s.threadsLock.Free?
    requires u.kind == s.threads[i].kind && u.calledBack == s.threads[i].calledBack
    ensures Inv(s')
  {
    assert ThreadInv(s, i);
    hide LocalInv, CountInv, SyncInv;
    PutKeeps(s, i, u, s');
  }

  lemma ReachKeeps(s: State, i: nat, k: nat, s': State)
    requires Inv(s) && Next(s, Reach(i, k)) == Some(s')
    ensures Inv(s')
  {
    assert ThreadInv(s, i);
    DrainKeeps(s.threads[i], k);
    var u := Drain(s.threads[i], k).value;
    hide LocalInv, Inv, MayDrain;
    StayKeeps(s, i, u, s');
  }

  lemma ResumeKeeps(s: State, i: nat, s': State)
    requires Inv(s) && Next(s, Resume(i)) == Some(s')
    ensures Inv(s')
  {
    assert ThreadInv(s, i);
    StayKeeps(s, i, s.threads[i].(requested := false, suspended := false), s');
  }

  lemma RequestKeeps(s: State, i: nat, s': State)
    requires Inv(s) && Next(s, Request(i)) == Some(s')
    ensures Inv(s')
  {
    assert ThreadInv(s, i);
    StayKeeps(s, i, s.threads[i].(requested := true), s');
  }

  // ----- Steps of the VM thread -----

  /** A thread seen in native code or blocked really is at a safe place. */
  lemma SeenSafe(t: Thread, i: nat, s: State)
    requires LocalInv(t) && LockInv(t, i, s.threadsLock, s.safepointLock)
    requires s.threadsLock.Vm? && s.safepointLock.Vm?
    ensures t.state.InNativeState? || t.state.BlockedState? ==> SafePlace(t)
    ensures t.state.InVmState? ==> t.place.ToVm?
    ensures t.suspended ==> SafePlace(t)
  {
    hide Shaped, LatestSp, LatestPc;
  }

  lemma LoadKeeps(s: State, i: nat, s': State)
    requires Inv(s) && Next(s, Load(i)) == Some(s')
    ensures Inv(s')
  {
    assert ThreadInv(s, i);
    SeenSafe(s.threads[i], i, s);
    hide LocalInv, KindInv, LockInv, SyncInv, Outstanding;
    forall j | 0 <= j < |s'.threads|
      ensures ThreadInv(s', j)
    {
      assert ThreadInv(s, j);
    }
  }

  lemma JudgeKeeps(s: State, s': State)
    requires Inv(s) && Next(s, Judge) == Some(s')
    ensures Inv(s')
  {
    var i := s.looked.value.thread;
    assert ThreadInv(s, i);
    var t := s.threads[i];
    SeenSafe(t, i, s);
    var u := t.(kind := Classify(s.looked.value.state, t.suspended), calledBack := false);
    assert LocalInv(u) by { hide Shaped, LatestSp, LatestPc, Unsent, Target, Previous, InCall; }
    hide LocalInv, SyncInv;
    RecordKeeps(s, i, u, s');
  }

  /** A step of the VM thread that changes only its record of one thread. */
  lemma RecordKeeps(s: State, i: nat, u: Thread, s': State)
    requires Inv(s) && i < |s.threads|
    requires s' == Put(s, i, u).(looked := None, waiting := s'.waiting)
    requires LocalInv(u) && u.place == s.threads[i].place && u.buffer == s.threads[i].buffer
    requires u.suspended == s.threads[i].suspended && KindInv(u, s.vm, s.sync)
    requires s.vm.Restarting? || s.waiting - s'.waiting == One(s.threads[i]) - One(u)
    ensures Inv(s')
  {
    hide LocalInv, KindInv, SyncInv, Outstanding;
    OutstandingUpdate(s.threads, i, u);
    forall j | 0 <= j < |s'.threads|
      ensures ThreadInv(s', j)
    {
      assert ThreadInv(s, j);
    }
  }

  lemma RestartKeeps(s: State, i: nat, s': State)
    requires Inv(s) && Next(s, Restart(i)) == Some(s')
    ensures Inv(s')
  {
    var u := s.threads[i].(kind := Running, calledBack := false);
    assert ThreadInv(s, i);
    assert LocalInv(u) by { hide Shaped, LatestSp, LatestPc, Unsent, Target, Previous, InCall; }
    hide LocalInv;
    RecordKeeps(s, i, u, s');
  }

  lemma VmReachKeeps(s: State, s': State)
    requires Inv(s) && Next(s, VmReach) == Some(s')
    ensures Inv(s')
  {
    hide LocalInv, LockInv, SafePlace, Outstanding;
    forall j | 0 <= j < |s'.threads|
      ensures ThreadInv(s', j)
    {
      assert ThreadInv(s, j);
    }
  }

  /** What the VM thread's move asks of each thread. */
  lemma VmMoveThread(s: State, s': State, j: nat)
    requires Inv(s) && NextVm(s) == Some(s') && j < |s.threads|
    ensures ThreadInv(s', j)
  {
    hide LocalInv, Outstanding;
    assert ThreadInv(s, j);
    if s'.vm.Marking? {
      NoneOutstanding(s.threads, j);
    }
  }

  lemma VmMoveKeeps(s: State, s': State)
    requires Inv(s) && Next(s, VmMove) == Some(s')
    ensures Inv(s')
  {
    hide ThreadInv, Outstanding;
    forall j | 0 <= j < |s'.threads|
      ensures ThreadInv(s', j)
    {
      VmMoveThread(s, s', j);
    }
    if s.vm.Starting? {
      AllRunning(s);
      AllOutstanding(s.threads);
    }
  }

  lemma AllRunning(s: State)
    requires Inv(s) && s.vm.Starting?
    ensures forall i :: 0 <= i < |s.threads| ==> s.threads[i].kind.Running?
  {
    hide LocalInv, LockInv;
    forall i | 0 <= i < |s.threads|
      ensures s.threads[i].kind.Running?
    {
      assert ThreadInv(s, i);
    }
  }

  // ----- Every run -----

  lemma NextKeeps(s: State, a: Action, s': State)
    requires Inv(s) && Next(s, a) == Some(s')
    ensures Inv(s')
  {
    hide Inv, Next;
    match a
    case Move(i, flag) => MoveKeeps(s, i, flag, s');
    case CallNative(i, anchor) => CallNativeKeeps(s, i, anchor, s');
    case Poll(i) => PollKeeps(s, i, s');
    case Reach(i, k) => ReachKeeps(s, i, k, s');
    case Request(i) => RequestKeeps(s, i, s');
    case Resume(i) => ResumeKeeps(s, i, s');
    case VmReach => VmReachKeeps(s, s');
    case VmMove => VmMoveKeeps(s, s');
    case Load(i) => LoadKeeps(s, i, s');
    case Judge => JudgeKeeps(s, s');
    case Restart(i) => RestartKeeps(s, i, s');
  }

  lemma {:induction false} RunKeeps(s: State, actions: seq<Action>)
    requires Inv(s) && Run(s, actions).Some?
    ensures Inv(Run(s, actions).value)
  {
    hide Inv, Next;
    if actions != [] {
      var last := |actions| - 1;
      RunKeeps(s, actions[..last]);
      NextKeeps(Run(s, actions[..last]).value, actions[last], Run(s, actions).value);
    }
  }

  lemma InitialInv(n: nat)
    ensures Inv(Initial(n))
  {
  }

  lemma ReachableInv(s: State)
    requires Reachable(s)
    ensures Inv(s)
  {
    hide Inv, Next, Initial, Run;
    var n: nat, actions: seq<Action> :| Run(Initial(n), actions) == Some(s);
    InitialInv(n);
    RunKeeps(Initial(n), actions);
  }

  /** Classified as safe in a safepoint that is still on. */
  predicate Counted(s: State, i: nat) {
    i < |s.threads| && s.threads[i].kind.AtSafepoint? && !s.sync.NotSynchronized?
  }

  predicate OutsideJava(state: ThreadState) {
    state.InNativeState? || state.NativeTransState? || state.BlockedState?
  }

  /** In no interleaving is a thread that counts as safe in Java, or past its last check on the way there. */
  lemma CountedIsOutside(s: State, i: nat)
    requires Reachable(s) && Counted(s, i)
    ensures SafePlace(s.threads[i]) && (OutsideJava(s.threads[i].state) || s.threads[i].suspended)
  {
    ReachableInv(s);
    assert ThreadInv(s, i);
    hide Shaped, LatestSp, LatestPc, Outstanding;
  }

  /** During the safepoint operation this is so of every thread, heard from or not. */
  lemma SynchronizedIsStopped(s: State, i: nat)
    requires Reachable(s) && s.sync.Synchronized? && i < |s.threads|
    ensures SafePlace(s.threads[i]) && (OutsideJava(s.threads[i].state) || s.threads[i].suspended) && s.threadsLock.Vm?
  {
    ReachableInv(s);
    assert ThreadInv(s, i);
    hide Shaped, LatestSp, LatestPc, Outstanding;
  }

  /** While the VM thread examines threads and waits, its count is exactly of those it still has to hear from. */
  lemma WaitingIsExact(s: State)
    requires Reachable(s) && (s.vm.Examining? || s.vm.Waiting?)
    ensures s.waiting == Outstanding(s.threads)
    ensures s.waiting == 0 ==> forall i :: 0 <= i < |s.threads| ==> !IsOutstanding(s.threads[i])
  {
    ReachableInv(s);
    hide LocalInv;
    if s.waiting == 0 {
      forall i | 0 <= i < |s.threads|
        ensures !IsOutstanding(s.threads[i])
      {
        NoneOutstanding(s.threads, i);
      }
    }
  }

  /**
   As long as memory shows a thread in any state but in_Java, it shows the anchor that the thread
   set last, both words of it; in native code or leaving it, that is the anchor of the call.
   */
  lemma AnchorVisible(s: State, i: nat)
    requires Reachable(s) && i < |s.threads| && !s.threads[i].state.InJavaState?
    ensures s.threads[i].seen == s.threads[i].own
    ensures s.threads[i].state.InNativeState? || s.threads[i].state.NativeTransState? ==> s.threads[i].seen.sp != 0
    ensures s.threads[i].seen.sp == 0 <==> s.threads[i].seen.pc == 0
  {
    ReachableInv(s);
    assert ThreadInv(s, i);
    var t := s.threads[i];
    assert t.seen == t.own by {
      NoAnchorStores(t.buffer, t.seen.sp, t.seen.pc);
    }
  }

  /** Thread i has set this anchor, both words together. */
  ghost predicate Given(actions: seq<Action>, i: nat, anchor: Anchor) {
    exists k :: 0 <= k < |actions| && actions[k] == CallNative(i, anchor)
  }

  /** A stack pointer with a pc that was never set with it, be it null or that of another frame. */
  ghost predicate Mixed(actions: seq<Action>, i: nat, anchor: Anchor) {
    anchor.sp != 0 && !Given(actions, i, anchor)
  }

  lemma OwnChanges(s: State, a: Action, s': State, i: nat)
    requires Next(s, a) == Some(s') && i < |s'.threads|
    ensures |s'.threads| == |s.threads|
    ensures s'.threads[i].own == s.threads[i].own || s'.threads[i].own == CLEARED || a == CallNative(i, s'.threads[i].own)
  {
    assert a.VmMove? ==> s'.threads == s.threads by { VmMoveThreads(s); }
    hide NextVm, MayDrain;
    if a.Move? {
      AdvancePlaces(s.threads[a.i], s.sync, a.flag);
      LocksParts(s, a.i, Advance(s.threads[a.i], s.sync, a.flag).value);
    }
    hide Advance, Locks, LocksMoved, Successor;
  }

  /** The anchor that a thread holds has been set by it. */
  lemma {:induction false} OwnWasGiven(n: nat, actions: seq<Action>, s: State, i: nat)
    requires Run(Initial(n), actions) == Some(s) && i < |s.threads| && s.threads[i].own.sp != 0
    ensures Given(actions, i, s.threads[i].own)
  {
    hide Next;
    if actions != [] {
      var last := |actions| - 1;
      var before := Run(Initial(n), actions[..last]).value;
      OwnChanges(before, actions[last], s, i);
      if s.threads[i].own == before.threads[i].own {
        OwnWasGiven(n, actions[..last], before, i);
        var k :| 0 <= k < last && actions[..last][k] == CallNative(i, s.threads[i].own);
        assert actions[k] == CallNative(i, s.threads[i].own);
      }
    }
  }

  /** So in any state but in_Java a stack pointer is only shown with the pc it was set with. */
  lemma NothingMixed(n: nat, actions: seq<Action>, s: State, i: nat)
    requires Run(Initial(n), actions) == Some(s) && i < |s.threads| && !s.threads[i].state.InJavaState?
    ensures !Mixed(actions, i, s.threads[i].seen)
  {
    hide Run, Initial, Given;
    AnchorVisible(s, i);
    if s.threads[i].seen.sp != 0 {
      OwnWasGiven(n, actions, s, i);
    }
  }

  lemma {:induction false} NoAnchorStores(b: seq<Entry>, sp: int, pc: int)
    requires forall k :: 0 <= k < |b| ==> !IsAnchorStore(b[k])
    ensures LatestSp(b, sp) == sp && LatestPc(b, pc) == pc
  {
    if b != [] {
      NoAnchorStores(b[..|b| - 1], sp, pc);
    }
  }

  // ----- Held for as long as the safepoint lasts -----

  ghost predicate SafepointLasts(s: State, actions: seq<Action>) {
    forall k :: 0 <= k <= |actions| ==>
      Run(s, actions[..k]).Some? && !Run(s, actions[..k]).value.sync.NotSynchronized?
  }

  lemma NextKeepsCounted(s: State, a: Action, s': State, i: nat)
    requires Inv(s) && Next(s, a) == Some(s') && Counted(s, i) && !s'.sync.NotSynchronized?
    ensures Counted(s', i)
  {
    hide LocalInv, KindInv, LockInv, CountInv, MayDrain, NextVm;
    assert a.VmMove? ==> s'.threads == s.threads by { VmMoveThreads(s); }
    assert a.Move? ==> s'.threads[i].kind == s.threads[i].kind by {
      if a.Move? {
        AdvancePlaces(s.threads[a.i], s.sync, a.flag);
        LocksParts(s, a.i, Advance(s.threads[a.i], s.sync, a.flag).value);
      }
    }
    hide Advance, Locks;
  }

  lemma VmMoveThreads(s: State)
    ensures NextVm(s).Some? ==> NextVm(s).value.threads == s.threads
  {
  }

  /** Once counted, a thread is held until the safepoint ends, whatever the others do meanwhile. */
  lemma {:induction false} HeldThroughout(s: State, actions: seq<Action>, i: nat)
    requires Inv(s) && Counted(s, i) && SafepointLasts(s, actions)
    ensures Run(s, actions).Some? && Counted(Run(s, actions).value, i) && SafePlace(Run(s, actions).value.threads[i])
  {
    hide Inv, Next;
    assert actions[..|actions|] == actions;
    if actions != [] {
      var last := |actions| - 1;
      forall k | 0 <= k <= last
        ensures actions[..last][..k] == actions[..k]
      {
      }
      HeldThroughout(s, actions[..last], i);
      RunKeeps(s, actions[..last]);
      NextKeepsCounted(Run(s, actions[..last]).value, actions[last], Run(s, actions).value, i);
    }
    RunKeeps(s, actions);
    CountedSafe(Run(s, actions).value, i);
  }

  lemma CountedSafe(s: State, i: nat)
    requires Inv(s) && Counted(s, i)
    ensures SafePlace(s.threads[i])
  {
    assert ThreadInv(s, i);
    hide LocalInv, LockInv, Outstanding;
  }
}
