/**
 The arithmetic of interpreter frames, in bytes: where a call puts the parts of the callee's
 frame, and the second copy of that arithmetic which deoptimization uses.
 */
module FrameLayout {
  import opened Common

  const WORD := 8
  const ALIGNMENT := 16
  const PARENT_ABI := 64
  const TOP_ABI := 112
  const STATE_SIZE := 184
  const MONITOR_SIZE := 16
  const REGISTER_PARAMETERS := 8

  datatype Method = Method(params: nat, maxLocals: nat, maxStack: nat, resultSlots: nat, synchronized: bool,
                           native: bool, isStatic: bool, mirror: int) {
    /** Methods as the class file parser lets them through. */
    predicate Wf() { resultSlots <= 2 && (native || params <= maxLocals) }

    /** Operand stack slots; a native method needs room for its argument vector instead. */
    function StackSlots(): nat {
      if !native then maxStack
      else if params + 2 < REGISTER_PARAMETERS then REGISTER_PARAMETERS else params + 2
    }

    function ExtraLocals(): nat
      requires Wf()
    {
      if native then maxLocals else maxLocals - params
    }

    function Monitors(): nat { if synchronized then 1 else 0 }
  }

  /** Up to the alignment of frames, for negative sizes as well. */
  function AlignUp(n: int): (r: int)
    ensures n <= r < n + ALIGNMENT && r % ALIGNMENT == 0
  {
    RoundUp(n, ALIGNMENT)
  }

  /**
   A native method has room for its parameters with the JNI environment and the class mirror, and for
   as many words as there are parameter registers, whichever is more; a Java method for its stack.
   */
  lemma SlotsAre(m: Method)
    ensures !m.native ==> m.StackSlots() == m.maxStack
    ensures m.native ==> m.params + 2 <= m.StackSlots() && 8 <= m.StackSlots()
    ensures m.native ==> m.StackSlots() == m.params + 2 || m.StackSlots() == 8
    ensures m.Wf() && !m.native ==> m.params + m.ExtraLocals() == m.maxLocals
  {
  }

  /** Addresses of the parts of a frame that a call creates. */
  datatype Layout = Layout(fp: int, sp: int, state: int, stackBase: int, tos: int, stackLimit: int, locals: int)

  function MonitorBytes(monitors: nat): int { MONITOR_SIZE * monitors }

  /** Size of a live top frame. */
  function LiveTopSize(slots: nat, monitors: nat): int {
    AlignUp(TOP_ABI + STATE_SIZE + WORD * slots + MonitorBytes(monitors))
  }

  function TopFrameSize(m: Method): int { LiveTopSize(m.StackSlots(), m.Monitors()) }

  /** How much the caller's frame grows, or shrinks if negative. */
  function ParentFrameResize(sp: int, tos: int, m: Method): int
    requires m.Wf()
  {
    AlignUp(sp - tos + PARENT_ABI + 2 * WORD + WORD * m.ExtraLocals())
  }

  function CallLayout(sp: int, tos: int, m: Method): Layout
    requires m.Wf()
  {
    var fp := sp - ParentFrameResize(sp, tos, m);
    var state := fp - STATE_SIZE;
    var stackBase := state - MONITOR_SIZE * m.Monitors();
    Layout(fp, fp - TopFrameSize(m), state, stackBase, stackBase - WORD,
           stackBase - WORD - WORD * m.StackSlots(), tos + WORD * m.params)
  }

  /** The relations between the parts that everything else rests on. */
  lemma LayoutFacts(sp: int, tos: int, m: Method)
    requires m.Wf()
    ensures var l := CallLayout(sp, tos, m);
            && l.fp == sp - ParentFrameResize(sp, tos, m) && l.sp == l.fp - TopFrameSize(m)
            && l.fp + PARENT_ABI + 2 * WORD + WORD * m.ExtraLocals() <= tos
            && l.state == l.fp - STATE_SIZE && l.locals == tos + WORD * m.params
            && l.stackBase == l.state - MONITOR_SIZE * m.Monitors()
            && l.tos == l.stackBase - WORD && l.stackLimit == l.tos - WORD * m.StackSlots()
            && l.sp + TOP_ABI <= l.stackBase - WORD * m.StackSlots()
            && TopFrameSize(m) >= TOP_ABI + STATE_SIZE
  {
  }

  /** Half-open byte ranges of the new frame, from the stack pointer upwards. */
  datatype Region = Region(lo: int, hi: int)

  function Regions(l: Layout, tos: int, m: Method): seq<Region>
    requires m.Wf()
  {
    [ Region(l.sp, l.sp + TOP_ABI),
      Region(l.stackLimit + WORD, l.stackBase),                                // operand stack
      Region(l.stackBase, l.state),                                            // monitors
      Region(l.state, l.fp),                                                   // interpreter state
      Region(l.fp, l.fp + PARENT_ABI),
      Region(tos - WORD * m.ExtraLocals() - WORD, tos - WORD * m.ExtraLocals() + WORD), // result
      Region(tos - WORD * m.ExtraLocals() + WORD, tos + WORD),                 // other locals
      Region(tos + WORD, l.locals + WORD) ]                                    // parameters
  }

  predicate InOrder(rs: seq<Region>) {
    && (forall i :: 0 <= i < |rs| ==> rs[i].lo <= rs[i].hi)
    && (forall i :: 0 <= i < |rs| - 1 ==> rs[i].hi <= rs[i + 1].lo)
  }

  lemma {:induction false} OrderedApart(rs: seq<Region>, i: nat, j: nat)
    requires InOrder(rs) && i < j < |rs|
    ensures rs[i].hi <= rs[j].lo
  {
    if i + 1 < j {
      OrderedApart(rs, i, j - 1);
      assert rs[j - 1].hi <= rs[j - 1 + 1].lo;
    }
  }

  /** Both stack pointers are aligned, whatever the sign of the resize. */
  lemma LayoutAligned(sp: int, tos: int, m: Method)
    requires m.Wf() && sp % ALIGNMENT == 0
    ensures CallLayout(sp, tos, m).fp % ALIGNMENT == 0 && CallLayout(sp, tos, m).sp % ALIGNMENT == 0
  {
    AlignedDifference(sp, ParentFrameResize(sp, tos, m));
    AlignedDifference(sp - ParentFrameResize(sp, tos, m), TopFrameSize(m));
  }

  lemma AlignedDifference(x: int, y: int)
    requires x % ALIGNMENT == 0 && y % ALIGNMENT == 0
    ensures (x - y) % ALIGNMENT == 0 && (x + y) % ALIGNMENT == 0
  {
    var a, b := x / ALIGNMENT, y / ALIGNMENT;
    assert x == ALIGNMENT * a && y == ALIGNMENT * b;
    assert x - y == ALIGNMENT * (a - b) && x + y == ALIGNMENT * (a + b);
  }

  /** The parts of the new frame are in order and pairwise apart. */
  lemma LayoutInOrder(sp: int, tos: int, m: Method)
    requires m.Wf()
    ensures var rs := Regions(CallLayout(sp, tos, m), tos, m);
            InOrder(rs) && forall i, j :: 0 <= i < j < |rs| ==> rs[i].hi <= rs[j].lo
  {
    var rs := Regions(CallLayout(sp, tos, m), tos, m);
    assert InOrder(rs);
    forall i, j | 0 <= i < j < |rs|
      ensures rs[i].hi <= rs[j].lo
    {
      OrderedApart(rs, i, j);
    }
  }

  /**
   And nothing is wasted: the parts have their sizes and follow on each other, except for what the
   alignment takes above the top ABI area and above the parent ABI area, where one more word is free.
   */
  lemma LayoutTight(sp: int, tos: int, m: Method)
    requires m.Wf()
    ensures var rs := Regions(CallLayout(sp, tos, m), tos, m);
            && rs[0].hi <= rs[1].lo < rs[0].hi + 16 && rs[1].hi == rs[2].lo && rs[2].hi == rs[3].lo && rs[3].hi == rs[4].lo
            && rs[4].hi + 8 <= rs[5].lo < rs[4].hi + 24 && rs[5].hi == rs[6].lo && rs[6].hi == rs[7].lo
    ensures var rs := Regions(CallLayout(sp, tos, m), tos, m);
            forall i :: 0 <= i < |rs| ==>
              rs[i].hi - rs[i].lo ==
              [112, 8 * m.StackSlots(), if m.synchronized then 16 else 0, 184, 64, 16, 8 * m.ExtraLocals(), 8 * m.params][i]
  {
    hide AlignUp;
  }

  /** Where the callee's frame starts depends on the caller's stack top alone, not on its unused part. */
  lemma TrimmedToTos(sp: int, sp': int, tos: int, m: Method)
    requires m.Wf() && sp % ALIGNMENT == 0 && sp' % ALIGNMENT == 0
    ensures CallLayout(sp, tos, m) == CallLayout(sp', tos, m)
  {
    var x, y := CallLayout(sp, tos, m).fp, CallLayout(sp', tos, m).fp;
    AlignedDifference(sp, ParentFrameResize(sp, tos, m));
    AlignedDifference(sp', ParentFrameResize(sp', tos, m));
    AlignedDifference(x, y);
    assert -ALIGNMENT < x - y < ALIGNMENT;
  }

  /** The resize is negative once the caller has enough unused operand stack to give up. */
  lemma ResizeSign(sp: int, tos: int, m: Method)
    requires m.Wf()
    ensures ParentFrameResize(sp, tos, m) < 0 <==>
            sp + PARENT_ABI + 2 * WORD + WORD * m.ExtraLocals() + ALIGNMENT <= tos
  {
    var n := sp - tos + PARENT_ABI + 2 * WORD + WORD * m.ExtraLocals();
    assert AlignUp(n) % ALIGNMENT == 0;
  }

  // ----- Monitors added while the frame is live -----

  function AddMonitor(l: Layout): Layout {
    l.(sp := l.sp - MONITOR_SIZE, stackBase := l.stackBase - MONITOR_SIZE,
       tos := l.tos - MONITOR_SIZE, stackLimit := l.stackLimit - MONITOR_SIZE)
  }

  function AddMonitors(l: Layout, n: nat): Layout {
    if n == 0 then l else AddMonitor(AddMonitors(l, n - 1))
  }

  // ----- The deoptimizer's copy -----

  datatype DeoptLayout = DeoptLayout(state: int, stackBase: int, stack: int, stackLimit: int, frameBottom: int)

  function DeoptTopFrameSize(maxStack: nat, monitors: nat): int {
    AlignUp(STATE_SIZE + MonitorBytes(monitors) + maxStack * WORD + 2 * WORD) + TOP_ABI
  }

  /** Size of a frame in words. */
  function SizeActivation(maxStack: nat, temps: int, monitors: nat, calleeParams: nat, calleeLocals: nat, isTop: bool): int {
    (if isTop then DeoptTopFrameSize(maxStack, monitors)
     else AlignUp(STATE_SIZE + MonitorBytes(monitors) + (temps - calleeParams + calleeLocals) * WORD + 2 * WORD)
          + PARENT_ABI) / WORD
  }

  function LayoutActivation(fp: int, maxStack: nat, temps: nat, popframeArgs: nat, monitors: nat): DeoptLayout {
    var state := fp - STATE_SIZE;
    var stackBase := state - MonitorBytes(monitors);
    DeoptLayout(state, stackBase, stackBase - (temps + popframeArgs + 1) * WORD,
                stackBase - (maxStack + 1) * WORD, fp - DeoptTopFrameSize(maxStack, monitors))
  }

  /** First local of a frame whose caller is interpreted, from the caller's stack top. */
  function DeoptLocals(callerStack: int, m: Method): int { callerStack + m.params * WORD }

  /** Moving whole units out of a rounding. */
  lemma AlignUpShift(n: int, k: int)
    requires k % ALIGNMENT == 0
    ensures AlignUp(n + k) == AlignUp(n) + k
  {
    AlignedDifference(AlignUp(n), k);
    AlignedDifference(AlignUp(n + k), AlignUp(n) + k);
    assert -ALIGNMENT < AlignUp(n + k) - (AlignUp(n) + k) < ALIGNMENT;
  }

  /** Sizes in words lose nothing. */
  lemma WholeWords(n: int)
    ensures (AlignUp(n) + TOP_ABI) / WORD * WORD == AlignUp(n) + TOP_ABI
    ensures (AlignUp(n) + PARENT_ABI) / WORD * WORD == AlignUp(n) + PARENT_ABI
  {
    hide AlignUp;
    var q := AlignUp(n) / ALIGNMENT;
    assert AlignUp(n) + TOP_ABI == WORD * (2 * q + 14);
    assert AlignUp(n) + PARENT_ABI == WORD * (2 * q + 8);
  }

  /** A live top frame grows by exactly the monitor. */
  lemma LiveTopSizeGrows(slots: nat, monitors: nat)
    ensures LiveTopSize(slots, monitors + 1) == LiveTopSize(slots, monitors) + MONITOR_SIZE
  {
    AlignUpShift(TOP_ABI + STATE_SIZE + WORD * slots + MonitorBytes(monitors), MONITOR_SIZE);
  }

  lemma TopSizeFacts(slots: nat, monitors: nat)
    ensures LiveTopSize(slots, monitors) >= TOP_ABI + STATE_SIZE + WORD * slots + MonitorBytes(monitors)
    ensures LiveTopSize(slots, monitors) % ALIGNMENT == 0
  {
    hide AlignUp;
  }

  /** The deoptimizer's top frame is two words larger than a live one with as many monitors. */
  lemma DeoptTopSize(slots: nat, monitors: nat)
    ensures DeoptTopFrameSize(slots, monitors) == LiveTopSize(slots, monitors) + 2 * WORD
    ensures SizeActivation(slots, 0, monitors, 0, 0, true) * WORD == DeoptTopFrameSize(slots, monitors)
  {
    hide AlignUp;
    var n := STATE_SIZE + WORD * slots + MonitorBytes(monitors);
    AlignUpShift(n, TOP_ABI);
    AlignUpShift(n, 2 * WORD);
    WholeWords(n + 2 * WORD);
  }

  /** A frame rebuilt by deoptimization has the places of a live one, with a stack pointer two words lower. */
  predicate Agrees(deopt: DeoptLayout, live: Layout) {
    && deopt.state == live.state && deopt.stackBase == live.stackBase
    && deopt.stack == live.tos && deopt.stackLimit == live.stackLimit
    && deopt.frameBottom == live.sp - 2 * WORD
  }

  /** A frame as calls and added monitors leave it. */
  predicate Live(l: Layout, maxStack: nat, monitors: nat) {
    && l.state == l.fp - STATE_SIZE && l.sp == l.fp - LiveTopSize(maxStack, monitors)
    && l.stackBase == l.state - MonitorBytes(monitors) && l.tos == l.stackBase - WORD
    && l.stackLimit == l.tos - WORD * maxStack
  }

  lemma CallIsLive(sp: int, tos: int, m: Method)
    requires m.Wf()
    ensures Live(CallLayout(sp, tos, m), m.StackSlots(), m.Monitors())
  {
    hide AlignUp;
  }

  lemma {:induction false} AddMonitorsLive(l: Layout, maxStack: nat, monitors: nat, n: nat)
    requires Live(l, maxStack, monitors)
    ensures Live(AddMonitors(l, n), maxStack, monitors + n) && AddMonitors(l, n).fp == l.fp
  {
    hide AlignUp;
    if n > 0 {
      AddMonitorsLive(l, maxStack, monitors, n - 1);
      LiveTopSizeGrows(maxStack, monitors + n - 1);
    }
  }

  lemma LiveAgrees(l: Layout, maxStack: nat, monitors: nat)
    requires Live(l, maxStack, monitors)
    ensures Agrees(LayoutActivation(l.fp, maxStack, 0, 0, monitors), l)
  {
    hide AlignUp;
    DeoptTopSize(maxStack, monitors);
  }

  /** So a Java frame that was called and has grown monitors agrees with the one rebuilt for it. */
  lemma DeoptAgrees(sp: int, tos: int, m: Method, grown: nat)
    requires m.Wf() && !m.native
    ensures var live := AddMonitors(CallLayout(sp, tos, m), grown);
            && Agrees(LayoutActivation(live.fp, m.maxStack, 0, 0, m.Monitors() + grown), live)
            && SizeActivation(m.maxStack, 0, m.Monitors() + grown, 0, 0, true) * WORD == live.fp - live.sp + 2 * WORD
  {
    hide AlignUp, CallLayout, LayoutActivation, SizeActivation, Agrees;
    CallIsLive(sp, tos, m);
    AddMonitorsLive(CallLayout(sp, tos, m), m.maxStack, m.Monitors(), grown);
    LiveAgrees(AddMonitors(CallLayout(sp, tos, m), grown), m.maxStack, m.Monitors() + grown);
    DeoptTopSize(m.maxStack, m.Monitors() + grown);
  }

  /** Size of a live frame below the top, with depth slots in use when it made the call. */
  function LiveParentSize(monitors: nat, depth: nat, callee: Method): int
    requires callee.Wf()
  {
    AlignUp(STATE_SIZE + MonitorBytes(monitors) + WORD * (depth + 1)
            + PARENT_ABI + 2 * WORD + WORD * callee.ExtraLocals())
  }

  lemma LiveParentSizeIs(sp: int, fp: int, monitors: nat, depth: nat, callee: Method)
    requires callee.Wf() && sp % ALIGNMENT == 0 && fp % ALIGNMENT == 0
    ensures var tos := fp - STATE_SIZE - MonitorBytes(monitors) - WORD - WORD * depth;
            fp - CallLayout(sp, tos, callee).fp == LiveParentSize(monitors, depth, callee)
  {
    var tos := fp - STATE_SIZE - MonitorBytes(monitors) - WORD - WORD * depth;
    var n := sp - tos + PARENT_ABI + 2 * WORD + WORD * callee.ExtraLocals();
    AlignedDifference(fp, sp);
    AlignUpShift(n, fp - sp);
  }

  /**
   Below the top the two copies do not agree: the deoptimizer leaves out the free slot above the
   arguments, and so comes out 16 bytes short for an odd number of slots.
   */
  lemma ParentSizesDiffer(monitors: nat, depth: nat, maxStack: nat, callee: Method)
    requires callee.Wf() && !callee.native
    ensures var live := LiveParentSize(monitors, depth, callee);
            var deopt := SizeActivation(maxStack, depth, monitors, callee.params, callee.maxLocals, false) * WORD;
            && (deopt == live <==> (depth + callee.ExtraLocals()) % 2 == 0)
            && (deopt == live - ALIGNMENT <==> (depth + callee.ExtraLocals()) % 2 == 1)
  {
    hide AlignUp;
    var slots := depth + callee.ExtraLocals();
    var n := STATE_SIZE + MonitorBytes(monitors) + slots * WORD + 2 * WORD;
    assert depth - callee.params + callee.maxLocals == slots;
    AlignUpShift(n, PARENT_ABI);
    WholeWords(n);
    HalfUnit(n + PARENT_ABI, slots, monitors);
  }

  lemma HalfUnit(n: int, slots: nat, monitors: nat)
    requires n == STATE_SIZE + MonitorBytes(monitors) + slots * WORD + 2 * WORD + PARENT_ABI
    ensures slots % 2 == 1 ==> n % ALIGNMENT == 0 && AlignUp(n) == n && AlignUp(n + WORD) == n + ALIGNMENT
    ensures slots % 2 == 0 ==> n % ALIGNMENT == WORD && AlignUp(n) == n + WORD && AlignUp(n + WORD) == n + WORD
  {
    var h := slots / 2;
    assert slots == 2 * h + slots % 2;
  }
}
