# A model of the PPC64 C++ interpreter port and the Linux debugger agent

Three parts of the repository are modelled here, with proofs about them.

**The frame manager of the C++ interpreter** (`src/cpu/ppc/vm/cppInterpreter_ppc.cpp`). Generated code pushes,
resizes and pops interpreter frames in one flat memory, in answer to messages from the bytecode interpreter.
`FrameLayout` is the byte arithmetic of the frames, and the second copy of it that deoptimization uses. `CallStack`
says what calls, returns, exceptions, popped frames and new monitors mean, without addresses; the interpreter is any
function from how its requests went so far to what it does next. `FrameMemory` and `FrameManager` are the machine on
stack pointer, state registers and memory, and show that it does what `CallStack` says, for every run.
`Safepoint` is the protocol between native method returns and the VM thread, with a store buffer for each thread and
external suspension; `SafepointRaces` holds runs that show what the barriers are for, `Suspension` what a suspend request
is worth, and `Progress` that nobody gets stuck. `FrameAnchor` is the record of the last Java frame.

**The PPC64 assembler as a small compiler** (`assembler_ppc.*`). `Power` is the encoding of the modelled instructions,
`Machine` their meaning on 64-bit registers and memory as in section 3.3 of Power ISA Book I, and `Bits` the arithmetic
of bits they share. `Rotates`, `Constants`, `Addressing` and `Branches` are the macros: what they emit, run on
the machine, is what their callers ask for.

**The address-space reader of the Linux debugger agent** (`agent/src/os/linux`). `CoreImage`, `LibSegments`, `LinkMaps` and
`CoreFile` are the core dump reader: the first says on values what a lookup and a read mean, the second what the segments
of a library do to the mappings, the third how the debuggee's tables lead to the libraries, and the last has the growing
list, the sorted array and the loops. `PtraceRead` is the word-at-a-time reader of live processes. `DebugLinkCrc` is the table-driven CRC-32
of separate debug files, against the bit-by-bit one of section 8 of RFC 1952.

`Common` holds what several modules share.

Words and sizes are those of 64-bit PowerPC with the ELF ABI, version 1: a parent frame's ABI area has 64 bytes, a top
frame's 112, the interpreter state 184 (23 words), a monitor 16.

Where the code does something else than it, or its comments, promise, the model follows the code, and a lemma says
exactly when the promise holds:

- `andi` with the immediate 0 copies the register instead of clearing it (`Rotates.AndiMeaning`).
- The range tests for branches look at a distance truncated to 32 bits, and can accept one that is not reachable
  (`Branches.RangeTestMeaning`, `Branches.RangeTestFooled`).
- A load whose destination is also the base of a large constant reads from twice the constant (`Addressing.LoadAddressRight`);
  a store whose temporary is also its base or its value goes wrong likewise (`Addressing.StoreRight`).
- A load or store of DS form whose displacement is not a multiple of four becomes another instruction: with 2 modulo 4,
  `ld` and `lwa` are the `lwa` of the address two bytes lower, and otherwise the word is none of the modelled instructions
  (`Power.EncodeDecode`, `Power.UnalignedMeans`).
- A segment lookup after other segments of the same library have been added searches an array that is that many entries
  short. It leaves the array exactly if the last position it probes inside it while moving right is the first one or
  starts at or below the address (`CoreFile.Core.Bisect`); if it stays inside, it finds what a scan of the short array finds,
  and misses the entries added since (`CoreFile.Core.CoreLookup`).
- A segment that takes over an existing entry changes its file, offset and size but not its address. So its bytes are
  read from the right place exactly if the entry starts where the segment does (`LibSegments.TakeoverReads`,
  `LibSegments.TextReadTooFar`); `CoreFile.Core.AddLibrary` carries this through a whole library and the sort after it. An
  entry that an earlier segment of the same file has taken over can end before the address of the segment that takes
  it over next (`LibSegments.TakeoverCovers`, `LibSegments.SecondTakeoverShrinks`).
- A read takes each byte from the mapping found at its address, and fills in zeros only where none is found, exactly
  under two conditions (`CoreImage.ReadsAgree`). No class-sharing mapping, from an address it serves, is read over the start
  of a core mapping or of an earlier class-sharing mapping (`CoreImage.ShareRunsThrough`). And no mapping's padding falls on
  another mapping, as it can since mappings do not always start on a page, which the comment on the padding takes
  for granted (`CoreImage.ZerosOverNextPage`).
- `JavaFrameAnchor::set` on an anchor in use shows a pair of words that do not belong together
  (`FrameAnchor.JavaFrameAnchor.SetAnchor`). The native entry sets the anchor, and clears it on the way back, without a
  release between the two stores; a stack pointer with a pc that was never set with it can be seen exactly while memory
  shows the thread in_Java (`SafepointRaces.MixedExactly`): a null pc on both ways (`SafepointRaces.AnchorSeenHalfSet`,
  `SafepointRaces.AnchorSeenHalfCleared`), or that of another frame (`SafepointRaces.AnchorSeenWithOtherPc`).
- `JavaThread::java_suspend` promises that the thread runs no new bytecode once it returns, and forces a safepoint for that.
  With the safepoint reached the promise holds exactly if the thread is not between its own earlier suspension and its
  look at the safepoint state (`Suspension.SafepointIsEnough`); there it can sleep through the safepoint and go on to
  Java with the request unseen (`Suspension.SleepsThrough`).
- A thread that suspends itself at the end of `SafepointSynchronize::block` counts as safe although memory shows it
  in_Java or in_native_trans (`Safepoint.CountedIsOutside`).
- The range tests for branches refuse one target that a branch would reach, the farthest one forward
  (`Branches.RangeTestExact`).
- A library name that cannot be read to its end is completed by what an earlier, longer name has left in the buffer
  (`CoreFile.Core.ReadName`).
- The deoptimizer's size of a frame below the top is 16 bytes less than the live one for an odd number of slots, and the
  bottom it records for a top frame is 16 bytes lower (`FrameLayout.ParentSizesDiffer`, `FrameMemory.DeoptRebuilds`).
- After a stack overflow in a recursive call the caller resumes with the arguments still on its operand stack, where an
  exception thrown by the callee removes them (`FrameManager.Manager.ReDispatch`, `FrameManager.Manager.ThrowingException`).

## Model

| member | source | states |
|---|---|---|
| FrameLayout.LayoutAligned | src/cpu/ppc/vm/cppInterpreter_ppc.cpp:516-549 | both stack pointers of a call are multiples of 16 for any stack top and method, also when the parent frame shrinks |
| FrameLayout.LayoutInOrder | src/cpu/ppc/vm/cppInterpreter_ppc.cpp:551-580 | top ABI area, operand stack, monitors, state, parent ABI area, result slots, other locals and parameters of a new frame lie in this order and pairwise apart |
| FrameLayout.LayoutTight | src/cpu/ppc/vm/cppInterpreter_ppc.cpp:516-571 | each part has its size in bytes and the parts follow on each other, with less than 16 bytes lost to alignment above each ABI area and one free word above the parent's |
| FrameLayout.TrimmedToTos | src/cpu/ppc/vm/cppInterpreter_ppc.cpp:535-549 | where a callee's frame goes depends on the caller's stack top alone: the unused part of the caller's operand stack is given up |
| FrameLayout.ResizeSign | src/cpu/ppc/vm/cppInterpreter_ppc.cpp:535-549 | exactly when the resize of the parent frame is negative |
| FrameLayout.SlotsAre | src/cpu/ppc/vm/cppInterpreter_ppc.cpp:466-497 | a native method has room for its argument vector and for the parameter registers, whichever is more, a Java method for its operand stack |
| FrameLayout.DeoptAgrees | src/cpu/ppc/vm/cppInterpreter_ppc.cpp:2952-3068 | a Java frame rebuilt for any number of monitors has the stack base, stack limit and empty stack top that a call followed by as many new monitors gives, and a top frame larger by exactly 16 bytes |
| FrameLayout.LiveParentSizeIs | src/cpu/ppc/vm/cppInterpreter_ppc.cpp:535-549 | the size of a live frame once it has made a call, from its monitors, its stack depth and the callee's locals |
| FrameLayout.ParentSizesDiffer | src/cpu/ppc/vm/cppInterpreter_ppc.cpp:2967-2992 | below the top the deoptimizer's frame size equals the live one exactly for an even number of slots, and is 16 bytes less otherwise |
| CallStack.CompletedCall | src/cpu/ppc/vm/cppInterpreter_ppc.cpp:1789-2417 | whatever nests inside a call, calls that overflow included, at its end the caller's operand stack is the old one without the arguments and with the result of the method called, without result on an exception, or with the arguments back when the callee was popped; the rest of the caller and all under it are unchanged |
| CallStack.AllowedThroughout | src/cpu/ppc/vm/cppInterpreter_ppc.cpp:1887-1930 | an interpreter that keeps to its methods' sizes however its requests go does so at every step of every run, so that completed calls inside it mean the above |
| CallStack.BelowUnchanged | src/cpu/ppc/vm/cppInterpreter_ppc.cpp:1789-2417 | as long as the stack stays deeper than a caller, nothing from that caller down changes, and the method above it stays the one that was called |
| CallStack.CallMeans | src/cpu/ppc/vm/cppInterpreter_ppc.cpp:1789-1818 | a turn that calls: arguments, zeroed locals and monitor of the callee and what is left of the caller, slot by slot; on overflow the caller has everything |
| CallStack.OtherCallMeans | src/cpu/ppc/vm/cppInterpreter_ppc.cpp:1983-2093 | a turn that calls other code: the arguments gone and the result last on the stack, gone without a result, or still there |
| CallStack.GrowMeans | src/cpu/ppc/vm/cppInterpreter_ppc.cpp:1680-1731 | a turn that asks for a monitor: it is the youngest and locks no object |
| FrameMemory.ChainSame | src/cpu/ppc/vm/cppInterpreter_ppc.cpp:366-377 | writes at or below the free end of the current operand stack, and to the message fields, leave every activation as it is |
| FrameMemory.PopSlots | src/cpu/ppc/vm/cppInterpreter_ppc.cpp:431-436 | raising the stack top by n words pops n slots and nothing else |
| FrameMemory.PushSlots | src/cpu/ppc/vm/cppInterpreter_ppc.cpp:2305-2360 | lowering the stack top by n words pushes what lies there and changes nothing else |
| FrameMemory.LinksMirrorCalls | src/cpu/ppc/vm/cppInterpreter_ppc.cpp:690-691 | following the previous-state links visits exactly the activations of the call stack, in order, and then reaches zero |
| FrameMemory.DeoptRebuilds | src/cpu/ppc/vm/cppInterpreter_ppc.cpp:2952-3068 | for every frame of the call stack, whatever monitors it has grown, what deoptimization would lay out for its monitors and its slots, any number of them arguments kept for a popped callee, is what its state's fields say, the stack top included, with a bottom 16 bytes lower; the current frame's slots are those of its activation |
| FrameMemory.DeoptFindsLocals | src/cpu/ppc/vm/cppInterpreter_ppc.cpp:3026-3046 | for every frame with an interpreted caller, the caller's stack top and the number of parameters give the address of its locals |
| FrameManager.Manager.PushInterpreterFrame | src/cpu/ppc/vm/interp_masm_ppc_64.cpp:2404-2429 | back chain, return address and initial caller of the old top frame arrive in the new parent frame although the areas may overlap, with the old stack pointer; the new top frame returns into the frame manager; nothing above that frame's ABI area changes |
| FrameManager.Manager.InitState | src/cpu/ppc/vm/cppInterpreter_ppc.cpp:663-813 | the fields of a new state, the message for its entry included, and no write outside it but the monitor's object: null for a Java method, the class mirror for a static native one and the first argument for other native ones |
| FrameManager.Manager.ZeroLocals | src/cpu/ppc/vm/cppInterpreter_ppc.cpp:830-855 | the loop clears exactly the locals that are not parameters |
| FrameManager.Manager.ComputeInterpreterState | src/cpu/ppc/vm/cppInterpreter_ppc.cpp:366-861 | for Java and native methods: overflow is reported exactly when the new stack pointer is below the limit, and then no cell has been written; otherwise the frame is as laid out and nothing above the caller's stack top has changed |
| FrameManager.CalledChain | src/cpu/ppc/vm/cppInterpreter_ppc.cpp:1789-1818 | what a call writes represents the old call stack with the arguments moved to a new activation, whose other locals are zero |
| FrameManager.Manager.CallMethod | src/cpu/ppc/vm/cppInterpreter_ppc.cpp:2580-2650 | the entry point decides: an interpreted callee is pushed as one activation in the frame that FrameLayout.CallLayout gives, or overflows and leaves the activations unchanged; other code is called and comes back with the cells that FrameManager.Manager.CallSpecial describes, which represent what CallStack.CallOther says |
| FrameManager.Manager.ReDispatch | src/cpu/ppc/vm/cppInterpreter_ppc.cpp:1789-2148 | a call pushes one activation as CallStack.Call says; on overflow, exactly if the frame would pass the limit, the caller goes on with its arguments; the message tells which |
| FrameManager.Manager.CallSpecial | src/cpu/ppc/vm/cppInterpreter_ppc.cpp:2627-2650 | native or compiled code may use all memory below the arguments and the state registers; cell by cell, the argument slots become the result slots with the value in the lowest, or go on a pending exception, or stay when it is rethrown, and all slots above stay |
| FrameManager.Manager.ReturnFromNative | src/cpu/ppc/vm/cppInterpreter_ppc.cpp:1983-2093 | the argument slots become none, one or two result slots with the value in the lowest; with a pending exception they go; all slots above stay |
| FrameManager.Manager.MoveResult | src/cpu/ppc/vm/cppInterpreter_ppc.cpp:2281-2360 | none, one or two slots move to where the arguments began, in order, and nothing above changes |
| FrameManager.Manager.ReturnFromMethod | src/cpu/ppc/vm/cppInterpreter_ppc.cpp:2241-2417 | a return pops the callee and pushes its result on the caller's operand stack, all other activations and slots unchanged |
| FrameManager.Manager.ThrowingException | src/cpu/ppc/vm/cppInterpreter_ppc.cpp:2763-2780 | an exception pops the callee and its arguments and pushes nothing |
| FrameManager.Manager.PoppingFrame | src/cpu/ppc/vm/cppInterpreter_ppc.cpp:2179-2230 | the callee is popped and the caller has its arguments on the operand stack again, as the callee left them; that there is room for them is proved |
| FrameManager.Manager.Resume | src/cpu/ppc/vm/interp_masm_ppc_64.cpp:2459-2486 | resuming a state makes its frame the top frame again with the given stack top and message, and changes no activation and no other cell above that stack top |
| FrameManager.Manager.CopySlots | src/cpu/ppc/vm/cppInterpreter_ppc.cpp:1711-1726 | the overlapping upward copy moves every slot two words down unchanged, and writes nothing else |
| FrameManager.Manager.ShuffleDown | src/cpu/ppc/vm/cppInterpreter_ppc.cpp:1680-1731 | the slot copied in excess becomes the lock word of the new monitor, whose object is null; existing monitors stay |
| FrameManager.Manager.MoreMonitors | src/cpu/ppc/vm/cppInterpreter_ppc.cpp:1680-1731 | adds one monitor with null object; cell by cell, operand stack and older monitors, and with them locals and callers, are unchanged, and the layout in the state's fields is the old one with FrameLayout.AddMonitor applied; the return address and back chain of the top frame move along |
| FrameManager.Manager.Interpret | src/cpu/ppc/vm/cppInterpreter_ppc.cpp:1855-1881 | a run of the interpreter within its method's sizes changes its own activation only |
| FrameManager.Manager.Enter | src/cpu/ppc/vm/cppInterpreter_ppc.cpp:1734-1818 | entry from outside creates the first activation from the arguments; on overflow the caller has its stack pointer, back chain and return address again |
| FrameManager.Manager.ReturnToInitialCaller | src/cpu/ppc/vm/cppInterpreter_ppc.cpp:2423-2574 | the outside caller gets its own stack pointer, back chain, return address and the result, and all memory above the arguments as it was on entry, whatever ran meanwhile |
| FrameManager.Manager.Execute | src/cpu/ppc/vm/cppInterpreter_ppc.cpp:1823-1930 | for every interpreter, any number of turns and any use of free memory by other code, the activations in memory become what the requests mean, overflowing calls included; activations that are never left keep their states, and the top frame returns into the frame manager throughout |
| FrameManager.Manager.Serve | src/cpu/ppc/vm/cppInterpreter_ppc.cpp:1887-1930 | each message is answered by the operation it asks for, and overflow is reported exactly for a call whose frame would pass the limit |
| FrameManager.Manager.CompleteCall | src/cpu/ppc/vm/cppInterpreter_ppc.cpp:1789-2417 | after a completed call the registers name the caller's state again, its cells hold locals, monitors and the operand stack with what the callee handed over, its callers are unchanged, and the previous-state links lead through the same states as before |
| Safepoint.CountedIsOutside | src/cpu/ppc/vm/cppInterpreter_ppc.cpp:1241-1337 | in no interleaving of any number of threads is a thread that was classified as safe in Java, or past its last check on the way there, while the safepoint is on; memory shows it outside Java unless it has suspended itself |
| Safepoint.HeldThroughout | src/share/vm/runtime/safepoint.cpp:828-883 | once classified as safe, a thread stays outside Java for as long as the safepoint state is set, whatever all threads do |
| Safepoint.SynchronizedIsStopped | src/share/vm/runtime/safepoint.cpp:192-372 | while the state is _synchronized every thread is in native code, certain to block before Java, blocked, or suspended by itself |
| Safepoint.WaitingIsExact | src/share/vm/runtime/safepoint.cpp:310-330 | the count the VM thread waits on is the number of threads it still has to hear from; at zero there is none |
| Safepoint.AnchorVisible | src/cpu/ppc/vm/cppInterpreter_ppc.cpp:1121-1216 | whenever memory shows a thread in any state but in_Java, it shows both words of the anchor the thread set last; in_native and in_native_trans that is the anchor of the call |
| Safepoint.OwnWasGiven | src/cpu/ppc/vm/cppInterpreter_ppc.cpp:1121-1216 | in every run, the anchor a thread holds is one it has set, both words together |
| Safepoint.SuccessorKind | src/share/vm/runtime/thread.cpp:2436-2491 | with the state visibly set and the Threads_lock taken, no step of a thread classified as safe leads on to Java |
| Safepoint.ReportsOnce | src/share/vm/runtime/safepoint.cpp:638-660 | a thread that decrements the count of threads to wait for was classified as call-back and has not done so before |
| Safepoint.SeenSafe | src/share/vm/runtime/safepoint.cpp:552-566 | a thread seen in native or blocked by the VM thread really is at a safe place, though its stores may be late |
| Safepoint.DrainKeeps | src/cpu/ppc/vm/macroAssembler_ppc.inline.hpp:77-79 | stores reaching memory in any order the barriers allow keep state and anchor consistent |
| Safepoint.NextKeeps | src/share/vm/runtime/safepoint.cpp:192-497 | every step of every thread and of the VM thread keeps the system invariant, counts and locks included |
| Safepoint.RunKeeps | src/share/vm/runtime/safepoint.cpp:192-497 | so does every run |
| Suspension.AskedInNative | src/cpu/ppc/vm/cppInterpreter_ppc.cpp:1276-1308 | in every run, a thread that was asked to suspend itself, is in native code later, and is not resumed since, is neither in Java nor past its checks on the way there |
| Suspension.HeldBack | src/share/vm/runtime/thread.cpp:2365-2411 | while a request stands, a thread in native code, at a poll, blocked or suspended stays out of Java, whatever all threads do |
| Suspension.SafepointIsEnough | src/share/vm/runtime/thread.cpp:2312-2350 | with a request made before the state is _synchronized, the thread is kept from Java until it is resumed exactly if it is not between its own suspension and its look at the safepoint state |
| Suspension.SleepsThrough | src/share/vm/runtime/thread.cpp:2452-2485 | a run in which a thread that was asked is stopped by the safepoint there and is in Java after it |
| Progress.Forward | src/share/vm/runtime/safepoint.cpp:192-497 | in every state of the invariant that is not at rest some action of a thread, the VM thread or a resumer brings the system nearer to rest |
| Progress.CanRest | src/share/vm/runtime/safepoint.cpp:192-497 | from every reachable state some continuation ends with no safepoint, no lock taken, no request, and every thread in Java: nothing deadlocks |
| SafepointRaces.RaceWithoutFence | src/cpu/ppc/vm/cppInterpreter_ppc.cpp:1241-1259 | without the fence after the transition state a thread counted as safe can run Java during the safepoint operation |
| SafepointRaces.AnchorSeenHalfSet | src/cpu/ppc/vm/macroAssembler_ppc.cpp:2373-2393 | on the way into native code memory can show the new stack pointer of the anchor with a null pc |
| SafepointRaces.AnchorSeenHalfCleared | src/cpu/ppc/vm/macroAssembler_ppc.cpp:2395-2408 | on the way back memory can show the old stack pointer with the pc already gone |
| SafepointRaces.AnchorSeenWithOtherPc | src/cpu/ppc/vm/macroAssembler_ppc.cpp:2373-2408 | with another native call at once, memory can show the old stack pointer with the pc of the new frame |
| SafepointRaces.MixedExactly | src/cpu/ppc/vm/macroAssembler_ppc.cpp:2373-2408 | a stack pointer with a pc that its thread never set with it can be seen in some run exactly if memory shows the thread in_Java |
| FrameAnchor.JavaFrameAnchor.ClearAnchor | src/cpu/ppc/vm/javaFrameAnchor_ppc.hpp:35-41 | between its stores memory shows no frame, never a mixed pair |
| FrameAnchor.JavaFrameAnchor.SetAnchor | src/cpu/ppc/vm/javaFrameAnchor_ppc.hpp:43-47 | shows no mixed pair exactly if the anchor was clear or one of the words stays |
| FrameAnchor.JavaFrameAnchor.CopyAnchor | src/cpu/ppc/vm/javaFrameAnchor_ppc.hpp:49-65 | between its stores memory shows no frame, the old pair or the new pair |
| FrameAnchor.JavaFrameAnchor.Perform | src/cpu/ppc/vm/javaFrameAnchor_ppc.hpp:35-65 | in any run that sets only a cleared anchor, a stack pointer is only ever shown with the pc it was given with |
| Power.SplitFields | src/cpu/ppc/vm/assembler_ppc.hpp:1001-1025 | the split six-bit shift and mask fields decode to what was encoded |
| Power.EncodeDecode | src/cpu/ppc/vm/assembler_ppc.inline.hpp:84-302 | decoding an emitted word gives the instruction back, exactly if a DS-form displacement is a multiple of four |
| Power.UnalignedMeans | src/cpu/ppc/vm/assembler_ppc.inline.hpp:84-302 | what any other displacement makes of ld, lwa and std |
| Power.ArithmeticWords | src/cpu/ppc/vm/assembler_ppc.inline.hpp:84-149 | the machine words of addi, addis, ori, oris and andi. for given operands, as Power ISA Book I has them |
| Power.RotateWords | src/cpu/ppc/vm/assembler_ppc.inline.hpp:244-252 | those of rldicl, rldicr, rldimi and rlwinm |
| Power.LoadWords | src/cpu/ppc/vm/assembler_ppc.inline.hpp:259-281 | those of the loads with displacement |
| Power.LoadXWords | src/cpu/ppc/vm/assembler_ppc.inline.hpp:259-281 | those of the indexed loads |
| Power.StoreWords | src/cpu/ppc/vm/assembler_ppc.inline.hpp:285-299 | those of the stores with displacement |
| Power.StoreXWords | src/cpu/ppc/vm/assembler_ppc.inline.hpp:285-299 | those of the indexed stores |
| Machine.EmittedWordsRun | src/cpu/ppc/vm/assembler_ppc.inline.hpp:84-302 | fetching and decoding the emitted words runs the instructions that were asked for |
| Machine.StoreThenLoad | src/cpu/ppc/vm/assembler_ppc.inline.hpp:259-299 | a load from anywhere inside a stored value gives those bytes of it, most significant first, and lha and lwa extend their sign |
| Machine.SameWidth | src/cpu/ppc/vm/assembler_ppc.inline.hpp:259-299 | so a stored byte, halfword, word or doubleword is loaded back |
| Rotates.SldiShifts | src/cpu/ppc/vm/assembler_ppc.inline.hpp:212-255 | sldi shifts left for every operand and amount |
| Rotates.SrdiShifts | src/cpu/ppc/vm/assembler_ppc.inline.hpp:212-255 | srdi shifts right for every operand and amount |
| Rotates.SlwiShifts | src/cpu/ppc/vm/assembler_ppc.inline.hpp:214-251 | slwi shifts the low word left for every operand and amount, and clears the high word |
| Rotates.SrwiShifts | src/cpu/ppc/vm/assembler_ppc.inline.hpp:218-251 | srwi shifts the low word right, likewise |
| Rotates.ClrldiClears | src/cpu/ppc/vm/assembler_ppc.inline.hpp:212-255 | clrldi clears exactly the n high bits |
| Rotates.ClrrdiClears | src/cpu/ppc/vm/assembler_ppc.inline.hpp:212-255 | clrrdi clears exactly the n low bits |
| Rotates.InsrdiInserts | src/cpu/ppc/vm/assembler_ppc.inline.hpp:212-255 | insrdi replaces exactly the n bits from bit b by the low bits of the source |
| Rotates.NegatedPowerUnreachable | src/cpu/ppc/vm/assembler_ppc.cpp:88-102 | the branch of andi for negated powers of two is never taken |
| Rotates.AndiOfZeroCopies | src/cpu/ppc/vm/assembler_ppc.cpp:90-92 | andi with 0 copies the register |
| Rotates.AndiMeaning | src/cpu/ppc/vm/assembler_ppc.cpp:88-102 | andi computes the bitwise and exactly if the immediate is not 0 or the register is |
| Constants.LoadConstLoads | src/cpu/ppc/vm/assembler_ppc.cpp:331-352 | the five instructions, with or without temporary, leave the constant in the register and change only it and the temporary |
| Constants.PatternImmediates | src/cpu/ppc/vm/assembler_ppc.cpp:331-352 | the sequences for two constants differ only in four 16-bit immediates |
| Constants.GetConstOfLoadConst | src/cpu/ppc/vm/macroAssembler_ppc.cpp:310-327 | reading the constant back from either shape of the emitted words gives it |
| Constants.PatchConst | src/cpu/ppc/vm/macroAssembler_ppc.cpp:332-348 | patching in place turns the words for one constant into those for the other and leaves the rest of the buffer alone |
| Constants.LoadConstOptimized | src/cpu/ppc/vm/assembler_ppc.cpp:357-425 | for every constant, with or without temporary and rest, the code leaves constant minus rest modulo 2^64, changes only its registers and has at most five instructions; a rest is returned only on request |
| Constants.LoadHighInTmp | src/cpu/ppc/vm/assembler_ppc.cpp:386-398 | the high word goes to the temporary, and the third chunk to the destination |
| Constants.LoadWithTmp | src/cpu/ppc/vm/assembler_ppc.cpp:381-407 | with a temporary the two halves joined are constant minus rest |
| Addressing.LoadFrom | src/cpu/ppc/vm/assembler_ppc.cpp:105-217 | every arm loads from constant or register plus optional base modulo 2^64, and from twice the constant if the base is lost |
| Addressing.LoadAddressRight | src/cpu/ppc/vm/assembler_ppc.cpp:112-115 | that address is the requested one exactly if the base survives or equals the constant |
| Addressing.StoreTo | src/cpu/ppc/vm/assembler_ppc.cpp:219-301 | every arm stores the value at constant or register plus optional base modulo 2^64, changing only the temporary; what it does when that is also the value or the base register |
| Addressing.StoreRight | src/cpu/ppc/vm/assembler_ppc.cpp:219-301 | address and value are the requested ones exactly if the temporary is neither base nor value, or holds the same already |
| Branches.FieldReplaced | src/cpu/ppc/vm/assembler_ppc.hpp:889-938 | replacing a displacement field keeps all other bits |
| Branches.PatchRoundTrip | src/cpu/ppc/vm/assembler_ppc.cpp:63-85 | a patched branch decodes to its destination exactly if that is aligned and within the field's reach |
| Branches.PatchKeepsTheRest | src/cpu/ppc/vm/assembler_ppc.cpp:63-85 | patching keeps all other bits, and patching twice is patching to the last destination |
| Branches.RangeTestMeaning | src/cpu/ppc/vm/assembler_ppc.inline.hpp:351-384 | a branch encoded after a successful range test reaches its target exactly if the distance fits 32 bits |
| Branches.RangeTestFooled | src/cpu/ppc/vm/assembler_ppc.hpp:1065-1069 | an address 4 GB away passes the range test and is not reached |
| Branches.RangeTestExact | src/cpu/ppc/vm/assembler_ppc.inline.hpp:351-384 | for distances of 32 bits the test is passed exactly by aligned targets within 32 MB, or 32 KB for a conditional branch, except the farthest one forward, which is the only reachable one refused |
| Branches.BranchWords | src/cpu/ppc/vm/assembler_ppc.cpp:63-85 | patching and reading back given machine words; a word that is no branch is refused |
| Branches.ConditionalWord | src/cpu/ppc/vm/assembler_ppc.cpp:63-85 | the same for a conditional branch |
| DebugLinkCrc.TableRight | agent/src/os/linux/symtab.c:68-121 | every table entry is its index after eight single-bit steps |
| DebugLinkCrc.LookupRight | agent/src/os/linux/symtab.c:123-128 | one table step is the eight single-bit steps of a byte |
| DebugLinkCrc.GnuDebuglinkCrc32 | agent/src/os/linux/symtab.c:65-129 | for every byte string and start value the table loop gives the bit-by-bit reflected CRC-32 |
| DebugLinkCrc.CheckValue | agent/src/os/linux/symtab.c:65-129 | the CRC of the digits 1 to 9 is 0xcbf43926 |
| DebugLinkCrc.LeadingZeroCounts | agent/src/os/linux/symtab.c:123-128 | a leading zero byte changes the CRC of every file, except from the one start value that inverts to zero |
| DebugLinkCrc.NothingAdded | agent/src/os/linux/symtab.c:123-128 | no bytes leave every start value as it is |
| DebugLinkCrc.OpenDebugFile | agent/src/os/linux/symtab.c:131-159 | a file is accepted exactly if the CRC of the whole file is the expected one, however the reads cut it |
| DebugLinkCrc.BurstDetected | agent/src/os/linux/symtab.c:65-129 | files of equal length that differ within four consecutive bytes have different CRCs |
| PtraceRead.CopyFromWord | agent/src/os/linux/ps_proc.c:66-86 | the bytes of one word, as far as the word or the range goes |
| PtraceRead.ProcessReadData | agent/src/os/linux/ps_proc.c:48-108 | success delivers exactly the bytes of the range; it fails exactly if a word it needs is unreadable, having looked at such a word; every peek is aligned and needed |
| CoreImage.LastAtOrBelowIs | agent/src/os/linux/ps_core.c:152-170 | the position between the neighbours of an address is the last one at or below it |
| CoreImage.LookupFindsCore | agent/src/os/linux/ps_core.c:152-196 | on a sorted disjoint array the lookup finds the core mapping containing the address whenever there is one |
| CoreImage.LookupCovers | agent/src/os/linux/ps_core.c:172-196 | what the lookup finds contains the address, and class-sharing mappings come in only where no core mapping does |
| CoreImage.FirstCoveringMeans | agent/src/os/linux/ps_core.c:182-196 | of the class-sharing mappings the first in list order that contains the address is taken |
| CoreImage.ReadDelivers | agent/src/os/linux/ps_core.c:465-513 | every byte a read delivers is the file byte of the mapping that contains its address, or a zero at an address that is past the mapping's end with no page boundary in between |
| CoreImage.ReadSucceeds | agent/src/os/linux/ps_core.c:465-513 | a read succeeds exactly if each address is mapped or past the end of a mapping it came through with no page boundary in between |
| CoreImage.PaddingIs | agent/src/os/linux/ps_core.c:492-503 | the zeros after a mapping end at the next multiple of the page size and are less than a page |
| CoreImage.StepsAgree | agent/src/os/linux/ps_core.c:465-513 | every step of a read agrees with the lookup, bytes as far as the file goes and zeros after them, exactly if no class-sharing mapping is read over the start of a mapping that the lookup prefers and no padding falls on a mapping |
| CoreImage.ReadIsOwned | agent/src/os/linux/ps_core.c:465-513 | a read has the requested length, and each byte is the one its mapping has at that address, or a zero of padding |
| CoreImage.ReadsAgree | agent/src/os/linux/ps_core.c:465-513 | for all files, short ones included: in every read each byte comes from the mapping found at its own address and each filled-in zero is where none is found, exactly under that condition |
| CoreImage.WellFormedAgrees | agent/src/os/linux/ps_core.c:492-503 | that is so for mappings that start on a page, are held by their files and share no page |
| CoreImage.ZerosOverNextPage | agent/src/os/linux/ps_core.c:492-503 | a segment of the executable that does not start on a page: the zeros after it hide the first bytes of the next page, which the core file has |
| CoreImage.ShareRunsThrough | agent/src/os/linux/ps_core.c:172-196 | with pages of 4096 bytes, a class-sharing mapping that runs over a core mapping gives its own byte to a read that starts before it |
| CoreFile.Core.AddMapInfo | agent/src/os/linux/ps_core.c:121-134 | the new mapping is first in the list and counted |
| CoreFile.Core.SortMapArray | agent/src/os/linux/ps_core.c:419-459 | the array becomes a permutation of the list sorted by address, whatever was added since |
| CoreFile.Core.Bisect | agent/src/os/linux/ps_core.c:152-170 | for any array no longer than the count: the search leaves the array exactly if LibSegments.Leaves says so, and otherwise the positions enclose the address |
| CoreFile.Core.CoreLookup | agent/src/os/linux/ps_core.c:152-196 | the lookup leaves the array exactly if the search does, and otherwise agrees with the linear scan of the array and the class-sharing list, stale or fresh |
| CoreFile.Core.CoreReadData | agent/src/os/linux/ps_core.c:465-513 | the loop delivers what a read on values delivers, short file reads included, and terminates |
| CoreFile.Core.TakeSegment | agent/src/os/linux/ps_core.c:732-763 | a wanted segment either changes file, offset and size of exactly the one entry that the lookup of its address finds and that covers it, or adds one entry, or is refused because of an entry of another file that is not one page and not of its rounded size; every other entry and every address stay |
| LibSegments.StepMeans | agent/src/os/linux/ps_core.c:732-763 | what a step does, field by field: nothing for a segment that is not loaded, is writable or has no file content; otherwise the new entry, or the one entry changed |
| LibSegments.InTheWayMeans | agent/src/os/linux/ps_core.c:745-753 | a segment is refused exactly if the entry is another file's, is not one page, and some number of pages is enough for one of the two and not for the other |
| CoreFile.Core.ReadLibSegments | agent/src/os/linux/ps_core.c:717-773 | the run over the segments is one such step each, up to the end, the first conflict or the first search that leaves the array; taking over never makes the array stale, and the array is fresh afterwards exactly if nothing was added |
| LibSegments.TakeoverCovers | agent/src/os/linux/ps_core.c:742-761 | an entry taken over by a non-empty segment covers its address, unless it was the file's own and its new size ends before |
| LibSegments.ClearStep | agent/src/os/linux/ps_core.c:732-763 | if no segment's entry covers a later segment and the file had no entries, a step makes the entry its segment called for in the beginning, which covers its address, and keeps those of earlier segments |
| LibSegments.AllServed | agent/src/os/linux/ps_core.c:717-773 | so after the run every wanted segment has that entry |
| LibSegments.PagesApart | agent/src/os/linux/ps_core.c:717-773 | that no segment's entry covers a later segment holds among entries that start on a page if each segment starts past the rounded size of each earlier one, counted from its page |
| LibSegments.SecondTakeoverShrinks | agent/src/os/linux/ps_core.c:732-763 | a run over two segments in one core entry: the second makes the entry end before its own address, and the entry of the first is gone |
| LibSegments.TakeoverReads | agent/src/os/linux/ps_core.c:755-761 | reads in an entry taken over deliver the segment's bytes, whatever the files hold, exactly if the entry starts at the segment's address |
| LibSegments.AddedReads | agent/src/os/linux/ps_core.c:737-741 | reads in an added entry always do |
| LibSegments.LibraryRead | agent/src/os/linux/ps_core.c:717-773 | run and sort joined: every wanted segment has its entry in the sorted array, and reads that find it deliver the segment's bytes exactly if the segment got a new entry or one that started at its address |
| LibSegments.DisjointNearest | agent/src/os/linux/ps_core.c:152-170 | in an array without overlaps a read at any address of an entry finds that entry |
| CoreFile.Core.AddLibrary | agent/src/os/linux/ps_core.c:949-968 | after the segments of a library and the sort the array is fresh, and for segments as above, a file without entries before and no class-sharing mappings yet, reads are as LibSegments.LibraryRead says; it gives up only at a segment that an entry is in the way of, or whose search leaves the array |
| LibSegments.TextReadTooFar | agent/src/os/linux/ps_core.c:755-761 | a text segment that starts inside a page is read from 0x100 bytes too far into its file |
| CoreFile.Core.ReadString | agent/src/os/linux/ps_core.c:264-283 | copies the characters up to the terminator, and fails exactly if one is unreadable or the buffer too short, leaving the rest of the buffer |
| CoreFile.Core.FindDebugBase | agent/src/os/linux/ps_core.c:875-884 | the result is the value of the first DT_DEBUG entry of the dynamic section; the search fails exactly if an entry before it, or it, cannot be read |
| CoreFile.Core.ReadLibrary | agent/src/os/linux/ps_core.c:918-981 | one link map: the library whose name stands where its second word points is entered at the base in its first word, as LibSegments.LibraryRead says; without a name, a file or an ELF header nothing changes; it fails only on an unreadable word of the link map or a segment that is refused; the array is fresh afterwards, with the address of the next link map from its fourth word |
| CoreFile.Core.ReadName | agent/src/os/linux/ps_core.c:935-944 | the name in the buffer is the text at the address if that ends in the buffer, none for a null address, and otherwise the text as far as it goes with what the buffer still holds after it |
| LinkMaps.TextIsTheName | agent/src/os/linux/ps_core.c:264-283 | a text that can be read to its end is the only name that can result |
| LinkMaps.WordRoundTrip | agent/src/os/linux/ps_core.c:253-261 | the bytes of the value of a word are the word's |
| LinkMaps.BytesRoundTrip | agent/src/os/linux/ps_core.c:253-261 | and every value is that of its bytes |
| CoreFile.Core.ReadLinkMaps | agent/src/os/linux/ps_core.c:915-983 | the rounds of the loop form a chain from the first link map, each from the mappings and the next address that the one before has left; a failure is that of the link map that comes next |
| CoreFile.Core.ReadSharedLibInfo | agent/src/os/linux/ps_core.c:854-984 | over any link map chain: the dynamic linker is entered at the base in the fifth word of the debugging record, then each library of the chain in order from the second word to the null link, and every read of the debuggee meets a sorted array of exactly the listed mappings; it fails only if an entry of the dynamic section or a word of the debugging record is unreadable, the dynamic linker is no ELF file, or a library fails, and stops before the end only when its rounds are used up |
| CoreFile.Core.AddSegments | agent/src/os/linux/ps_core.c:658-713 | one mapping for each loaded segment with file content, in order, and no other |
| CoreFile.LoadedCount | agent/src/os/linux/ps_core.c:658-713 | there are as many such segments as there are headers to load with file content, of an executable read-only ones |
| CoreFile.LoadedIs | agent/src/os/linux/ps_core.c:658-713 | each of them at the place that those before it leave |
| CoreFile.Core.ReadFileSegments | agent/src/os/linux/ps_core.c:1019-1052 | the entries are exactly those of the core file and the read-only ones of the executable, and the array is fresh |
| CoreFile.Core.InitClassSharing | agent/src/os/linux/ps_core.c:290-397 | there is nothing to add exactly if there is no libjvm.so or sharing is off; otherwise it succeeds exactly if flag, path and name can be read in the debuggee and lead to an archive of the right magic and version, and then one mapping for each read-only space has been added |
| LinkMaps.SharedCount | agent/src/os/linux/ps_core.c:381-392 | one mapping for each read-only space |
| LinkMaps.SharedIs | agent/src/os/linux/ps_core.c:381-392 | each with the file offset, base and used size of its space, earlier spaces further back |
| CoreFile.Core.GrabCore | agent/src/os/linux/ps_core.c:987-1073 | a core dump that opens successfully has a fresh array of at least one mapping: those of the core file and the executable, with all libraries entered as CoreFile.Core.ReadSharedLibInfo says, and for class sharing those of the archive that the debuggee names, or none if it shares nothing; it fails only for one of the reasons above, or if classes are shared and the debuggee does not name a usable archive |

## Left out

- CoreFile.Core.ReadSharedLibInfo: both loops take a number of rounds, which the original does not have; a run is every prefix of the original's. ELF headers and path lookup are parameters.
- LinkMaps.WordRoundTrip: a word has its least significant byte first, as on the little-endian systems among those the agent supports.
- CoreFile.Core.InitClassSharing: symbol lookup in libjvm.so and the archive's header are parameters.
- CoreFile.Core.CoreReadData: addresses do not wrap around at 2^64; the same holds for the other members of CoreFile and CoreImage.
- FrameManager.Manager.Interpret: of the state's fields only the stack top, message, callee and its entry point change; bytecode pointer, profiling data and the like are not modelled.
- FrameManager.Manager.ReturnFromMethod: asks for room for the result on the caller's operand stack, as class file verification guarantees.
- FrameManager.Manager.CallSpecial: what native and compiled code does is a parameter: how it ends, and what it writes below the arguments. It leaves the arguments and the back chain alone, and the state registers of the frame manager with any value; calls back into the interpreter are part of it.
- FrameManager.Manager.ReturnFromNative: the conversion of the result by its type is not included; the value is the converted one.
- FrameManager.Manager.Serve: on-stack replacement (the message do_osr) is not included.
- FrameManager.Manager.ReturnToInitialCaller: the conversion of the result by the stack-to-native stubs, and the search for the exception handler, are not included.
- Suspension.SafepointIsEnough: java_suspend also returns without a safepoint when it finds the suspension completed; that test is not modelled.
- Safepoint.NextKeeps: threads neither start nor exit, and asynchronous exceptions, deoptimization requests and lazy critical natives are not modelled; taking and dropping a VM lock waits for the store buffer, as Atomic::cmpxchg and Monitor::IUnlock do.
- The serialize-page variant of the memory barrier (UseMembar off).
- On-stack replacement, JVMTI notification, profiling and invocation counters in the frame manager.
- Native entry other than its thread-state protocol and the arithmetic of its frame size: signature handlers, result handlers and unlocking.
- Template interpreter frames, and the ABI areas of ELF version 2.
- Floating-point, vector, transactional and cache emitters, and the condition-register forms of the fixed-point ones; they are one-line encoders.
- compiledIC_ppc.cpp, icBuffer_ppc.cpp and the other PPC64 stubs.
- Allocation failures, the sorting algorithm inside qsort, file descriptors and ptrace itself: files are byte sequences, a peek is a function of the address.
- Notes, threads and registers of core dumps.
- The BSD agent, the JNI glue, symbol tables other than the debug-link CRC, and the build scripts.
