# Verified models of HotSpot's PPC64 port and of the Linux serviceability agent

Dafny 4.11 models of four parts of this HotSpot tree, with proofs of what they promise. Every
`.dfy` file is one module; `dafny verify dfyconfig.toml` checks them all. `Wrappers`, `Sequences` and
`StackMemory` hold what several modules share.

**Code emission** (`PpcMachine`, `LoadConst`, `Branches`). A machine with 32 doubleword registers
and the six instructions that the constant loaders use, their 32-bit encodings and a decoder. The
emitters are methods of a code buffer. The code of `load_const_optimized` is proved, on that machine,
to load every constant, with and without a temporary register and a returned remainder; the code of
`load_const` is also proved to survive patching and reading back. Registers are integers modulo 2^64;
instruction words are integers below 2^32. Branch patching is proved against its decoder, with the
exact condition under which they agree.

**Interpreter protocols** (`ThinLock`, `ReceiverProfile`, `TypeCell`, `Monitors`). Stack locking is
a state machine over single memory accesses of any number of threads, with the part of the runtime's
slow path that does not inflate. The receiver profile is the emitted code itself: an emitter with
labels and back-patching, a forward-jumping machine that runs the code, and a simple bounded table
that it must equal. The type cell is a small automaton. The monitor boxes of a template interpreter
frame are swept and grown in a map of stack words.

**The C++ interpreter's frame manager** (`FrameManager`). Stack memory is a map from address to
word; SP, the two state registers and LR are fields. Entry, calls, returns, monitor growth, stack
overflow and the way out are methods that keep one invariant about all live activations, and runs
are any sequences of legal requests.

**The serviceability agent** (`CoreFile`, `Crc32`, `PeekReader`, `ThreadList`). The sorted index of
mappings and the page-padding read of a core file, the table-driven CRC of debug files, the
unaligned word-peek reader, and the heap-allocated thread list that `Pgrab` edits while it walks it.

Four properties that one would expect do not hold. The modules say exactly when they do, and each
has a concrete input at which it fails:

- `is_within_range_of_b` and `is_within_range_of_bcxx` accept targets that the emitted branch does
  not reach (`Branches.WithinRangeReaches`, `Branches.WithinRangeReachesBcxx`; input in
  `Branches.TooFarPasses`);
- a core read fails when it starts in the zero padding of a mapping, although it may run through it
  (`CoreFile.Core.ReadData`; input in `CoreFile.PaddingCannotStart`);
- a core read of a truncated file can go through and deliver zeros that are not padding
  (`CoreFile.ReadIsImage`; input in `CoreFile.TruncatedFileReads`);
- when `Pgrab` gives up, it detaches from the process itself only if the thread enumeration
  contained it (`ThreadList.Pgrab`; input in `ThreadList.ProcessStaysAttached`).

One test in `profile_obj_type` looks at the klass where its comment speaks of the profile;
`TypeCell.ExitIsRedundant` shows that this makes no difference for aligned klass pointers.

What comes from outside is a parameter: the contents of files and of the target process, the
outcome of each attach call, the exception handler for a return address and the stores of the C
function that finds it, the threads that libthread_db enumerates, how many bytes each read call
delivers, the stores of interpreted code, and the interleaving of threads.

## Model

| member | source | states |
|---|---|---|
| PpcMachine.DecodeEncode | src/cpu/ppc/vm/assembler_ppc.inline.hpp:84-257 | decoding the word of any of the six instructions gives the instruction back, with every register, immediate, shift and mask field |
| PpcMachine.EncodeIs | src/cpu/ppc/vm/assembler_ppc.inline.hpp:84-257 | the word of each of the six instructions for all operands, as a sum of numbers, with the split shift count and the rotated mask bound |
| PpcMachine.EncodeDecode | src/cpu/ppc/vm/assembler_ppc.inline.hpp:84-257 | the decoder knows the words of the six instructions and no others |
| PpcMachine.RunConcat | src/cpu/ppc/vm/assembler_ppc.cpp:357-425 | running a concatenation is running one part after the other |
| LoadConst.OptimizedLoads | src/cpu/ppc/vm/assembler_ppc.cpp:357-425 | for every x, any temporary (R0 included) or none, with or without a remainder: running the code from any registers leaves d + returned equal to x modulo 2^64, changes no register but d and the temporary, takes at most five instructions, and returns a signed 16-bit value that is 0 unless asked for |
| LoadConst.CodeBuffer.EmitOptimized | src/cpu/ppc/vm/assembler_ppc.cpp:357-425 | what the emitter appends, step by step, is that code, so the property holds of the buffer from where it stood |
| LoadConst.CodeBuffer.EmitConst | src/cpu/ppc/vm/assembler_ppc.cpp:331-352 | the emitter of load_const appends code that loads x exactly, from any registers |
| LoadConst.CodeBuffer.Decodes | src/cpu/ppc/vm/assembler_ppc.inline.hpp:84-257 | the words in the buffer decode to the instructions that were emitted |
| LoadConst.PatchableLoads | src/cpu/ppc/vm/assembler_ppc.cpp:331-352 | both forms of load_const are exactly five instructions, load every x exactly and touch only d and the temporary |
| LoadConst.PatchedIsEmitted | src/cpu/ppc/vm/macroAssembler_ppc.cpp:333-349 | rewriting the four immediates of the emission of x with the chunks of y gives, word for word, the emission of y |
| LoadConst.GetConstEmitted | src/cpu/ppc/vm/macroAssembler_ppc.cpp:311-328 | reading the constant back from the emission of x gives x modulo 2^64, for both forms |
| LoadConst.PatchInPlace | src/cpu/ppc/vm/assembler_ppc.hpp:1115-1124 | patching in place changes the five words to the patched ones and no other word of the code |
| Branches.PatchRoundTrip | src/cpu/ppc/vm/assembler_ppc.cpp:63-85 | a patched b or bc decodes to its destination if and only if the distance is word aligned and in the signed range of the field; opcode, BO, BI, AA and LK never change |
| Branches.WithLiFields | src/cpu/ppc/vm/assembler_ppc.hpp:910-953 | setting the LI field sets exactly that field, and inv_li_field reads it back with its sign |
| Branches.WithBdFields | src/cpu/ppc/vm/assembler_ppc.hpp:910-953 | the same of the BD field of a conditional branch |
| Branches.BranchOpcodes | src/cpu/ppc/vm/assembler_ppc.hpp:1235-1246 | which words are b and which are bc, in numbers |
| Branches.BranchWords | src/cpu/ppc/vm/assembler_ppc.inline.hpp:338-344 | the words of b, bl, bc and bcl for all targets, in numbers: the field is the distance modulo its size, although it is computed in an int |
| Branches.WithinRangeExactly | src/cpu/ppc/vm/assembler_ppc.inline.hpp:353-378 | exactly which targets the two range tests accept: nearer than 2^31 bytes, the aligned ones at a distance the field holds, apart from the largest; otherwise those that look like one modulo 2^32 |
| Branches.WithinRangeReaches | src/cpu/ppc/vm/assembler_ppc.inline.hpp:338-386 | for a target that passes is_within_range_of_b the emitted branch decodes to the target if and only if it is less than 2^31 bytes away |
| Branches.WithinRangeReachesBcxx | src/cpu/ppc/vm/assembler_ppc.inline.hpp:342-378 | the same of bc and is_within_range_of_bcxx |
| Branches.TooFarPasses | src/cpu/ppc/vm/assembler_ppc.hpp:1096-1100 | a target 2^32 bytes ahead passes the test and the branch goes to itself |
| ThinLock.MaskTest | src/cpu/ppc/vm/interp_masm_ppc_64.cpp:905-918 | the masked difference is zero exactly when it is below the page size and its lock bits are clear |
| ThinLock.RecursionTestSound | src/cpu/ppc/vm/interp_masm_ppc_64.cpp:905-918 | a header that passes the recursion test is the address of one of the thread's own boxes: never an unlocked mark, never a box of another thread, whatever the 64-bit wrap-around |
| ThinLock.ApplyInv | src/cpu/ppc/vm/interp_masm_ppc_64.cpp:831-1035 | every enabled step of any thread, every load, store and compare-and-swap of lock_object and unlock_object, keeps the lock invariant |
| ThinLock.InitInv | src/cpu/ppc/vm/interp_masm_ppc_64.cpp:860-935 | the invariant holds when nothing is locked |
| ThinLock.Reachable | src/cpu/ppc/vm/interp_masm_ppc_64.cpp:831-1035 | runs are defined without the invariant; every state of every interleaving from a start has it, and in it every thread has a next access |
| ThinLock.AcquiresFree | src/cpu/ppc/vm/interp_masm_ppc_64.cpp:860-897 | from any state with the invariant, a thread that is not disturbed takes an object nobody holds in three accesses: the mark is its box, the box keeps the mark that was there |
| ThinLock.Reenters | src/cpu/ppc/vm/interp_masm_ppc_64.cpp:898-935 | an owner that is not disturbed gets one more box on the object's stack with a zero header, in five accesses if its first box is within a page above SP, and through the runtime in six otherwise |
| ThinLock.WaitsForHolder | src/share/vm/runtime/synchronizer.cpp:226-261 | a thread that is not disturbed while another holds the object ends up waiting, with marks and locks unchanged |
| ThinLock.Releases | src/cpu/ppc/vm/interp_masm_ppc_64.cpp:983-1033 | an owner that is not disturbed pops its innermost box and frees it; with the last box the header is back in the mark, otherwise the mark stays |
| ThinLock.Exchange | src/cpu/ppc/vm/interp_masm_ppc_64.cpp:868-897 | whatever other threads do between the load, the store and the exchange, the object is taken iff its mark is then the loaded one, unlocked; otherwise the recursion test follows, or in the runtime the wait |
| ThinLock.BlocksOnlyIf | src/share/vm/runtime/synchronizer.cpp:226-261 | a step makes a thread wait only if another thread holds the object or the exchange in the runtime found another mark than it expected |
| ThinLock.MutualExclusion | src/cpu/ppc/vm/interp_masm_ppc_64.cpp:860-935 | after every interleaving of any number of threads an object has at most one holder, and its mark is unlocked exactly when it has none |
| ThinLock.OneDisplacedHeader | src/cpu/ppc/vm/interp_masm_ppc_64.cpp:869-922 | after every interleaving exactly one box of a held object has a displaced header: the one the mark points to, and it is the last unlocked mark |
| ThinLock.ExitNeverFails | src/cpu/ppc/vm/interp_masm_ppc_64.cpp:982-1033 | no interleaving makes the compare-and-swap of unlock_object fail |
| ThinLock.NeverBlocksOnOwn | src/share/vm/runtime/synchronizer.cpp:226-261 | in every interleaving, a thread that waits in the runtime does not hold the object it waits for |
| ThinLock.RestoresHeader | src/cpu/ppc/vm/interp_masm_ppc_64.cpp:983-1012 | from the step that locks a free object to the step that frees it, whatever happens in between, the mark that comes back is the one that was displaced |
| ThinLock.LoadInv | src/share/vm/runtime/synchronizer.cpp:226-261 | the load of the mark, on the fast path and in slow_enter, leads only to states the invariant allows |
| ReceiverProfile.Emitter.EmitLevel | src/cpu/ppc/vm/interp_masm_ppc_64.cpp:1645-1723 | the recursive emitter with its row loop and bound labels appends exactly the level for its rows, and leaves what was in the buffer alone |
| ReceiverProfile.Emitter.EmitRecord | src/cpu/ppc/vm/interp_masm_ppc_64.cpp:1634-1655 | record_klass_in_profile appends the whole tree, or only a counter bump for width zero |
| ReceiverProfile.Emitter.EmitVirtualCall | src/cpu/ppc/vm/interp_masm_ppc_64.cpp:1461-1489 | the code of a profiled virtual call, with the null test when the receiver can be null |
| ReceiverProfile.RecordRun | src/cpu/ppc/vm/interp_masm_ppc_64.cpp:1645-1723 | for every row count and every table the emitted code bumps the first matching row, or else claims the first empty one with count one, or else bumps the shared counter for virtual calls; it holds n(n+1)/2 receiver tests and executes exactly as many as rows are searched, at most n |
| ReceiverProfile.LevelRun | src/cpu/ppc/vm/interp_masm_ppc_64.cpp:1664-1722 | the same of every recursive level, for the rows from its start on |
| ReceiverProfile.LevelTests | src/cpu/ppc/vm/interp_masm_ppc_64.cpp:1664-1722 | a level for m rows holds m + (m-1) + ... + 1 receiver tests |
| ReceiverProfile.RowsRun | src/cpu/ppc/vm/interp_masm_ppc_64.cpp:1664-1678 | a run of row tests counts the first match and leaves, or falls through with the table unchanged |
| ReceiverProfile.VirtualCallRun | src/cpu/ppc/vm/interp_masm_ppc_64.cpp:1461-1489 | a null receiver bumps the shared counter, any other is recorded |
| ReceiverProfile.ProfileExact | src/cpu/ppc/vm/interp_masm_ppc_64.cpp:1461-1489 | after any calls from an empty table the rows hold the first n distinct receivers in order of appearance with their exact counts, the shared counter holds all other calls, and the counters add up to the number of calls |
| ReceiverProfile.RunIsExact | src/cpu/ppc/vm/interp_masm_ppc_64.cpp:1461-1489 | the same of the emitted code, run once per call |
| ReceiverProfile.RunCells | src/cpu/ppc/vm/interp_masm_ppc_64.cpp:1461-1489 | the same cell by cell: row i is in cells 2i + 1 and 2i + 2, and cell 0 counts the calls on null as long as every receiver has a row |
| ReceiverProfile.DistinctExactly | src/cpu/ppc/vm/interp_masm_ppc_64.cpp:1645-1723 | the list of distinct receivers holds each non-null receiver once and nothing else |
| TypeCell.MethodData.ProfileObjType | src/cpu/ppc/vm/interp_masm_ppc_64.cpp:1727-1772 | the emitted code makes one step of the automaton for null and for aligned klass pointers, and drops an object whose klass pointer has bit 1 set |
| TypeCell.ExitIsRedundant | src/cpu/ppc/vm/interp_masm_ppc_64.cpp:1749-1756 | leaving early when the cell is unknown would give the same cell, for every cell and aligned klass |
| TypeCell.CellExact | src/share/vm/oops/methodData.hpp:756-768 | after any observations from an empty cell its value is the first klass, plus 1 iff null occurred, plus 2 iff two klasses differed |
| TypeCell.RunMonotone | src/share/vm/oops/methodData.hpp:756-768 | along every run from any cell neither status bit is taken back and a recorded klass stays |
| Monitors.UsedExactly | src/cpu/ppc/vm/interp_masm_ppc_64.cpp:664-700 | the list of used boxes holds exactly those with an object, each once, by falling address |
| Monitors.Frame.FindUsed | src/cpu/ppc/vm/interp_masm_ppc_64.cpp:674-708 | the search loop, which loads one field ahead, finds the oldest used box and its address, or that there is none |
| Monitors.Frame.Sweep | src/cpu/ppc/vm/interp_masm_ppc_64.cpp:664-725 | not throwing: it ends with every box free, each used box released once, oldest first, one restart each, one exception installed each if asked for; throwing: it changes nothing and raises iff a box is used |
| Monitors.Frame.UnlockIfSynchronized | src/cpu/ppc/vm/interp_masm_ppc_64.cpp:611-725 | the same with the method's own monitor, the oldest box, released first, one exception for it if it was already free (raised when throwing, otherwise counted as installed), and nothing at all when unlocking is off |
| Monitors.Frame.AddMonitor | src/cpu/ppc/vm/interp_masm_ppc_64.cpp:1948-1992 | the operands are the same sequence below the new box; the back chain, all older boxes and the interpreter state are as they were but for the recorded SP |
| FrameManager.NewActShape | src/cpu/ppc/vm/cppInterpreter_ppc.cpp:512-560 | the new frame has room for exactly max_stack operands and, for a synchronized method only, one monitor; both frames are aligned and less than 16 bytes larger than what they hold |
| FrameManager.Manager.PushInterpreterFrame | src/cpu/ppc/vm/interp_masm_ppc_64.cpp:2404-2428 | the top frame becomes a parent frame with back chain, return address, initial caller and the old SP; the new top frame holds the frame manager's return address and its own SP; nothing above changes |
| FrameManager.Manager.ComputeInterpreterState | src/cpu/ppc/vm/cppInterpreter_ppc.cpp:366-860 | either nothing changed because the new frame is below the overflow limit, or the frame, of the size it must have, the interpreter object, the zeroed locals and the free monitor are in place and nothing above them changed |
| FrameManager.Manager.ZeroLocals | src/cpu/ppc/vm/cppInterpreter_ppc.cpp:829-857 | the loop zeroes exactly the locals that are not parameters |
| FrameManager.Manager.Enter | src/cpu/ppc/vm/cppInterpreter_ppc.cpp:1771-1820 | the initial entry sets up one activation, or on overflow gives the caller its frame back |
| FrameManager.Manager.Call | src/cpu/ppc/vm/cppInterpreter_ppc.cpp:2580-2626 | a call adds one activation below the caller, with the frame manager's return address of the caller's top frame in its parent frame, or, on overflow, resumes the caller; the caller's words from the arguments up are untouched |
| FrameManager.Manager.ResumeAfterOverflow | src/cpu/ppc/vm/cppInterpreter_ppc.cpp:2095-2150 | after a failed call the caller is found through the back chain and resumed with its operands |
| FrameManager.Manager.PopFrameToState | src/cpu/ppc/vm/interp_masm_ppc_64.cpp:2459-2486 | SP and back chain come from the resumed activation's object |
| FrameManager.Manager.Return | src/cpu/ppc/vm/cppInterpreter_ppc.cpp:2179-2417 | exactly the youngest activation goes and everything above its arguments is as it was; after a result of k slots they stand where the arguments were and the caller's top of stack is k slots below the first argument's; after an exception the arguments are popped; after a popped frame the top of stack and every word above it are as they were |
| FrameManager.ReturnedWords | src/cpu/ppc/vm/cppInterpreter_ppc.cpp:2241-2417 | the same of the words that the converters and the unwinding store |
| FrameManager.Manager.Leave | src/cpu/ppc/vm/cppInterpreter_ppc.cpp:2423-2574 | leaving the last activation puts SP and the back-chain word back to those of the entry; without an exception LR is the entry's and no other word changes; with one (thrown, or pending on a normal return, but not for a popped frame) LR is the handler for the return address, which is the issuing pc, the exception is taken from the thread, and no word above SP changes |
| FrameManager.Manager.FindHandler | src/cpu/ppc/vm/cppInterpreter_ppc.cpp:2556-2563 | the call from a frame of its own comes back to the same SP with the handler in LR, whatever the C function stores below |
| FrameManager.Manager.PassException | src/cpu/ppc/vm/cppInterpreter_ppc.cpp:2549-2574 | the handler for the return address goes to LR, the return address to the issuing pc, the exception out of the thread, and no word from SP on changes |
| FrameManager.Manager.ShiftDown | src/cpu/ppc/vm/cppInterpreter_ppc.cpp:1708-1724 | the overlapping word-by-word copy moves every word of the range, one past the operands included, down by a monitor |
| FrameManager.Manager.MoreMonitors | src/cpu/ppc/vm/cppInterpreter_ppc.cpp:1654-1731 | the operands are the same sequence, the new monitor is marked free, every older monitor and all other activations are untouched, and the frame manager's return address moves along |
| FrameManager.BackChain | src/cpu/ppc/vm/interp_masm_ppc_64.cpp:2404-2514 | in every valid state the back chain strictly rises through exactly the live activations to the frame of the entry |
| FrameManager.Manager.Step | src/cpu/ppc/vm/cppInterpreter_ppc.cpp:1826-1943 | every legal request keeps all activations valid, changes their number as it should, and changes only words of the activation concerned and below |
| FrameManager.LiveKeeps | src/cpu/ppc/vm/cppInterpreter_ppc.cpp:1734-2626 | in any run, while an activation is live, its callers stay the same, and neither a word above its first local nor the return address in its parent frame changes |
| FrameManager.LiveKeepsWord | src/cpu/ppc/vm/cppInterpreter_ppc.cpp:1734-2626 | nor does any word from its parent frame up that the interpreter did not store to for that activation |
| FrameManager.StaysLinked | src/cpu/ppc/vm/interp_masm_ppc_64.cpp:2404-2485 | if every activation but the first returns to the frame manager, then so it is after any request that spares the word for it in the top frame |
| FrameManager.BalancedCall | src/cpu/ppc/vm/cppInterpreter_ppc.cpp:1734-2626 | from a call to the matching return, whatever is nested in between: the caller and its callers are the same activations, its operands above the arguments and its monitors are the same word for word, and its top of stack is the one for the way the callee ended |
| FrameManager.PoppedArgument | src/cpu/ppc/vm/cppInterpreter_ppc.cpp:2179-2225 | after a popped frame an argument that the callee did not store to is as it was at the call |
| FrameManager.Manager.Run | src/cpu/ppc/vm/cppInterpreter_ppc.cpp:1734-2626 | any properly nested run from the entry: while activations are left, SP is aligned, the back chain leads through them, and all but the first return to the frame manager unless the interpreter overwrote that address; once the last is left, SP is the sender's SP, the entry's back chain is stored there, and LR is the entry's return address or, with an exception, its handler; from the end of the arguments on no word changes but that one, except below SP for the C function that finds a handler |
| CoreFile.Qsort | agent/src/os/linux/ps_core.c:405-417 | the sort leaves a sorted rearrangement of the mappings |
| CoreFile.Core.AddMapInfo | agent/src/os/linux/ps_core.c:121-134 | a mapping is put at the head of the list and counted |
| CoreFile.Core.SortMapArray | agent/src/os/linux/ps_core.c:419-459 | the array is the sorted rearrangement of the list |
| CoreFile.Core.Search | agent/src/os/linux/ps_core.c:154-172 | the binary search ends at the only entry that can contain the address |
| CoreFile.Core.Lookup | agent/src/os/linux/ps_core.c:152-196 | the lookup is the linear scan of the list, and of the class-share list only if that finds nothing |
| CoreFile.PaddedApart | agent/src/os/linux/ps_core.c:492-503 | disjoint page-aligned mappings stay disjoint when padded to their page ends |
| CoreFile.PadEndAligned | agent/src/os/linux/ps_core.c:492-503 | a padded mapping ends at a page boundary less than a page behind the mapping |
| CoreFile.ImageOf | agent/src/os/linux/ps_core.c:465-513 | with complete files an address of a padded mapping has one byte: the one its file holds, or zero in the tail |
| CoreFile.Core.ReadMap | agent/src/os/linux/ps_core.c:470-503 | one turn of the loop, for a file of any length: nothing if the file has ended, or else the bytes that are there and then as many zeros as the mapping has padding |
| CoreFile.Core.ReadData | agent/src/os/linux/ps_core.c:465-513 | for files of any length a read succeeds iff it is empty or starts at a byte that a file holds, and every byte of it is served, that is, lies before the end of its mapping's file or within the pad length behind it; the buffer is the file bytes and zeros behind them; bytes after the range are untouched; it always ends |
| CoreFile.TurnReadable | agent/src/os/linux/ps_core.c:488-503 | where the loop goes on after a mapping, an address that is served at all is one that a file holds, so the next turn can go on there |
| CoreFile.ReadIsImage | agent/src/os/linux/ps_core.c:484-503 | a read that went through is the memory of the process, whatever the missing parts of the files held, iff the range misses every gap between the end of a file and the end of its mapping |
| CoreFile.CompleteFiles | agent/src/os/linux/ps_core.c:465-513 | when the files hold all of their mappings, the addresses served are exactly those of the padded mappings, and there are no gaps |
| CoreFile.TruncatedFileReads | agent/src/os/linux/ps_core.c:484-503 | a concrete read of twenty bytes from a file of ten goes through, with ten zeros that are not padding, and is not the memory |
| CoreFile.SampleRead | agent/src/os/linux/ps_core.c:465-513 | a concrete read from the middle of a mapping at an offset into its file, on into the padding |
| CoreFile.PaddingCannotStart | agent/src/os/linux/ps_core.c:469-477 | a concrete read that starts in padding fails, although the memory is there |
| Crc32.TableIs | agent/src/os/linux/symtab.c:68-122 | each of the 256 table entries is what eight bit steps make of its index |
| Crc32.ShiftLinear | agent/src/os/linux/symtab.c:65-129 | the bit step of the CRC is linear |
| Crc32.StepIs | agent/src/os/linux/symtab.c:125-128 | the table step is eight bit steps, for every register and byte |
| Crc32.DebuglinkCrc32 | agent/src/os/linux/symtab.c:65-129 | for every start value and byte string the loop computes the bit-at-a-time reflected CRC-32 of section 8 of RFC 1952, complemented on the way in and out |
| Crc32.CheckValues | agent/src/os/linux/symtab.c:65-129 | the CRC of the digits 123456789 is 0xcbf43926, the check value of CRC-32, and that of a zero byte is 0xd202ef8d |
| Crc32.CrcAppend | agent/src/os/linux/symtab.c:146-151 | continuing a CRC with more bytes gives the CRC of the concatenation |
| Crc32.FileCrc | agent/src/os/linux/symtab.c:146-151 | the chunk loop computes the CRC of all that the reads delivered, whatever their sizes |
| Crc32.OpenDebugFile | agent/src/os/linux/symtab.c:134-159 | the file is accepted iff that CRC is the given one; if no read fails it is the CRC of the whole file |
| PeekReader.NeededExactly | agent/src/os/linux/ps_proc.c:68-115 | the needed words are exactly the aligned words that meet the range, ascending, each once |
| PeekReader.Target.ReadHead | agent/src/os/linux/ps_proc.c:74-86 | an unaligned start takes one peek and copies the bytes up to the word boundary or the end |
| PeekReader.Target.ReadWords | agent/src/os/linux/ps_proc.c:88-101 | the word loop peeks every whole word once, in order, and copies it |
| PeekReader.Target.ReadData | agent/src/os/linux/ps_proc.c:68-115 | the words asked for are the needed ones up to the first that cannot be read; it succeeds iff there is none, and then the buffer is the target's bytes, for every alignment and size |
| ThreadList.ProcHandle.AddThreadInfo | agent/src/os/linux/libproc_impl.c:241-257 | a new node is the new head, the rest follows it, and the count goes up |
| ThreadList.ProcHandle.DeleteThreadInfo | agent/src/os/linux/libproc_impl.c:259-278 | exactly the given node is unlinked and the count goes down; a node that is not in the list changes nothing |
| ThreadList.AttachThreads | agent/src/os/linux/ps_proc.c:478-497 | the walk over the heap list, although it deletes nodes, makes exactly the attach calls and leaves exactly the list of a pass over the original sequence |
| ThreadList.VisitsMean | agent/src/os/linux/ps_proc.c:478-497 | the pass goes through iff no answer is a failure; then every thread but the main one was asked about once, in order, the list is the threads not reported dead, in order, and each of them but the main one is attached to once |
| ThreadList.SurvivorsExactly | agent/src/os/linux/ps_proc.c:486-489 | a thread is in the list afterwards iff it was not reported dead |
| ThreadList.AttachedAreListed | agent/src/os/linux/ps_proc.c:490-493 | even when the pass fails, a thread it attached to is still in the list |
| ThreadList.MainIsListed | agent/src/os/linux/ps_proc.c:423-430 | the main thread is in the list afterwards iff it was enumerated |
| ThreadList.DetachAll | agent/src/os/linux/ps_proc.c:423-430 | every listed thread is detached from once, in order |
| ThreadList.Pgrab | agent/src/os/linux/ps_proc.c:444-498 | success: the list, a valid linked list of its counted length, is the enumerated threads not reported dead in their order; failure: no handle, and every thread the loop attached to is detached from, the process itself iff the enumeration contains it |
| ThreadList.ProcessStaysAttached | agent/src/os/linux/ps_proc.c:444-498 | a concrete enumeration without the main thread, and a failing attach, after which the process is still attached |

## Left out

- Biased locking, lock inflation and contended monitors: a blocked thread of `ThinLock` never acquires.
- ThinLock.ApplyInv: the inflation of a contended lock is not among the steps.
- ThinLock.MutualExclusion: accesses are sequentially consistent, because the fences of `cmpxchgd` are not modelled; no lock is inflated; thread stacks are at least a page apart and unlocking is innermost first.
- ThinLock.OneDisplacedHeader: speaks of runs in which no lock is inflated.
- ThinLock.ExitNeverFails: speaks of runs in which no lock is inflated; a blocked thread that inflates makes this compare-and-swap fail.
- ThinLock.RestoresHeader: speaks of runs in which no lock is inflated.
- ThinLock.LoadInv: the inflating end of `slow_enter` is a blocked state.
- Monitors.Frame.UnlockIfSynchronized: excludes a synchronized method whose own monitor is already free when neither flag says what to do, because the emitted code then unlocks an empty box; releasing is clearing the box.
- Monitors.Frame.AddMonitor: the contents of the new box are the caller's to fill in.
- FrameManager.Manager.ComputeInterpreterState: native methods are not modelled, nor the fields of the interpreter object that do not describe the frame.
- FrameManager.Manager.Leave: the conversion of a result into the return register is not modelled.
- FrameManager.Manager.Call: callees that are not interpreted are not modelled.
- FrameManager.Manager.Run: native, OSR and deoptimization entries are not modelled; the argument area of a C callee is not either.
- FrameManager.Manager.Interpret: interpreted code stores only to its own operands, monitors and locals, the free words of its object, and its frame's header except the back chain.
- ReceiverProfile.ProfileExact: counters are unbounded, because a 64-bit counter is never expected to wrap; the method data pointer is taken to be set.
- CoreFile.Core.AddMapInfo: the linked list of mappings is a sequence, because it only grows at its head and is walked; relinking and allocation failure are not modelled.
- CoreFile.Core.ReadData: a pread is short only at the end of the file, so interrupted and failing reads are not modelled; no padded mapping reaches the end of the address space; there is at least one mapping, since the search reads the array without a check.
- CoreFile.Core.Lookup: speaks of states right after the sort, because `read_lib_segments` counts mappings before it sorts again.
- PeekReader.Target.ReadData: the range does not wrap around the address space.
- Crc32.OpenDebugFile: opening and closing the file are not modelled.
- ThreadList.Pgrab: allocation failures, library information and error texts are not modelled.
- ptrace, waitpid, /proc parsing, libthread_db, ELF reading, `sadis.c` and the BSD agent: I/O and foreign calls, or copies of the Linux logic.
- The other opcode emitters, `bytes_ppc.hpp`, `copy_ppc.hpp`, flag tables, stubs and inline-cache patching: single expressions, or code resting on files outside this model.
