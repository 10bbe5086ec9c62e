# Cosy, modelled and proved in Dafny

Cosy is a ptrace debugger for x86-64 and AArch64 Linux. This project models the parts of it that carry its promises
and proves those promises for every input, every run and every behaviour of the kernel that the model allows.

`dafny verify dfyconfig.toml` checks everything.

## The main results

**A software breakpoint is invisible to the program.** Breakpoints are patches in the target's memory. *Logical
memory* is what memory would be without them: at an armed footprint the saved bytes, elsewhere the raw bytes. The
class `Debugging.Debugger` holds the table, the pending list and the traced process, and its methods are the
debugger's own, down to the eight-byte words read and written through ptrace, any of which may be refused. Proved:

- Creating, enabling, disabling, removing, resolving, stepping over and detaching all leave logical memory alone,
  whether they end normally or by an exception, and every trap the debugger has written belongs to an enabled entry
  with the right saved bytes (`Sound`, carried by every method, and `LogicalMemory.NoOrphanedTrap`).
- After any command, registers and logical memory are those of the program run without a debugger for exactly the
  instructions the target has executed: the target is *in step*. On AArch64 this always holds. On x86-64 it holds if
  and only if the stop was rightly reported: a hit was reported exactly if the target had trapped
  (`Stops.RightlyReported`). Every running command carries this equivalence, for every refusal and exception.
- In a whole session each command does what it should, in terms of the undebugged run and the table before it, and
  after `detach` raw memory is the undebugged memory (`Debugging.Debugger.Session`, `Commands.Performed`).
- `continue` stops at the first armed address the undebugged run meets, skipping none, with the pc rewound onto it,
  or when the user's patience is at its end (`Debugging.Debugger.ContinueExecution`, `Stops.StopIsUnique`); `finish` does so with the return address added
  (`Debugging.Debugger.StepOut`); where `stepi` and `step` land is determined by the undebugged run and the armed
  addresses (`Stops.Advance`, `Stops.StepEnds`), and `step` takes the least number of instructions that leaves the
  source line when no visited pc has an entry (`Debugging.Debugger.SourceStep`).

**The thread table agrees with the kernel.** In `Threads` the kernel reports stops, clones and exits of running
threads in any order, and a request can succeed only on a stopped thread. After any session, the rows marked stopped
are exactly the threads reported stopped and neither resumed nor reported gone since. Stepping keeps the other
threads paused.

**Watchpoints.** `WatchX86` proves the bit surgery on debug register 7 against section 17.2.4 of the Intel SDM,
Volume 3B, over any history of requests. `WatchArm` does the same for the AArch64 register set. `WatchTable` adds
slot allocation and what every thread's registers show, on either architecture.

**Codecs and walkers.** `Text` (addresses, `hex`, words), `Backtraces`, `Location` (DWARF expressions) and `Symbols`.

## What is assumed of the program

The processor is an abstract instruction set: for each state the registers after one instruction, the bytes it
stores, and the bytes it fetches or loads. The proofs about runs assume (`Machine.Tame`) that an instruction depends
only on the bytes it loads; that on the undebugged run no instruction loads or stores a byte on which a breakpoint may
sit, except that it may start there; that breakpoints are placed on instruction starts (on AArch64, multiples of
four); and that the program has no breakpoint instruction of its own. `Machine.NopIsTame` shows that the assumption
can be met. Where the modules resolve a specification is a parameter of each command and constant while it runs.

## Where the code falls short of the ideal

The model follows the code. Each of these is proved, with the condition under which it happens or an input for which
it does. The inputs for the first, third and fourth run on a machine whose instructions count themselves in a
register, and the targets they leave behind are nowhere on the undebugged run, after any number of instructions
(`Stops.OffTheRun`); that machine meets the assumption above (`Stops.CountIsTame`).

- On x86-64 `print_stop` rewinds on every SIGTRAP whose pc minus one is in the table, armed or not
  (src/debugger.cpp:509-515). So a reported `stepi` follows the undebugged run if and only if it ended on a trap, or
  no entry lies one byte below the pc it reached (`Debugging.Debugger.InstructionStep`). `Stops.GenuineStepRewound`
  gives a failing case. The same holds for the `thread` command, which reports the last stop again
  (src/debugger.cpp:744, `Debugging.Debugger.ReportAgain`).
- `stepi` from an armed pc executes two instructions, or one when the second is armed too (src/debugger.cpp:407-408,
  `Stops.Advance`).
- `step` does not report the stops within its loop (src/debugger.cpp:419). On x86-64 it goes astray, from a pc inside
  an instruction, if and only if an armed entry it stepped over leads directly to an armed one and the address one
  byte on is still on the starting line (`Stops.StrayedBackToBack`); `Stops.StepGoesAstray` is such a case.
- On x86-64, when reading the modules or arming a resolved breakpoint throws between a trap and its report
  (src/debugger.cpp:478-480), or the report itself cannot read or write the pc (lines 511-515, an exception that is
  swallowed), the pc is never rewound. These are the stops that trapped and reported no hit; `Stops.UnreportedTrap`
  is one.
- `finish` returns the existing entry when the return address already has one (src/debugger.cpp:212-214), even a
  disarmed one. So it can stop there if and only if there was no entry or an enabled one (`Stops.FinishStopsAtReturn`,
  `Stops.FinishMissesReturn`).
- A `finish` that is interrupted leaves its temporary entry behind, and a later command removes it when it stops there
  (src/debugger.cpp:518-521). `Stops.FinishRemoves` says exactly which entries `finish` removes;
  `Stops.LeftoverRemoved` is a case where one that was there before goes.
- In `step_over_breakpoint`, when another thread's stop answers the single step, arming goes through the selected
  thread, which is running, and throws. Lines 372-373 of src/debugger.cpp are therefore never reached
  (`Threads.ThreadControl.StepOverBreakpoint`).
- A symbol whose range reaches the end of the address space covers nothing, not even its own value
  (src/elf_dwarf.cpp:146-147). `Symbols.FunctionOfSymbol` states exactly when the lookup comes back;
  `Symbols.SymbolAtTheTop` is a case where it does not.
- A memory location description that uses DW_OP_deref is not loaded from (src/elf_dwarf.cpp:313-316, 331-333), a
  register number is cut to 32 bits (lines 298 and 307), and DW_OP_addr pushes the address in the file even if the
  module is loaded elsewhere (lines 290-291). `Location.FoundIsMeaning` shows that descriptions off these three families
  mean what sections 2.5.1 and 2.6.1.1 of DWARF 5 say; `Location.DerefIsNotMeaning`, `Location.WideIsNotMeaning` and
  `Location.AddressIsNotMeaning` show that those in them do not: all of the first two, and of the third those whose
  last push is an address.
- A `watch` given while no thread is stopped is recorded unchecked (src/debugger.cpp:346-349), and an entry that is
  not acceptable then makes every later set-up of a thread throw (`WatchTable.Table.ConfigureThread`).

## Model

| member | source | states |
|---|---|---|
| Words.ExtractByte | src/debugger.cpp:164-165 | shifting and masking yields the byte at that place of a little-endian word |
| Words.MergeByte | src/debugger.cpp:178-180 | mask, shift and or replace one byte of a word and no other |
| Words.LittleEndian | src/debugger.cpp:164-165 | byte 0 of a word is its low byte |
| TargetMemory.PutBytesAt | src/debugger.cpp:170-187 | the reference store puts each byte at its own wrapping address and changes nothing else |
| ByteAccess.ReadBytes | src/debugger.cpp:159-168 | returns the bytes of the range, for every address and length, or a request was refused |
| ByteAccess.FetchWord | src/debugger.cpp:175-177 | fetching a word into the cache changes nothing of what the cache stands for |
| ByteAccess.StoreByte | src/debugger.cpp:173-180 | one turn of the caching loop: the cached words laid over memory now include that byte |
| ByteAccess.CacheWords | src/debugger.cpp:171-181 | the cached words laid over memory are memory after the byte-by-byte store |
| ByteAccess.PokeWords | src/debugger.cpp:182-186 | after the pokes memory is that store; after a failure each byte is old or new |
| ByteAccess.WriteBytes | src/debugger.cpp:170-187 | the word-wise write is the byte-by-byte store; a failure within one word changes nothing |
| ByteAccess.ReadBack | src/debugger.cpp:159-187 | the range reads back exactly as written and every byte outside it is unchanged |
| Architecture.CandidateOfTrap | src/debugger.cpp:512-513 | looking back from where the hardware leaves the pc finds the breakpoint, on both architectures |
| Architecture.FootprintOfSite | src/architecture_aarch64.cpp:39-42 | footprints of distinct aligned addresses are disjoint and lie in one aligned word |
| LogicalMemory.Arming | src/debugger.cpp:193-195 | saving and patching a footprint leaves logical memory alone, also if only the saving happened |
| LogicalMemory.Disarming | src/debugger.cpp:198-204 | writing the saved bytes back leaves logical memory and every other armed footprint alone |
| LogicalMemory.DisarmedEntryInvisible | src/debugger.cpp:215-221 | adding or erasing a disarmed entry does not change logical memory |
| LogicalMemory.NoOrphanedTrap | src/debugger.cpp:170-250 | wherever raw and logical memory differ, an enabled entry holds the original byte |
| LogicalMemory.NothingArmed | src/debugger.cpp:783-785 | with nothing armed raw memory is logical memory |
| Machine.TrapIffArmed | src/debugger.cpp:356-361 | patched memory traps exactly at enabled entries |
| Machine.PatchTraps | src/architecture_aarch64.cpp:39-42 | what enable patches in is a breakpoint instruction by the processor's own encoding, INT3 or BRK |
| Machine.BrkEncoding | src/architecture_aarch64.cpp:40-42 | the bytes taken for BRK are the words w with w & 0xffe0001f == 0xd4200000 |
| Machine.StepSimulates | src/debugger.cpp:363 | one instruction on patched memory is one instruction of the undebugged machine |
| Machine.StretchSimulates | src/debugger.cpp:395-400 | a stretch without trap mirrors the undebugged run and passes no armed entry |
| Ptrace.Tracee.SetPc | src/debugger.cpp:515 | changes the pc and nothing else, or is refused and changes nothing |
| Ptrace.Tracee.Peek | src/debugger.cpp:150-157 | reads the word at the address, or is refused |
| Ptrace.Tracee.Poke | src/debugger.cpp:183-185 | writes the eight bytes at the address and no other, or is refused and changes nothing |
| Ptrace.Tracee.SingleStep | src/debugger.cpp:363-365 | one instruction of the processor on raw memory, or the trap at the pc; each answered request counts |
| Ptrace.Tracee.Cont | src/debugger.cpp:383-386 | runs to the first trap in raw memory, or for as many instructions as the user has patience |
| Debugging.Debugger.constructor | src/debugger.cpp:799-808 | an empty table is sound and in step with the undebugged run |
| Debugging.Debugger.Enable | src/debugger.cpp:189-196 | arms the entry, or throws leaving memory as it was; logical memory unchanged |
| Debugging.Debugger.Disable | src/debugger.cpp:198-204 | disarms the entry, or throws leaving all as it was; logical memory unchanged |
| Debugging.Debugger.CreateBreakpoint | src/debugger.cpp:211-226 | an existing entry is returned as it is; a new one is in the table, armed unless arming threw |
| Debugging.Debugger.CreatePending | src/debugger.cpp:228-236 | appends a pending entry under a fresh identifier |
| Debugging.Debugger.EraseEntry | src/debugger.cpp:519-521 | the entry is disarmed and gone, or, on an exception, still there and armed |
| Debugging.Debugger.RemoveBreakpoint | src/debugger.cpp:238-250 | exactly the live or pending entries with that identifier are gone |
| Debugging.Debugger.CreateAll | src/debugger.cpp:302-305 | each resolved address has an entry; new ones are armed, lasting and carry the specification; others are unchanged |
| Debugging.Debugger.PlacePending | src/debugger.cpp:287-291 | one specification that resolves: its addresses have entries and it leaves the list, or arming threw |
| Debugging.Debugger.RetryPending | src/debugger.cpp:282-291 | one turn: an entry that resolves is placed and leaves the list, another stays where it is |
| Debugging.Debugger.ResolvePending | src/debugger.cpp:280-293 | exactly the unresolvable specifications stay, in order; every resolved address has an entry, armed if new |
| Debugging.Debugger.SetBreakpoint | src/debugger.cpp:295-306 | a specification becomes armed entries at its addresses, or one pending entry |
| Debugging.Debugger.Detach | src/debugger.cpp:781-793 | no more entries stay armed than requests were refused, so with none refused raw memory becomes logical memory, which never changes |
| Debugging.Debugger.PrintStop | src/debugger.cpp:504-524 | where the pc ends up, whether a hit is reported and which entry disappears, for any stop, table and refusal |
| Debugging.Debugger.WaitAndReport | src/debugger.cpp:478-480 | pending specifications are retried, every entry survives, then the stop is reported against that table |
| Debugging.Debugger.ReportAgain | src/debugger.cpp:744 | the target stays in step if and only if, on x86-64, no hit is reported; unrefused, that is if no entry lies one byte below |
| Debugging.Debugger.StepOverBreakpoint | src/debugger.cpp:356-376 | from an armed pc the undebugged machine advances one instruction and the entry is armed again |
| Debugging.Debugger.StepDisarmed | src/debugger.cpp:363-369 | the step and the re-arming, with the entry at the pc disarmed |
| Debugging.Debugger.Resume | src/debugger.cpp:395-399 | the run passes no armed entry, traps only at one, and is interrupted only when the patience is at its end |
| Debugging.Debugger.ContinueExecution | src/debugger.cpp:389-401 | a trap is the first armed address the undebugged run meets within the user's patience; in step if and only if its hit is reported; entries survive but a temporary one there |
| Debugging.Debugger.AfterResume | src/debugger.cpp:400 | a trap is reported as a hit at the armed entry unless a request was refused |
| Debugging.Debugger.StepOne | src/debugger.cpp:408 | one instruction of the undebugged run, or none at an armed entry |
| Debugging.Debugger.ReportStep | src/debugger.cpp:409 | when a single step is reported as a hit, by the table and pending list before it; pending entries are retried |
| Debugging.Debugger.InstructionStep | src/debugger.cpp:403-410 | two single steps and two instructions from an armed pc, one each from another, and a trap if the second is armed; exactly when the target is in step, by the table and pending list before it |
| Debugging.Debugger.Turn | src/debugger.cpp:419-421 | one turn takes the step one landing on |
| Debugging.Debugger.StepWithinLine | src/debugger.cpp:418-426 | the loop ends at the first turn that leaves the line or goes astray, or after 100000 |
| Debugging.Debugger.ReportLeaving | src/debugger.cpp:422-424 | the report at the end of the loop hits if an entry is at the candidate address |
| Debugging.Debugger.StepOffLine | src/debugger.cpp:418-428 | a step from a known location concludes as StepConcludes says |
| Debugging.Debugger.StepSomewhere | src/debugger.cpp:414-417 | a step from an unknown location is one instruction step |
| Debugging.Debugger.SourceStep | src/debugger.cpp:412-428 | where the step lands; the least number of steps that leaves the line, or 100000, if no visited pc has an entry; exactly when the target is in step |
| Debugging.Debugger.ReturnAddress | src/architecture_aarch64.cpp:50-56 | the word above the frame pointer |
| Debugging.Debugger.StepOut | src/debugger.cpp:430-439 | within the patience the run stops first at an entry of the table with the return address added; of the earlier entries exactly a temporary one it stopped at is removed |
| Debugging.Debugger.FinishAt | src/debugger.cpp:433-435 | the same from a given return address |
| Debugging.Debugger.Toggle | src/debugger.cpp:706-718 | the entry with that identifier ends enabled or disabled, every other is unchanged |
| Debugging.Debugger.Edit | src/debugger.cpp:700-718 | each editing command does to the table and the pending list what it says, and the target stays in step whatever is refused |
| Debugging.Debugger.Go | src/debugger.cpp:696-699 | continue and finish do what Performed says; the target is in step if and only if the reply is right |
| Debugging.Debugger.Control | src/debugger.cpp:696-745 | each running command does, and reports right if and only if the target is in step; only a finish beyond the assumption does nothing |
| Debugging.Debugger.Dispatch | src/debugger.cpp:690-759 | both of these for any command |
| Debugging.Debugger.Session | src/debugger.cpp:761-793 | every command does what it should from moment to moment, the target is in step if and only if the last reply is right, and detach restores memory |
| Stops.RewoundRightly | src/debugger.cpp:511-516 | the pc is right after a report if and only if a hit was reported exactly on a trap |
| Stops.StepReported | src/debugger.cpp:509-515 | a reported single step is right, on x86-64, if and only if it trapped or no entry lies one byte below |
| Stops.StoppedFirst | src/debugger.cpp:394-400 | stepping over the entry at the pc and running on meets entries in the order of the undebugged run |
| Stops.StopIsUnique | src/debugger.cpp:389-401 | the undebugged run, the table and the patience determine where and why continue stops |
| Stops.FollowedByReport | src/debugger.cpp:518-523 | a report keeps every entry but a temporary one it hit, and all that was resolved before it |
| Stops.Settled | src/debugger.cpp:280-293 | retrying pending specifications a second time adds nothing, and all that were added are armed |
| Stops.GenuineStopKept | src/debugger.cpp:509-515 | a pc no trap advanced is left alone if and only if, on x86-64, no entry lies one byte below |
| Stops.GenuineStepRewound | src/debugger.cpp:509-515 | a disarmed entry at 0x1000 rewinds a step that ended in step at 0x1001, and the target has left the undebugged run |
| Stops.UnreportedTrap | src/debugger.cpp:478-480 | a trap at 0x1000 that is never reported leaves the pc at 0x1001, and the target has left the undebugged run |
| Stops.FinishStopsAtReturn | src/debugger.cpp:430-435 | finish can stop at the return address if and only if it had no entry or an enabled one |
| Stops.FinishMissesReturn | src/debugger.cpp:430-435 | with a disarmed entry at the return address, finish runs with nothing armed |
| Stops.FinishRemoves | src/debugger.cpp:518-521 | of the earlier entries exactly a temporary one that was hit is removed, of its own exactly when it was hit |
| Stops.LeftoverRemoved | src/debugger.cpp:518-521 | a second finish removes the entry an interrupted one left behind |
| Stops.ReturnSlotUnpatched | src/debugger.cpp:432 | with nothing armed in the slot, the return address read is the undebugged one |
| Stops.TurnDone | src/debugger.cpp:418-426 | a turn ends the loop or lets it go on, and the last one allowed ends it |
| Stops.StepEndIsUnique | src/debugger.cpp:412-428 | the undebugged run and the armed addresses determine how a step ends |
| Stops.StrayedBackToBack | src/debugger.cpp:418-426 | a step goes astray if and only if an armed entry leads directly to an armed one from which the next byte is on the line |
| Stops.StepGoesAstray | src/debugger.cpp:418-426 | two armed one-byte instructions on one line: the loop goes on from 0x1002, off the undebugged run |
| Stops.UnmarkedStep | src/debugger.cpp:418-426 | with no entry at a visited pc, the least number of steps that leaves the line, or 100000 |
| BreakpointIds.IdsArePairwiseDistinct | src/debugger.cpp:211-236 | what Sound says of identifiers: distinct across live and pending entries, below the next one, keys equal addresses |
| BreakpointIds.UnresolvedMembers | src/debugger.cpp:281-286 | the list kept by resolution holds exactly the unresolvable entries |
| BreakpointIds.UnresolvedConcat | src/debugger.cpp:281-291 | and keeps their order |
| BreakpointIds.WithoutIdAt | src/debugger.cpp:246-249 | with distinct identifiers, removal takes out just that entry |
| BreakpointIds.WithoutIdDistinct | src/debugger.cpp:246-249 | removal keeps identifiers distinct |
| Threads.StoppedAfterMeansStoppedSince | src/debugger.cpp:441-465 | replaying the log gives the threads with a reported stop and no later resumption or end |
| Threads.RecordedRows | src/debugger.cpp:441-465 | an announced clone has a row, not stopped if new; the event's thread has its own; no other row changes |
| Threads.ChildRowInEitherOrder | src/debugger.cpp:459-465 | a child's first stop and its parent's clone event give the same table in either order |
| Threads.Kernel.Resume | src/debugger.cpp:383-384 | may be asked only of a thread that is stopped |
| Threads.Kernel.Wait | src/debugger.cpp:139-148 | any event a running thread can cause |
| Threads.ThreadControl.ResumeThread | src/debugger.cpp:378-387 | resumes a thread only if the kernel has it stopped; table and kernel agree either way |
| Threads.ThreadControl.StepOverBreakpoint | src/debugger.cpp:356-376 | agreement and the other threads' pauses survive; if the kernel's answer is another thread's stop, it throws |
| Threads.ThreadControl.AwaitStep | src/debugger.cpp:365-376 | the answer to the single step, whichever thread it comes from |
| Threads.ThreadControl.WaitAndReport | src/debugger.cpp:441-481 | the reported event's thread is selected and the table records the event |
| Threads.ThreadControl.RecordStop | src/debugger.cpp:459-480 | a recorded stop restores agreement, also when a later request throws |
| Threads.ThreadControl.ResumeAll | src/debugger.cpp:395-399 | every stopped thread is resumed, or a resumption was refused |
| Threads.ThreadControl.ContinueExecution | src/debugger.cpp:389-401 | it throws only on a refusal; once the log has come to a moment with no thread stopped and it waited, at most the selected thread is |
| Threads.ThreadControl.StepOut | src/debugger.cpp:430-439 | the same for finish |
| Threads.ThreadControl.InstructionStep | src/debugger.cpp:403-410 | the selected thread is single-stepped before the debugger waits; every other stopped thread stays stopped and unselected, also on an exception; it throws only on a refusal |
| Threads.ThreadControl.SourceStep | src/debugger.cpp:412-428 | the same through all iterations and changes of the selected thread; the first request lets the selected thread make a step |
| Threads.ThreadControl.Select | src/debugger.cpp:739-745 | only a stopped thread can be selected |
| Threads.ThreadControl.Session | src/debugger.cpp:761-775 | after any commands and events, rows marked stopped are exactly the threads stopped since |
| WatchX86.ConfiguredSlot | src/architecture_x86_64.cpp:143-149 | the new control word sets the slot's three fields and keeps every other slot's and every other bit |
| WatchX86.ClearedSlot | src/architecture_x86_64.cpp:158-161 | the new control word zeroes the slot's three fields and keeps the rest |
| WatchX86.DebugFile.ConfigureWatchpoint | src/architecture_x86_64.cpp:127-152 | succeeds only on an acceptable request and fulfils it; a refusal leaves the control word alone |
| WatchX86.DebugFile.ClearWatchpoint | src/architecture_x86_64.cpp:154-164 | clears the slot; a slot out of range is ignored |
| WatchX86.OwnSlot | src/architecture_x86_64.cpp:127-164 | a fulfilled request is what its slot decodes to |
| WatchX86.FulfilledBreaks | src/architecture_x86_64.cpp:127-164 | the processor then breaks exactly on address .. address + bytes - 1 and on the accesses asked for, read off the bits of DR7 |
| WatchX86.WantedBreaks | src/architecture_x86_64.cpp:127-164 | so it does wherever a slot decodes to what a request wants |
| WatchX86.EffectiveMeans | src/architecture_x86_64.cpp:129-142 | requests acted on have one of four slots, a size of 1, 2, 4 or 8 and an address that is a multiple of it |
| WatchX86.OtherSlot | src/architecture_x86_64.cpp:127-164 | other slots decode as before |
| WatchX86.HistoryDecodes | src/architecture_x86_64.cpp:127-164 | after any history each slot decodes to the last effective request on it |
| WatchX86.HistoryKeepsOtherBits | src/architecture_x86_64.cpp:127-164 | through any history the bits of no slot are unchanged |
| WatchX86.DebugFile.PerformAll | src/architecture_x86_64.cpp:127-164 | any sequence of calls from any registers ends so, unless a request was refused |
| WatchX86.FollowsMeans | src/architecture_x86_64.cpp:127-164 | what that is: every slot decodes to its last effective request, and other bits are unchanged |
| WatchArm.ControlWordMeets | src/architecture_aarch64.cpp:109-113 | the control word selects exactly the accesses and bytes asked for |
| WatchArm.MeetsWatches | src/architecture_aarch64.cpp:109-113 | bit by bit: which bytes are selected, and whether loads and stores are watched |
| WatchArm.EffectiveHereMeans | src/architecture_aarch64.cpp:101-104 | requests acted on have one of sixteen slots and a size of 1, 2, 4 or 8 |
| WatchArm.WatchFile.ConfigureWatchpoint | src/architecture_aarch64.cpp:99-116 | an acceptable request is met by its slot alone; a failure changes nothing |
| WatchArm.WatchFile.ClearWatchpoint | src/architecture_aarch64.cpp:117-127 | zeroes the slot alone; a slot out of range changes nothing |
| WatchArm.HistoryMeets | src/architecture_aarch64.cpp:99-127 | after any history each slot meets the last effective request on it |
| WatchArm.WatchFile.PerformAll | src/architecture_aarch64.cpp:99-127 | any sequence of calls from any registers ends so, unless a request was refused |
| WatchTable.Table.SmallestFree | src/debugger.cpp:337-340 | the search ends at the length of the list, so slots are consecutive |
| WatchTable.Table.ConfigureStopped | src/debugger.cpp:346-348 | on success every stopped thread shows the entry; other slots and threads are unchanged |
| WatchTable.Table.SetWatchpoint | src/debugger.cpp:315-354 | every message and its condition; entry i has slot i and id i+1, at most four; stopped threads keep showing the table |
| WatchTable.MeaningSpelt | src/debugger.cpp:316-336 | the words of the command line one by one: defaults, access words, messages, and the size cut to 32 bits |
| WatchTable.Table.ConfigureThread | src/debugger.cpp:308-313 | on success the thread's registers show the whole table; it throws only for an unacceptable entry or a refusal |
| WatchTable.ProgrammedMeans | src/debugger.cpp:308-313 | showing the table means that each occupied slot decodes to its entry, on either architecture |
| WatchTable.Table.Session | src/debugger.cpp:308-354 | the table is what the successful commands recorded; threads set up and stopped at each of them show all of it; unrefused, every answer is the expected one |
| Text.ParseAddress | include/cosy/common.hpp:69-81 | accepts exactly non-empty digit strings, decimal or after 0x or 0X, of value below 2^64 |
| Text.AcceptedTexts | include/cosy/common.hpp:69-81 | the accepted texts, character by character |
| Text.ParseOfDecimal | include/cosy/common.hpp:69-81 | every decimal numeral is read as its value |
| Text.ParseOfUpperCase | include/cosy/common.hpp:69-81 | the case of digits and prefix does not matter |
| Text.Hex | include/cosy/common.hpp:83-95 | a lower-case hexadecimal numeral of the value without superfluous zeros |
| Text.ParseOfHex | include/cosy/common.hpp:69-95 | what hex prints, parse_address reads back |
| Text.ShortestIsUnique | include/cosy/common.hpp:83-95 | there is one such numeral for each value |
| Text.NoLonger | include/cosy/common.hpp:83-95 | no other lower-case numeral of the value is shorter |
| Text.Words | include/cosy/common.hpp:41-67 | the loop computes the scan that the next rows are about |
| Text.TokensKeep | include/cosy/common.hpp:41-67 | no word is empty; together they are the line minus delimiting quotes and unquoted whitespace |
| Text.SplitsAtSpace | include/cosy/common.hpp:54-58 | each of the six whitespace characters, outside quotes, separates words |
| Text.PlainIsOneWord | include/cosy/common.hpp:59-66 | a text without quotes and whitespace is one word |
| Text.TokensOfPrinted | include/cosy/common.hpp:41-67 | any non-empty strings, quoted and joined by spaces, tokenize back to themselves |
| Backtraces.Backtrace | src/debugger.cpp:589-607 | the longest chain of callers of at most 64 frames, with increasing frame pointers; the check for a repeat never fires |
| Backtraces.WalkIsLongest | src/debugger.cpp:589-607 | the unbounded walk ends, and every chain of callers is an initial part of it |
| Backtraces.Increasing | src/debugger.cpp:600-601 | frame pointers strictly increase along a chain |
| Backtraces.WalkByExample | src/debugger.cpp:589-607 | a stack of two frames, and one without frames |
| Location.EvaluateLocation | src/elf_dwarf.cpp:281-338 | for every expression, the value or message reported; an operation that is not interpreted keeps any value from being printed, and is reported if what precedes it runs through |
| Location.FoundOfRun | src/elf_dwarf.cpp:287-336 | an expression that runs through, by the values of its operation codes: what is left on top is the value, or its address |
| Location.Interpret | src/elf_dwarf.cpp:288-325 | one operation: the new top of the stack and the flags it sets, or how it fails |
| Location.Conclude | src/elf_dwarf.cpp:327-337 | the value on top, or the word it points at, is printed; an empty stack is unavailable |
| Location.TopIsEvaluated | src/elf_dwarf.cpp:287-325 | the interpreter's top of stack is that of a stack machine after section 2.5.1 of DWARF 5 |
| Location.FoundIsMeaning | src/elf_dwarf.cpp:281-338 | agrees with sections 2.5.1 and 2.6.1.1 of DWARF 5, with frame base fp+16, wherever the module is loaded, off three families |
| Location.MeaningWhereLoaded | src/elf_dwarf.cpp:290-291 | a description that looks at no address it pushes means the same wherever the module is loaded |
| Location.DerefIsNotMeaning | src/elf_dwarf.cpp:313-316 | on every memory location that dereferences, some target shows the difference |
| Location.WideIsNotMeaning | src/elf_dwarf.cpp:297-309 | on every description with a register number above 32 bits, some target shows the difference |
| Location.AddressIsNotMeaning | src/elf_dwarf.cpp:290-291 | on every description whose last push is an address, in every module not loaded at its link address, some target shows the difference |
| Symbols.SymbolAddress | src/elf_dwarf.cpp:133-140 | the run-time address of the first symbol of that name |
| Symbols.Function | src/elf_dwarf.cpp:142-156 | the first symbol with the greatest covering start, or the empty string when none covers |
| Symbols.CoversMeans | src/elf_dwarf.cpp:146-147 | a range is closed at its start and open at its end; without a size it has no end |
| Symbols.CoversByExample | src/elf_dwarf.cpp:142-156 | addresses inside, between and behind the ranges of two functions |
| Symbols.ClosestIsUnique | src/elf_dwarf.cpp:142-156 | that symbol is unique |
| Symbols.FunctionOfSymbol | src/elf_dwarf.cpp:129-156 | looking up the address of a symbol names a symbol starting exactly there if and only if the range of one fits |
| Symbols.FunctionOfSymbolIsItself | src/elf_dwarf.cpp:129-156 | the symbol found by name comes back under that name if its range fits and no other name starts there |
| Symbols.SymbolAtTheTop | src/elf_dwarf.cpp:146-147 | a sixteen-byte symbol that ends with the address space is not found at its own value |

## Left out

- Debugging.Debugger.SourceStep: once an x86-64 step has gone astray, what its loop goes on to execute is not modelled; the step ends there with the target out of step.
- Debugging.Debugger.StepOut: a return address that is not among the addresses assumed for breakpoints ends the model before the entry is made.
- Debugging.Debugger.Session: after a reply that leaves an x86-64 target out of step, later commands are not carried out.
- Ptrace.Tracee.Cont: exits and signals other than SIGTRAP and SIGSTOP are not among its stops.
- Ptrace.Tracee.SingleStep: a SIGSTOP that answers a single step before the instruction is executed is not modelled.
- ByteAccess.PokeWords: the order of the pokes is left open, so the contract holds for any order; the source pokes in ascending order.
- Threads.ThreadControl.StepOverBreakpoint: whether an enabled breakpoint is at the pc is left open here; the single-threaded model decides it.
- Location.FoundIsMeaning: `DW_OP_breg0` to `DW_OP_breg31` are interpreted as the code does but not compared with the standard, because the field their offset arrives in is decided by libdw.
- Location.AddressIsNotMeaning: for a description that loads from an address it pushed and then pushes something else, no difference is claimed, since two such loads can balance.
- Exits, exec and other signals than SIGTRAP and SIGSTOP within the single-threaded run control; exits are in `Threads`.
- Exec once breakpoints exist: the address space is replaced while the table keeps its entries.
- Transparency with several threads, and a detach while the selected thread runs.
- Hardware watchpoint stops in run control, and the message for a watchpoint hit.
- `set memory`, which pokes words without regard to breakpoints, and register writes from the command line.
- AArch64 breakpoints at addresses that are not multiples of four: their footprints overlap.
- Wrap-around of the 32-bit identifier counters, and the cut of an identifier typed by the user to 32 bits.
- The stack and the registers as read for `backtrace` and for locals come as the words that can be read while the target is stopped; a failing register fetch is not modelled there.
- How a specification resolves to addresses: modules, line tables and symbols across modules, each command's resolver being a parameter.
- Parsing of command lines other than splitting into words, addresses and `watch`; help, listings and source printing; readline.
- libelf and libdw parsing, reading of process maps, launching, signal handlers and register name tables.
