# libgdb: a model of the GDB stub for seL4, with proofs

libgdb is a remote stub that lets GDB debug a set of seL4 protection domains. It keeps
tables (inferiors, threads, breakpoints, watchpoints) that must agree with state held by
the kernel (debug registers, single-step and running bits, inferior memory), and it talks
to GDB over a framed protocol run by cooperating coroutines. The `.dfy` files follow the
parts of the library:

| files | part |
|---|---|
| `Kernel`, `Memory`, `Words`, `Options` | what the kernel shows the library: a debug-register file, a single-step bit and a running bit per TCB; bytes per vspace, with fixed sets of addresses at which words can be read or written; little-endian words |
| `Debugger`, `Stub` | the state of the library. `Stub.Stub` is the imperative program with its loops; each method is proved to reach the state a function of `Debugger` or `Vcont` gives |
| `Registry`, `Effects`, `CallEffects`, `Runs` | ids and slots; what single calls achieve, change and undo; invariants over all runs of calls |
| `SoftwareBreakpoints`, `SoftwareRuns`, `HardwareDebug`, `DetachWalk`, `DetachMemory` | breakpoints, watchpoints and detaching |
| `Vcont`, `VcontPackets`, `VcontIds`, `IdReuse`, `ThreadIds`, `IdDigits` | resumption packets, their wire form, thread ids, the numbers they stand for and the threads they name |
| `EventLoop`, `EventEffects`, `Scheduler` | when threads run, what each packet does, and the three coroutines |
| `PacketLink`, `PacketCases`, `Chars`, `Literals` | framing, checksums and acknowledgement; the characters of the protocol |
| `Hex`, `InferiorMemory`, `Memset`, `Memchr` | codecs, reading inferior memory, and the word-at-a-time routines |
| `CharQueue`, `Demux` | the ring buffer and the serial demultiplexer |
| `PrintfNumbers`, `Printf` | the formatter: its integer routine and its loop over the format |
| `PrintfParse`, `PrintfFormats`, `PrintfItems`, `PrintfInts`, `PrintfPrefix` | formats written from their parts, and what they print: whole formats, texts, numbers read back, pointers and prefixes |

Three things the proofs lean on throughout. The number of hardware breakpoint and
watchpoint registers is arbitrary (`nb`, `nw`). The invariant of the tables is one predicate,
`Debugger.Inv`: table sizes, threads with TCBs of their own, every enabled thread's
registers holding exactly its inferior's tables, and no thread stepping in the kernel
without its flag. And `Runs.Good` adds the ids: each used slot is the one its gdb id
leads to, and enabled remote ids are unique.

## What turned out false

Each of these is stated with the exact condition under which the code does what one
would expect.

- Adjacent software breakpoints. `unset_software_breakpoint` writes back a whole saved
  64-bit word. With breakpoints four bytes apart, removing the lower one first silently
  disarms the upper one (`SoftwareBreakpoints.AdjacentBreakpointLost`); removal is right
  exactly when the upper half of the word is unchanged since it was saved
  (`UnsetAdjacentExactly`).
- Detaching where address 0 is mapped. The detach loop calls `unset` for free entries
  too, which have address 0, and so writes the stale word of entry 0 to address 0;
  `DetachRestoresExactly` says when this leaves memory as it was.
- Hardware breakpoints and watchpoints at address 0 are programmed while their entry
  reads as free (`HardwareDebug.SetHwBreakExactly`, `SetHwWatchExactly`).
- A thread registered with a TCB whose registers hold something the table does not have
  keeps it: `thread_enable_nth_hw_breakpoint` skips free entries
  (`HardwareDebug.RegisterThreadExactly`).
- Stopped does not always mean stopped. Two steps run threads of a suspended system: a
  `G` packet for a live target (writing registers resumes the thread), and the
  acknowledgement of a `D` that was handled while threads were running, when one of
  them faulted before it (`EventLoop.StepKeepsExactly`, `EventLoop.FaultDuringDetach`).
  A run keeps the promise in all its states if and only if it has neither
  (`EventLoop.StopSafety`).
- The remote protocol leaves threads that match no `vCont` action stopped, and runs the
  others. In this library the last action decides who wakes. From a suspended system the
  threads the protocol runs are the ones that run if and only if, the last action being a
  `c`, every enabled thread is named by some action, or, it being an `s`, no thread is named
  first by an earlier action (`VcontIds.ResumedAsProtocol`).
- A thread id in a `vCont` packet is taken to a place in the thread table, and the place is
  only asked whether it is enabled, not which thread it holds. The library hands out ids
  past 256 round the table (`IdReuse.EveryIdIssued`), so once thread 1 has gone and thread
  257 has its place, a step of thread 1 steps and wakes thread 257 (`IdReuse.StaleIdActs`,
  `IdReuse.StaleIdReached`). The targets of a packet act on exactly the threads they name
  if and only if no thread a single-thread target leads to has an id above 256
  (`VcontIds.ActsExactly`, `VcontIds.StepObeysExactly`).
- An id above 256 makes the loop visit every place from its own to the end of the table and
  then memory behind the table; it stays in the table, and at one place, if and only if the
  id is at most 256 (`VcontIds.VisitsExactly`, `IdReuse.Id257`).
- Ids in packets are hexadecimal numbers, most significant digit first, but
  `parse_thread_id` drops an odd last digit and stores the pairs lowest byte first. It
  reads the number of an id if and only if the id has one digit, or whole pairs that
  read the same in both orders and fit a signed int, or is zero
  (`IdDigits.IdIsNumber`): one or two digits always, three never
  (`IdDigits.ShortIds`). Thread 256, which the tables have room for, is taken for thread
  16 (`VcontPackets.Thread256Misread`).
- `handle_vcont` does not initialise the ints it has ids parsed into, and an id of two or
  more digits overwrites only some of their bytes. What is read is independent of what
  they held if and only if the id has one digit, fills the int, or the bytes it leaves
  are zero (`ThreadIds.IdReadExactly`, `ThreadIds.ParseExactly`).
- Written by the library, ids are cut down to two hex digits, so they survive exactly
  when they fit a byte (`ThreadIds.ParseWritten`), although the tables allow larger ones.
- The qfThreadInfo reply is written without a bound. It fits the packet buffer if and only
  if at most 292 threads are enabled (`ThreadIds.ReplyFitsExactly`); two full inferiors
  are too many (`ThreadIds.TwoFullInferiors`). With no enabled thread its only character
  takes the place of the NUL the buffer began with: the reply is a string if and only if
  some thread is enabled or the next byte is NUL (`ThreadIds.ThreadInfo`).
- The C standard makes a precision a minimum number of digits whatever the flags. Here the
  `-` flag drops it: `%-.5d` of 7 prints `7` (`Printf.LeftPrecisionLost`). And the digits
  are put together in a buffer of 32 characters, so longer conversions lose zeros or the
  sign. An integer conversion without `#` prints the field the standard asks for if and
  only if, with `-`, the precision is no more than the digits, or, without it, sign, zeros
  and digits are at most 32 characters (or 33, when the lost sign is a space that the
  padding to the width makes good) (`PrintfNumbers.NtoaIsField`, `Printf.IntegerIsField`).
- A negative number is printed without its sign if, without `-`, its precision is above 31 or
  it is filled with zeros to a width above 32; every other integer directive without `#`
  reads back as its argument (`PrintfInts.IntegerReadsExactly`).
- The `#` flag cuts off digits to make room for the prefix. `%#4x` of 0x1234 prints `0x34`
  (`PrintfPrefix.DigitsCutOff`). Prefix and digits come out right if and only if: with
  neither precision nor zeros to fill in, there are not as many digits as the field is wide
  (`PrintfPrefix.PrefixExactly`); filled with zeros, there are more digits than that, or
  digits and prefix fit a width of at most 32 (`FilledPrefixExactly`); with a precision, it is
  at most 30, or, under `-`, no more than the digits (`PrecisePrefixExactly`).
- `%b` prints the low 32 digits: it reads back if and only if the number has at most 32 bits,
  whatever the length letters (`PrintfPrefix.BinaryReadsExactly`).
- `notified` leaves no byte unread that had arrived when it was called
  (`Scheduler.NotifiedDrains`), but `fault` does: if the plus it waits for is already queued it
  returns with everything behind the plus unread until the next notification
  (`Scheduler.FaultLeavesBytes`).
- The event loop and the fault handler share one output buffer, and a fault between a reply
  and its acknowledgement fills it anew. What arrives is then what the buffer holds at the
  last attempt; it is the reply if and only if that is (`PacketLink.DeliversExactly`).

## Model

| member | source | states |
|---|---|---|
| SoftwareBreakpoints.OverlayOverRuns | src/arch/arm/64/gdb.c:115-162 | over every sequence of set and unset calls (failing and table-full ones included) on nonzero addresses that keep active entries 8 apart, memory is the original with BRK over exactly the low four bytes at each active entry, every entry remembers the original word, and with no active entry memory is the original byte for byte |
| SoftwareBreakpoints.RunKeeps | src/arch/arm/64/gdb.c:115-162 | the overlay invariant from any state that has it, by induction over the run |
| SoftwareBreakpoints.SetBreakKeeps | src/arch/arm/64/gdb.c:115-144 | one set call keeps the overlay, and a failing one changes nothing at all |
| SoftwareBreakpoints.UnsetBreakKeeps | src/arch/arm/64/gdb.c:146-162 | one unset call keeps the overlay and leaves no entry at the address |
| SoftwareBreakpoints.DetachRestores | src/gdb.c:600-604 | the detach loop restores the original memory wherever address 0 cannot be written |
| SoftwareBreakpoints.DetachRestoresExactly | src/gdb.c:600-604 | where address 0 can be written and no entry overlaps the first word, it does so if and only if no entry is free or the word left in entry 0 equals the word at 0 |
| SoftwareBreakpoints.UnsetAdjacentExactly | src/arch/arm/64/gdb.c:146-162 | with entries only 4 apart, removal keeps the overlay of the others if and only if the half word above the instruction is the one that was saved |
| SoftwareBreakpoints.AdjacentBreakpointLost | src/arch/arm/64/gdb.c:115-162 | for every pair of adjacent accessible addresses: set both, clear the lower one, and the upper one is tabled but gone from memory |
| Words.WithBreakIsMaskAndOr | src/arch/arm/64/gdb.c:126-126 | the mask and OR of the code put BRK into the low half of the word and keep the high half |
| Effects.SetSoftwareExactly | src/arch/arm/64/gdb.c:115-144 | a set call succeeds if and only if the word can be read and written and an entry is free; it then uses one free entry, BRK is at the address, no byte outside its four changes; otherwise nothing changes |
| Effects.SetThenUnsetSoftware | src/arch/arm/64/gdb.c:115-162 | clearing a breakpoint just set restores memory and all active entries |
| Effects.SetThenUnsetHardware | src/arch/arm/64/gdb.c:164-219 | setting succeeds if and only if an entry is free, and clearing again restores the whole state, all threads' registers included |
| Effects.SetThenUnsetWatch | src/arch/arm/64/gdb.c:221-288 | the same for watchpoints; only size and access of a free entry may stay behind |
| Effects.RegisterInferiorAdds | src/gdb.c:237-270 | succeeds if and only if the id is new and a slot is free; the inferior is then found by its id, empty, with a gdb id never issued before, and nothing else changes; AlreadyRegistered and InvalidArguments are returned exactly for the same and for another vspace |
| Effects.RegisterThreadAdds | src/gdb.c:272-331 | succeeds if and only if the inferior is known, the thread id is new there and a slot is free; the thread is then found by its id with a gdb id never issued there before, and no other thread or TCB changes; AlreadyRegistered and InvalidArguments are returned exactly for the same and for another TCB (or no such inferior), and change nothing |
| Effects.ThreadExitExactly | src/gdb.c:815-832 | exactly the thread named stops being live, if there is one; the kernel state and all other threads stay |
| CallEffects.SetBreakExactly | src/arch/arm/64/gdb.c:164-185 | setting succeeds if and only if an entry is free; one free entry and that register of every enabled thread of the inferior then hold the address, and nothing else changes; a failing call changes nothing |
| CallEffects.UnsetBreakExactly | src/arch/arm/64/gdb.c:202-219 | clearing succeeds if and only if the address is tabled; one entry with it and that register of the inferior's enabled threads are emptied, and nothing else changes |
| CallEffects.SetWatchExactly | src/arch/arm/64/gdb.c:221-247 | the same for setting a watchpoint |
| CallEffects.UnsetWatchExactly | src/arch/arm/64/gdb.c:264-288 | the same for clearing one, which takes address, size and access as set |
| CallEffects.SuspendExactly | src/gdb.c:760-772 | a TCB runs afterwards if and only if it ran and is no live thread's |
| CallEffects.ResumeExactly | src/gdb.c:777-789 | a TCB runs afterwards if and only if it ran or belongs to a live thread marked to wake |
| CallEffects.ExitExactly | src/gdb.c:815-832 | a thread's exit clears its enabled flag and changes nothing else |
| CallEffects.JoinExactly | src/gdb.c:272-331 | a joining thread's registers take every tabled breakpoint and watchpoint and keep the rest; its other kernel state stays |
| CallEffects.FullExactly | src/gdb.c:237-331 | a registration that finds no slot changes nothing but its counter, which moves once round the table |
| CallEffects.DetachExactly | src/gdb.c:593-631 | detaching empties all tables and step flags of enabled inferiors and marks their threads to wake; ids, places and TCBs stay, running bits too, and other inferiors and TCBs are untouched |
| HardwareDebug.SetHwBreakKeeps | src/arch/arm/64/gdb.c:164-185 | keeps tables and every enabled thread's registers in agreement |
| HardwareDebug.UnsetHwBreakKeeps | src/arch/arm/64/gdb.c:202-219 | likewise |
| HardwareDebug.SetHwWatchKeeps | src/arch/arm/64/gdb.c:221-247 | likewise for watchpoints |
| HardwareDebug.UnsetHwWatchKeeps | src/arch/arm/64/gdb.c:264-288 | likewise |
| HardwareDebug.SetHwBreakExactly | src/arch/arm/64/gdb.c:164-185 | agreement survives if and only if the address is nonzero, or no entry is free, or no thread is enabled |
| HardwareDebug.SetHwWatchExactly | src/arch/arm/64/gdb.c:221-247 | the same for watchpoints |
| HardwareDebug.RegisterThreadExactly | src/gdb.c:305-315 | a thread joins in agreement if and only if its TCB's registers are clean where the tables are empty |
| HardwareDebug.RegisterInferiorKeeps | src/gdb.c:237-270 | registering an inferior keeps the invariant |
| HardwareDebug.ThreadExitKeeps | src/gdb.c:815-832 | a thread exit keeps the invariant |
| HardwareDebug.SuspendSystemKeeps | src/gdb.c:760-772 | no enabled thread runs afterwards, and the invariant is kept |
| HardwareDebug.ResumeSystemKeeps | src/gdb.c:777-789 | exactly the threads that ran or were marked to wake run afterwards |
| HardwareDebug.DetachKeeps | src/gdb.c:593-631 | all registers and entries are cleared, no enabled thread steps although only flagged ones are visited, and all are marked to wake |
| DetachWalk.WalkIsDetach | src/gdb.c:600-627 | the slot-by-slot calls of the loops, duplicate entries included, end in the state that clears everything at once |
| DetachMemory.DetachRestoresAll | src/gdb.c:593-631 | detaching gives every enabled inferior its original memory back, each having a vspace of its own, where address 0 cannot be written |
| DetachMemory.DetachRestoresEachExactly | src/gdb.c:593-631 | an inferior with address 0 writable, and no entry over the first word, gets it back if and only if no entry is free or the word left in entry 0 equals the word at 0 |
| DetachWalk.ClearBreaksEffect | src/gdb.c:606-610 | unsetting the address in each slot in turn leaves the slots passed empty, because each call hits its own slot or a free one |
| DetachWalk.ClearWatchesEffect | src/gdb.c:606-616 | likewise for watchpoints |
| Runs.FreshIsGood | src/gdb.c:213-331 | the zeroed tables the library starts with satisfy all invariants |
| Runs.RunKeeps | src/gdb.c:213-331 | over every run of registrations, exits, breakpoint calls, vCont, detach, suspend and resume: registers agree with tables, stepping threads are flagged, ids lead back to their slots |
| Runs.StaleIdsOverRuns | src/gdb.c:416-437 | looked up as for H and T packets, a thread's gdb id issued at any point never names a different thread later (for vCont see `IdReuse`) |
| Registry.LookupIsSearch | src/gdb.c:416-437 | the constant-time lookup by gdb id finds what a search of all used slots would, and the match is unique |
| Registry.RegisterFailsExactly | src/gdb.c:237-331 | a new id fails for lack of resources if and only if every slot is enabled |
| Registry.NextFreeExact | src/gdb.c:247-253 | the ring search misses if and only if all slots are taken |
| Registry.RegisterInferiorIds | src/gdb.c:237-270 | ids stay unique and lead back to their slots, until the counter leaves 16 bits |
| Registry.RegisterThreadIds | src/gdb.c:272-331 | the same for threads |
| Registry.StaleIds | src/gdb.c:416-437 | the single-step form of the stale-id property |
| Vcont.ApplyThread | src/gdb.c:512-591 | each enabled thread's kernel single-step bit is the one of the leftmost action with a target that leads to its place, and unchanged where none does; `VcontIds` relates places to ids |
| Vcont.ApplyKeeps | src/gdb.c:512-591 | a packet keeps the invariant, stepping flags included, and no thread comes or goes |
| Vcont.ResumedThreads | src/gdb.c:777-789 | from an all-suspended system, exactly the threads the packet wakes run |
| Vcont.SchedulerLocking | examples/microkit_sddf_serial/README.md:107-109 | the documented policy, by places: a continue resumes all enabled threads, a step only those in the places it leads to |
| VcontIds.LockingByIds | examples/microkit_sddf_serial/README.md:107-109 | the same by gdb ids, no place having changed hands: a step resumes exactly the threads it names |
| VcontIds.TargetExactly | src/gdb.c:564-588 | a target acts on exactly the threads it names if and only if it names a whole process or the live thread in its place, if any, has an id of at most 256 |
| VcontIds.ActsExactly | src/gdb.c:564-588 | the same for all targets of a packet |
| VcontIds.ApplyObeys | src/gdb.c:512-591 | then every live thread takes its step bit from the leftmost action that names it and its wake mark from the last action, and nothing else changes |
| VcontIds.StepObeysExactly | src/gdb.c:512-591 | for a step of one target, if and only if then |
| VcontIds.ResumedAsProtocol | src/gdb.c:516-542 | from a suspended system, exactly the threads some action names run if and only if, with a final continue, all are named, and with a final step, none is named first by an earlier action |
| VcontIds.VisitsExactly | src/gdb.c:564-571 | the loop for one thread id visits only that id's place, and only the table, if and only if the id is at most 256; for others it visits the rest of the table and goes past it |
| IdReuse.EveryIdIssued | src/gdb.c:272-331 | from zeroed tables, some run of registrations and exits issues any id up to 65535 |
| IdReuse.StaleIdActs | src/gdb.c:564-588 | wherever a thread with another id holds the place of thread 1, a step of thread 1, its digits read right and its id resolving to no thread, steps and wakes the other |
| IdReuse.StaleIdReached | src/gdb.c:272-331 | some run from zeroed tables comes to such a state |
| IdReuse.Id257 | src/gdb.c:564-571 | 257 written with four digits is read right, and leads the loop over all places and past the table |
| Vcont.WalkIsLeftmost | src/gdb.c:520-585 | walking action by action, later ones overwriting wake marks and handled threads being passed over, gives each thread its leftmost match |
| Vcont.TargetsOnce | src/gdb.c:546-583 | however often an action's targets hit a thread, it is handled once |
| VcontPackets.ParseTarget | src/gdb.c:367-414 | wherever a target stands in the packet, the parser stops right after it; where nothing is left of what its ints held, it reads the ids as it would alone |
| VcontPackets.TargetReadRight | src/gdb.c:367-414 | a target is taken for the one the protocol means if and only if its ids are read right |
| VcontPackets.ReadRightExactly | src/gdb.c:512-591 | a packet is taken for what it means by the protocol if and only if all its ids are read right |
| VcontPackets.Thread256Misread | src/gdb.c:403-409 | a step of thread 256 of process 1 steps and wakes its thread 16, and does not wake thread 256 |
| IdDigits.IdIsNumber | src/gdb.c:367-414 | the parser reads the number of an id if and only if it has one digit, or whole pairs reading the same in both orders and fitting a signed int, or only zeros |
| IdDigits.IdOfIs | src/gdb.c:384-410 | in general it reads the number of the whole pairs in reverse order, as a signed int |
| IdDigits.ShortIds | src/gdb.c:384-410 | one or two digits are always read right, three only if zero |
| VcontPackets.WalkedIsApply | src/gdb.c:512-591 | thread views after the walk determine the whole state, which is that of the specification |
| Stub.Stub.HandleVcont | src/gdb.c:512-591 | the parsing loops over the characters of a packet, nothing being left of what the uninitialised ints held, apply the actions with the ids as read, place by place; the numbers in the packet where all ids are read right; and, no place having changed hands, what the packet says to the threads it names; a further action of another kind gives the error |
| Stub.Stub.HandleDetach | src/gdb.c:593-631 | the nested loops reach the detached state |
| SoftwareRuns.SetExactly | src/arch/arm/64/gdb.c:115-144 | for an inferior with a known vspace: setting succeeds if and only if the word can be read and written and an entry is free; then the address is tabled with the word that was there, BRK is at the address, and no other byte, vspace, inferior or TCB changes; a failing call changes nothing |
| SoftwareRuns.UnsetExactly | src/arch/arm/64/gdb.c:146-162 | clearing fails if and only if the address is tabled and not writable; the saved word is then back and the entry free, and nothing else changes |
| SoftwareRuns.SetThenUnset | src/arch/arm/64/gdb.c:115-162 | a breakpoint just set can be cleared, and that restores every vspace, every TCB and every entry in use |
| SoftwareRuns.OverlaysOverRuns | src/arch/arm/64/gdb.c:115-162 | over every run of all calls of the library that keeps addresses nonzero and 8 apart in each table, gives each inferior a vspace of its own, and detaches only where address 0 is not writable: each inferior's memory is its original with BRK over exactly its tabled addresses, and all other memory is original |
| SoftwareRuns.NoneTabledRestored | src/gdb.c:593-631 | once no breakpoint is tabled, all memory is the original byte for byte |
| Stub.Stub.SetSoftwareBreakpoint | src/arch/arm/64/gdb.c:115-144 | the loops and kernel calls reach the state and result of `SoftwareRuns.SetExactly` |
| Stub.Stub.UnsetSoftwareBreakpoint | src/arch/arm/64/gdb.c:146-162 | likewise, of `SoftwareRuns.UnsetExactly` |
| Stub.Stub.SetHardwareBreakpoint | src/arch/arm/64/gdb.c:164-185 | likewise |
| Stub.Stub.UnsetHardwareBreakpoint | src/arch/arm/64/gdb.c:202-219 | likewise |
| Stub.Stub.SetHardwareWatchpoint | src/arch/arm/64/gdb.c:221-247 | likewise |
| Stub.Stub.UnsetHardwareWatchpoint | src/arch/arm/64/gdb.c:264-288 | likewise |
| Stub.Stub.JoinThread | src/arch/arm/64/gdb.c:187-262 | the two copy loops give a joining thread every used entry |
| Stub.Stub.EnableSingleStep | src/arch/arm/64/gdb.c:290-299 | sets the flag and the kernel bit of one thread |
| Stub.Stub.DisableSingleStep | src/arch/arm/64/gdb.c:301-309 | clears the kernel bit and leaves the flag |
| Stub.Stub.SuspendAll | src/gdb.c:760-772 | calling thread after thread suspends all enabled ones |
| Stub.Stub.ResumeWaking | src/gdb.c:777-789 | calling thread after thread resumes all marked ones |
| Stub.Stub.GdbRegisterInferior | src/gdb.c:237-270 | searches and fills a slot as specified, with every error |
| Stub.Stub.GdbRegisterThread | src/gdb.c:272-331 | likewise, and copies the tables into the new thread |
| Stub.Stub.GdbThreadExit | src/gdb.c:815-832 | likewise |
| Stub.Stub.LookupInferiorFromId | src/gdb.c:213-222 | finds the enabled inferior with a remote id |
| Stub.Stub.LookupThreadFromId | src/gdb.c:224-233 | finds the enabled thread with a remote id |
| Stub.Stub.LookupThreadFromGdbId | src/gdb.c:416-428 | looks in one slot and checks the ids |
| EventLoop.StepKeepsExactly | examples/microkit_sddf_serial/apps/debugger/debugger.c:168-249 | from a state where no thread runs since the suspension, a step leads to another such state if and only if it is neither the acknowledgement of a `D` with a fault in between nor a `G` for a live target of a suspended system |
| EventLoop.SuspendedInAck | examples/microkit_sddf_serial/apps/debugger/debugger.c:226-249 | the system is suspended while the reply to `D` waits exactly from a fault in that phase until the acknowledgement |
| EventLoop.StepKeepsInv | examples/microkit_sddf_serial/apps/debugger/debugger.c:168-249 | every step, the two breaking ones included, keeps the table invariants and the wake marks a `D` sets until its acknowledgement |
| EventLoop.StopSafety | examples/microkit_sddf_serial/apps/debugger/debugger.c:168-249 | in every state of a run, no registered thread runs after a suspension until the next vCont or D, if and only if the run has neither of the two steps; what each packet does instead is stated by the rows of `EventEffects` |
| EventEffects.PreparedDone | examples/microkit_sddf_serial/apps/debugger/debugger.c:172-177 | before the first packet after `D`, and on ctrl-C, every thread is stopped; before any other packet nothing changes |
| EventEffects.ContinueRuns | examples/microkit_sddf_serial/apps/debugger/debugger.c:179-187 | after a vCont with actions, a live thread runs if and only if it ran when the packet was handled or the packet wakes it; no reply is awaited and the system is no longer stopped or detached |
| EventEffects.BreakpointDone | src/gdb.c:633-675 | every `Z` and `z` packet does to the state what its call is for (free or matching entry, registers of the inferior's threads, BRK or the saved word in memory, nothing else), and its reply is awaited |
| EventEffects.DetachDone | examples/microkit_sddf_serial/apps/debugger/debugger.c:179-183 | `D` empties the tables and marks all threads; they run as before until its acknowledgement, and the next packet will stop them |
| EventEffects.InterruptDone | examples/microkit_sddf_serial/apps/debugger/debugger.c:172-183 | ctrl-C stops every thread, changes nothing else and is answered |
| EventEffects.ReadRegsDone | src/gdb.c:30-38 | `g` stops the target thread and changes no other TCB |
| EventEffects.WriteRegsDone | src/gdb.c:40-48 | `G` starts the target thread and changes no other TCB |
| EventEffects.OthersDone | src/gdb.c:633-675 | `H` changes only the target, `M` only memory, queries nothing; each is answered |
| EventEffects.AckDone | examples/microkit_sddf_serial/apps/debugger/debugger.c:181-187 | a plus ends the wait and, after `D`, starts exactly the live threads marked to wake; any other answer changes nothing |
| EventEffects.FaultDone | examples/microkit_sddf_serial/apps/debugger/debugger.c:226-249 | a fault stops every thread, makes the faulting one the target and has its reply acknowledged before the next packet; only a plus does so |
| EventLoop.InitialStops | examples/microkit_sddf_serial/apps/debugger/debugger.c:191-216 | after init nothing runs, and the invariant of the steps holds |
| EventLoop.FaultDuringDetach | examples/microkit_sddf_serial/apps/debugger/debugger.c:168-249 | for every state where D is handled while threads run and one faults before the acknowledgement, four enabled steps end with all threads running in a system that was suspended |
| EventLoop.DetachCycle | examples/microkit_sddf_serial/apps/debugger/debugger.c:168-189 | after D and its acknowledgement all enabled threads run, and all are suspended again before the next packet is handled |
| EventLoop.HandlePacketKeeps | src/gdb.c:633-675 | every packet keeps all invariants, and none but `G` runs a thread of a suspended system |
| EventLoop.WriteRegsRuns | src/gdb.c:40-48 | `G` leaves a suspended system suspended if and only if the target thread is not live |
| Scheduler.StepKeeps | examples/microkit_sddf_serial/apps/debugger/debugger.c:63-264 | the invariant under which every coroutine switch goes to a coroutine blocked in gdb_get_char |
| Scheduler.CoroutineSafety | examples/microkit_sddf_serial/apps/debugger/debugger.c:63-264 | in every interleaving: Microkit gets control back only with somebody waiting, no byte reaches the event loop while a stop reply is unacknowledged, and no input byte is lost; that bytes are also read is stated by the next rows |
| Scheduler.NotifiedDrains | examples/microkit_sddf_serial/apps/debugger/debugger.c:251-264 | progress: whenever `notified` returns, every byte that had arrived when it was called has been taken, whatever arrives meanwhile |
| Scheduler.NotifiedReturns | examples/microkit_sddf_serial/apps/debugger/debugger.c:251-264 | from every state outside, `notified` can run to its return with the queue empty |
| Scheduler.NotifiedWakes | examples/microkit_sddf_serial/apps/debugger/debugger.c:251-264 | with a byte queued, `notified` switches to the coroutine that waits, loop or stop reply, and that coroutine takes the first byte |
| Scheduler.PlusGoesOn | examples/microkit_sddf_serial/apps/debugger/debugger.c:219-264 | once the stop reply has its plus, the same call of `notified` goes on to the loop |
| Scheduler.GetCharExactly | examples/microkit_sddf_serial/apps/debugger/debugger.c:63-74 | without a byte a coroutine hands control back and says that it waits; with one it takes it and goes on, or ends the stop reply if the byte is its plus |
| Scheduler.FaultWaits | examples/microkit_sddf_serial/apps/debugger/debugger.c:226-249 | a fault starts its reply, which stays unacknowledged and waits for a byte, none being lost |
| Scheduler.FaultLeavesBytes | examples/microkit_sddf_serial/apps/debugger/debugger.c:219-249 | with a plus first in the queue, `fault` returns with all bytes behind it unread |
| Scheduler.InitIsSafe | examples/microkit_sddf_serial/apps/debugger/debugger.c:191-216 | the same from the state init leaves |
| Scheduler.AckGoesToFault | examples/microkit_sddf_serial/apps/debugger/debugger.c:219-264 | a byte taken while a stop reply waits goes to the reply's coroutine, and only a plus ends the wait |
| PacketLink.GetPacket | examples/microkit_sddf_serial/apps/debugger/debugger.c:76-141 | the loops compute what the receiver machine does with the stream: position, buffer, answers and result; the machine's cases are stated by the rows of `PacketCases` and below |
| PacketCases.CtrlCReturned | examples/microkit_sddf_serial/apps/debugger/debugger.c:84-93 | after any number of refused frames and any characters that start no frame, a ctrl-C outside a frame is returned at once as a packet of its own, with one minus per refused frame and nothing read behind it |
| PacketCases.CtrlCInFrame | examples/microkit_sddf_serial/apps/debugger/debugger.c:100-137 | inside a frame it is payload like any character |
| PacketCases.SequenceEchoed | examples/microkit_sddf_serial/apps/debugger/debugger.c:124-133 | a packet whose third character is a colon is acknowledged with its first two characters and returned without all three |
| PacketCases.TooLong | examples/microkit_sddf_serial/apps/debugger/debugger.c:100-140 | a frame with at least 2047 characters is skipped whole: no answer and no packet |
| PacketLink.PutPacket | examples/microkit_sddf_serial/apps/debugger/debugger.c:147-163 | sends one frame per answer up to the first plus, each of what the shared buffer holds by then |
| PacketLink.SameFramesExactly | examples/microkit_sddf_serial/apps/debugger/debugger.c:147-163 | the frames are identical if and only if the buffer does not change |
| PacketLink.ReceiveFrame | examples/microkit_sddf_serial/apps/debugger/debugger.c:84-137 | a whole frame in any state outside a checksum: refused with a minus on a mismatch, else returned |
| PacketLink.ReceiverEndures | examples/microkit_sddf_serial/apps/debugger/debugger.c:76-141 | any number of damaged frames and then an intact one in one call: one minus each, one plus, exactly the payload |
| PacketLink.StopAndWait | examples/microkit_sddf_serial/apps/debugger/debugger.c:76-163 | sender and receiver in turn, first k attempts damaged: k + 1 frames of the sender's buffer as it then is, k minuses and one plus, the last text returned once |
| PacketLink.DeliversExactly | examples/microkit_sddf_serial/apps/debugger/debugger.c:76-163 | the packet arrives if and only if the buffer still holds it at the last attempt; k + 1 identical frames where it never changes |
| PacketLink.Resynchronises | examples/microkit_sddf_serial/apps/debugger/debugger.c:84-137 | after any noise without `#` and ctrl-C the next valid frame is returned intact and no minus is sent |
| ThreadIds.WriteThreadId | src/gdb.c:51-56 | writes exactly six characters and a NUL, and nothing else |
| ThreadIds.ParseThreadId | src/gdb.c:367-414 | the loops compute the parser's specification for whatever the out-parameters held, failing where it does |
| ThreadIds.IdReadExactly | src/gdb.c:384-410 | an id is read as into a zeroed int if and only if it has one digit, fills the int, or the bytes it leaves are zero |
| ThreadIds.ParseExactly | src/gdb.c:367-414 | the same for a whole process and thread id |
| ThreadIds.ParseWritten | src/gdb.c:51-56 | parsing a written id gives it back if and only if the other bytes of the out-parameters are right already; from zeroed ones, if and only if both ids fit a byte |
| ThreadIds.ThreadInfo | src/gdb.c:63-79 | the reply to qfThreadInfo lists the enabled threads, where it fits the buffer; it is a string if and only if it lists one or the buffer's second byte is NUL |
| ThreadIds.ReplyFitsExactly | src/gdb.c:63-79 | it fits if and only if at most 292 threads are enabled |
| ThreadIds.TwoFullInferiors | src/gdb.c:63-79 | two full inferiors make it overrun |
| ThreadIds.ThreadInfoReadsBack | src/gdb.c:63-79 | the reply reads back as exactly the enabled threads, once each and in table order |
| Literals.OnlyHexDigits | src/util.c:149-169 | the digits read are exactly 0-9, a-f and A-F |
| Literals.BytesInHex | src/util.c:188-211 | a byte is written high digit first in lower case, and read so |
| Literals.OkFrame | examples/microkit_sddf_serial/apps/debugger/debugger.c:147-163 | the frame of `OK` is `$OK#9a` |
| Literals.FirstThread | src/gdb.c:51-56 | thread 2 of process 1 is written `p01.02` |
| Hex.HexcharInverse | src/util.c:149-169 | the two digit functions are inverse |
| Hex.UnhexOfHex | src/util.c:188-211 | hex2mem undoes mem2hex, for all bytes |
| Hex.Mem2Hex | src/util.c:188-198 | writes the digits and a NUL, and nothing else |
| Hex.Hex2Mem | src/util.c:201-211 | reads pairs of characters, digits or not, and writes nothing else |
| Hex.HexstrToInt | src/util.c:171-185 | reads the longest run of digits up to the limit, modulo 2^64 |
| InferiorMemory.InfMem2Hex | src/arch/arm/64/gdb.c:311-336 | succeeds if and only if every word needed can be read; the text is then the digits of exactly the bytes asked for, at any alignment and size, and reads back as them |
| Memset.Memset | src/util.c:41-123 | every byte of the region is the low byte of c and nothing outside changes, for every size and alignment, with all wide stores aligned and inside |
| Memset.FillMiddle | src/util.c:98-115 | the 32-byte loop between overlapping ends fills the whole region |
| Memset.Splat32 | src/util.c:73-73 | the product with 0xFFFFFFFF / 255 is the byte in every byte |
| Memchr.Memchr | src/util.c:134-146 | finds exactly what a scan from the start finds, reading nothing outside the region |
| Words.HasZeroExact | src/util.c:128-132 | HASZERO is nonzero if and only if some byte of the word is zero |
| Words.WordTest | src/util.c:134-146 | the test of the loop is for a byte equal to c in the word read |
| CharQueue.CharQueue.Enqueue | examples/microkit_sddf_net/apps/debugger/char_queue.h:61-73 | accepts if and only if there is room, and appends |
| CharQueue.CharQueue.EnqueueLocal | examples/microkit_sddf_net/apps/debugger/char_queue.h:85-95 | changes nothing a consumer can see |
| CharQueue.CharQueue.UpdateSharedTail | examples/microkit_sddf_net/apps/debugger/char_queue.h:177-193 | publishes exactly the local bytes; its assertions cannot fail |
| CharQueue.CharQueue.Dequeue | examples/microkit_sddf_net/apps/debugger/char_queue.h:106-118 | takes the oldest byte; over the queue's life, delivered bytes plus contents are the accepted bytes |
| CharQueue.CharQueue.DequeueLocal | examples/microkit_sddf_net/apps/debugger/char_queue.h:130-140 | reads ahead without taking anything |
| CharQueue.CharQueue.EnqueueBatch | examples/microkit_sddf_net/apps/debugger/char_queue.h:205-225 | appends the first min(num, free) bytes, at any position of 32-bit wrapping indices |
| CharQueue.BatchIsSingles | examples/microkit_sddf_net/apps/debugger/char_queue.h:205-225 | a batch is that many single enqueues |
| CharQueue.BatchEffect | examples/microkit_sddf_net/apps/debugger/char_queue.h:205-225 | the two copies, before and after the wrap, append to the window and disturb nothing in it |
| CharQueue.WrapKeepsSlot | examples/microkit_sddf_net/apps/debugger/char_queue.h:21-50 | an index that wraps at 2^32 keeps its place in the buffer |
| Demux.Demultiplex | tools/serial_demux/src/main.rs:26-50 | the loop computes the transducer |
| Demux.UndoesInterleaving | tools/serial_demux/src/main.rs:26-50 | for every sequence of log texts, acknowledgements and frames, GDB gets exactly the frames and acknowledgements and standard output exactly the text, in order |
| Demux.LogExactly | tools/serial_demux/src/main.rs:26-50 | log text comes through whole if and only if it has no `$`, `+` or `-` |
| PrintfNumbers.NtoaIsField | src/printf.c:199-301 | for every width and precision, without `#`, the buffer juggling prints the field of the C standard (sign, zeros, digits, spaces) if and only if the digits fit: no zeros to pad with the `-` flag, at most 32 characters without it, or 33 with a space for a sign that the padding restores |
| PrintfNumbers.FieldReadsBack | src/printf.c:281-301 | zeros and digits of every 64-bit value in base 8, 10 or 16 read back as the value |
| PrintfNumbers.HexstrInvertsLx | src/printf.c:281-301 | hexstr_to_int inverts a plain %lx |
| Printf.IntegerIsField | src/printf.c:707-775 | the same for an integer directive |
| PrintfFormats.FormatPrinted | src/printf.c:577-857 | a format written from characters and directives (any flags in any order, width and precision as number, star, bare dot or none, every length, the specifiers `diuxXobcsp%`) is read back part by part and prints its items one after the other, each with the arguments that are its own |
| PrintfParse.SpecRead | src/printf.c:600-680 | a directive written from its parts is read as exactly these flags, width, precision, length and specifier |
| PrintfInts.IntegerReadsExactly | src/printf.c:682-775 | what an integer directive without `#` prints reads back (spaces, sign, digits; base 16 for `x` and `X`, 8 for `o`, 10 for `d`, `i` and `u`) as its argument modulo 2^8, 2^16, 2^32 or 2^64 by its length letters, in two's complement for `d` and `i`, if and only if it does not lose the sign of a negative number |
| PrintfInts.IntegerStandardExactly | src/printf.c:682-775 | it is the field of the C standard for its flags, width, precision and that number if and only if the digits fit |
| Printf.IntegerReadsBack | src/printf.c:707-775 | zeros and digits of that field alone read back as the magnitude; from the characters of the directive on, see `PrintfInts.IntegerReadsExactly` |
| PrintfItems.PercentPrinted | src/printf.c:840-843 | `%%` prints one percent sign, whatever stands between |
| PrintfItems.CharacterPrinted | src/printf.c:776-794 | `%c` prints the low byte of its argument, spaces before it or, under `-` or a negative star, behind it |
| PrintfItems.StringPrinted | src/printf.c:796-820 | `%s` prints the string, or the prefix as long as its precision, with spaces before it or, under `-`, behind it |
| PrintfPrefix.PlainPointer | src/printf.c:822-838 | `%p` prints sixteen upper-case digits that are its argument in base 16 |
| PrintfPrefix.PointerReads | src/printf.c:822-838 | and reads back as it for all flags but `#`, widths and precisions |
| PrintfPrefix.BinaryReadsExactly | src/printf.c:281-301 | a plain `%b` reads back in base 2 if and only if the number has at most 32 bits |
| PrintfPrefix.PrefixExactly | src/printf.c:228-265 | under `#`, not filled with zeros and without precision, `x`, `X` and `o` print prefix and digits if and only if there are not as many digits as the field is wide |
| PrintfPrefix.FilledPrefixExactly | src/printf.c:228-265 | filled with zeros, they print prefix, zeros and digits if and only if there are more digits than that, or digits and prefix fit a width of at most 32 |
| PrintfPrefix.PrecisePrefixExactly | src/printf.c:228-265 | with a precision, `x` and `X` print prefix, zeros and digits if and only if it is at most 30, or, under `-`, no more than the digits |
| PrintfPrefix.DigitsCutOff | src/printf.c:245-251 | `%#4x` of 0x1234 prints `0x34` |
| PrintfPrefix.HexByte | src/util.c:188-198 | the format `%02x` prints, for every byte, the two digits mem2hex writes |
| Printf.LeftPrecisionLost | src/printf.c:227-243 | `%-.5d` of 7 prints `7` and not `00007` |
| Printf.NtoaLong | src/printf.c:281-301 | the digit loop and the padding write the specified text through the sink |
| Printf.Vsnprintf | src/printf.c:577-857 | truncation commutes with formatting: the count does not depend on maxlen, the buffer gets the longest prefix that fits of the format's output and a NUL, and nothing is written at or past maxlen; the output itself is that of `PrintfFormats.FormatPrinted` |

## Left out

- Calls on a TCB the library knows succeed; partial failure of setting a hardware
  breakpoint or watchpoint, and kernel errors during registration, are not modelled.
  Reads and writes of inferior memory may fail.
- regs2hex, hex2regs and inf_hex2mem (whose addresses advance per byte and per word).
- Reply strings other than the one for qfThreadInfo, and the stop replies of faults.
- handle_set_inferior and handle_check_thread_alive for unknown ids.
- Stub.Stub.HandleVcont: only packets of registered processes with ids that are read as 1 to 256 or a final -1 (ids above 256 lead the loop past its table), and with nothing left of what the uninitialised ints held; with indeterminate bytes left the C program has no defined effect, and process -1 or 0, thread id 0 and actions without a thread id reach unfinished or undefined code.
- ThreadIds.ParseThreadId: ids of at most 9 hex digits, beyond which the code writes outside its ints.
- ThreadIds.ThreadInfo: at most 292 enabled threads, beyond which the code writes outside its buffer.
- Registry.RegisterInferiorIds: stops where a counter passes 65535 and the 16-bit ids wrap; likewise for the threads of one inferior. A registration that finds no slot moves its counter by the table size (64 or 256), so about 255 failing calls for one full inferior are enough.
- SoftwareBreakpoints.OverlayOverRuns: the same address set twice, and entries less than 8 bytes apart, for which the exact condition is proved separately.
- EventLoop.StopSafety: packets are taken by what they do, not as text; only running threads fault, and replying to a suspended thread's fault does not start it; breakpoint addresses are nonzero.
- Runs.RunKeeps: hardware breakpoint addresses are nonzero, and a registered TCB belongs to no enabled thread, with clean registers and stepping off.
- PacketLink.GetPacket: a stream that ends is a receiver that waits; the wait is not modelled here but in `Scheduler`.
- PacketLink.StopAndWait: payloads of at most 2046 bytes without `$`, `#` or NUL, and no `:` as third byte in any frame or in the stale buffer, which the code takes for a sequence id; damage changes checksums but keeps frames well-shaped; a fault handler's own frames are not interleaved, only what they leave in the shared buffer. The resend loop of the other two examples is not modelled.
- Printf.Vsnprintf: no floats, no format that ends inside a directive, no sink but the buffer; a missing argument reads as 0 or as an empty string.
- PrintfNumbers.NtoaIsField: the `#` flag, for which `PrintfPrefix` has the exact conditions except for `o` with a precision and for pointers, and base 2 but for a plain `%b`; the code's text for these is modelled, but no field is claimed.
- PrintfFormats.FormatPrinted: widths and precisions below 2^32 (larger ones wrap), and specifiers the code does not know, which print themselves.
- Demux.Demultiplex: the endless loop is cut off at the end of its input, and the ports are sequences.
- The `handled` table of handle_vcont is a local two-dimensional array here.
- libco, Microkit, lwIP, sDDF queues, UART registers and the example applications.
