# Models of Bochs 2.6.11

This project models the parts of Bochs whose correctness is not obvious from reading them, and proves what
they are for. `dafny verify dfyconfig.toml` checks everything.

## What is modelled

**Timers.** `pc_system` keeps up to 64 timers with 64-bit deadlines, but decrements only one 32-bit countdown.
`Timers.dfy` defines two schedulers on values: a naive one that looks at every timer at every tick, and the
countdown scheduler, which looks only when the countdown expires. The main result is that the second is an
exact optimisation of the first, for every set of timers, every device behaviour and every run.
`TimerFirings.dfy` derives when an individual timer fires after each kind of timer call, and `TimerCallbacks.dfy`
does so for calls made inside callbacks. `PcSystem.dfy` is the object with its fields; each
method computes the state that the countdown scheduler specifies. `SmpLoop.dfy` puts the round-robin loop of
`main.cc` on top of it.

**Queues.** `Queues.dfy` models the link manipulation of `qemu-queue.h` on links in the heap. A queue is
described by its chain (the head, then the entries); each operation turns a well-linked chain into the chain
that the corresponding sequence operation gives.

**CRC.** `Crc.dfy` proves the table-driven code equal to the bit-serial one for every message, that all bursts
of up to 32 bits are detected, and that a receiver's check tells right codes from wrong ones. The polynomial is
that of the frame check sequence in section 3.2.9 of IEEE 802.3.

**Modules and search paths.** `Ltdl.dfy` and `LtdlSession.dfy` model the list of open modules in `ltdl.c`:
reference counts, residents, and the shutdown loop, whose termination needs an argument. `LtdlPlay.dfy` says what
a program may rely on, without lists and pointers; runs of the library follow it. `SearchPath.dfy`
models how search paths are canonicalised, split and joined.

**BIOS.** `RomCopy.dfy` copies option ROMs through shadow RAM windows. `PciBars.dfy` assigns PCI addresses, and
`PciPlacement.dfy` says where they end up in terms of the devices alone. `MpTable.dfy` and `MpWriter.dfy` build the
multiprocessor tables and read them back, and `BiosSums.dfy` is the checksum fixer; `BiosSecondRun.dfy` says what
it does to its own output, and `BiosTables.dfy` how it sees the multiprocessor tables.

**Debugger.** `PageMap.dfy` is the dump of the page map, and `LinearRead.dfy` the read of linear memory. Both
apply to every page walk that divides the address space into pages; `PageMap.dfy` shows this of the two-level
walk, and `PaeWalk.dfy` of those of physical address extension. `PageTables.dfy` and `PaeTables.dfy` show that
each walk finds the mapping that the tables in memory are laid out for.

`Machine.dfy`, `Bits.dfy` and `Arithmetic.dfy` hold what the models share.

## Where the code and its comments disagree

The comment in `canonicalize_path` says that path separators are not copied to the end of the destination.
That is not so for "a:/", whose result is "a:". `SearchPath.CanonicalIff` and `SearchPath.IdempotentIff` give
the exact condition: all is well if and only if no non-empty element made of slashes only comes after an
element that is copied. For "a:/", and also for ":", `foreach_dirinpath` goes through a directory with an empty
name; `SearchPath.EmptyDirIff` says for exactly which paths it does.

`lt_dlclose` notes that the reference count of a resident is tracked "correctly". If a resident is closed once
more often than it has been opened, its count is -1, and the next open takes it for a new handle and links it
to the list a second time. `LtdlSession.OpenAcyclicIff` says that the list then never ends, and that this is
the only case; `LtdlSession.ClosedOnceTooOften` brings it about.

## Model

| member | source | states |
|---|---|---|
| `Timers.CommandRefines` | bochs-2.6.11/pc_system.cc:288-318 | Every timer call keeps the invariant: the countdown is at least 1 and at most the stretch, no armed deadline lies before the end of the stretch, and the null timer keeps the stretch within 32 bits. It also has exactly the effect the same call has on the naive scheduler, which knows only the time, so shortening the countdown in flight does not disturb the time. |
| `Timers.CallsRefine` | bochs-2.6.11/pc_system.cc:376-384 | Running the callbacks of the snapshot in slot order keeps the invariant between and inside callbacks, whatever timer calls they make, and is what the naive scheduler does; a slot unregistered meanwhile is skipped, one deactivated meanwhile still fires. |
| `Timers.RearmedDeadlines` | bochs-2.6.11/pc_system.cc:336-360 | After the scan every armed deadline lies strictly ahead, and the null timer's at most 2^32 - 1 ticks ahead. |
| `Timers.MinIsEarliest` | bochs-2.6.11/pc_system.cc:337-367 | The minimum the scan computes is above the current tick and no later than any armed deadline. |
| `Timers.ReloadOk` | bochs-2.6.11/pc_system.cc:329-374 | At an expired countdown no armed deadline has been missed (the debug panics cannot happen), and the new countdown, narrowed to 32 bits, is exactly the distance to the earliest deadline and at least 1. |
| `Timers.EventRefines` | bochs-2.6.11/pc_system.cc:321-385 | An event is one tick of the naive scheduler: what is due at that tick fires, in slot order, and nothing else; a spurious expiry fires nothing. |
| `Timers.TickRefines` | bochs-2.6.11/pc_system.h:106-110 | One `tick1` of the countdown scheduler is one tick of the naive scheduler; a tick that does not end the stretch has nothing to fire. |
| `Timers.RunRefines` | bochs-2.6.11/pc_system.cc:321-385 | Over every run of ticks and timer calls, for every device behaviour, the countdown scheduler has the same firings, the same timer table and the same time as the naive one. |
| `Timers.Run` | bochs-2.6.11/pc_system.cc:321-385 | The invariant holds after every run from a state that satisfies it. |
| `Timers.TickN` | bochs-2.6.11/pc_system.h:111-121 | `tickn(n)` terminates, keeps the invariant and advances `time_ticks()` by exactly n, however many events and re-arms happen on the way. |
| `Timers.TickNIsTicks` | bochs-2.6.11/pc_system.h:106-121 | `tickn(n)` leaves exactly the state and the firings of n calls of `tick1`. |
| `Timers.TickNSplit` | bochs-2.6.11/pc_system.h:111-121 | `tickn(a + b)` is `tickn(a)` followed by `tickn(b)`. |
| `TimerFirings.TickFires` | bochs-2.6.11/pc_system.cc:347-360 | A tick fires an untouched timer exactly if it is active and due, whatever the other callbacks do, and re-arms or disarms it. |
| `TimerFirings.RunFires` | bochs-2.6.11/pc_system.cc:347-366 | Over any run that leaves a slot alone the timer there fires at exactly the ticks of its schedule. |
| `TimerFirings.ActivatedTimer` | bochs-2.6.11/pc_system.cc:473-505 | After a timer is activated at t0 for p ticks and not touched again, a continuous one fires at t0 + p, t0 + 2p, ... without drift, n / p times in n ticks, and a one-shot exactly once, at t0 + p, if p ticks pass; a slot without a function never fires. 0 ticks count as 1. |
| `TimerFirings.DeactivatedTimer` | bochs-2.6.11/pc_system.cc:562-572 | A timer that is deactivated between two ticks does not fire any more until something else is done to it, whatever the devices do. |
| `TimerFirings.RegisteredTimer` | bochs-2.6.11/pc_system.cc:261-319 | A timer is registered in the first slot that is not in use, or else a new one. If it is active it fires like one that is activated, if not it does not fire. |
| `TimerFirings.UnregisteredTimer` | bochs-2.6.11/pc_system.cc:574-602 | An inactive timer that is unregistered does not fire any more; an active one cannot be unregistered and goes on firing on its schedule. |
| `TimerFirings.SlotGivenBack` | bochs-2.6.11/pc_system.cc:574-602 | Unregistering the timer registered last, in a new slot, gives the slot back; no other slot changes. |
| `TimerCallbacks.CallbackIssues` | bochs-2.6.11/pc_system.cc:376-384 | When a slot fires, its callback is called with what has happened so far, and what follows in the log of the run are exactly the legal ones among the timer calls that it answers with, in order. |
| `TimerCallbacks.DeactivatedInCallback` | bochs-2.6.11/pc_system.cc:376-384 | A timer that a callback deactivates does not fire any more, except that a slot in the snapshot of the tick under way whose turn is still to come fires exactly that once. |
| `TimerCallbacks.UnregisteredInCallback` | bochs-2.6.11/pc_system.cc:376-384 | A timer that a callback unregisters does not fire any more, not even in the tick under way. |
| `TimerCallbacks.ActivatedInCallback` | bochs-2.6.11/pc_system.cc:376-384 | A timer that a callback activates fires from that tick on as if activated between ticks, and once more in the tick under way if it is in the snapshot and its turn is still to come. |
| `TimerCallbacks.RegisteredInCallback` | bochs-2.6.11/pc_system.cc:376-384 | So does a timer that a callback registers; a slot that was in the snapshot and has been given up and registered anew in the same tick fires for its new owner. |
| `TimerCallbacks.RearmingTimer` | bochs-2.6.11/pc_system.cc:347-384 | A one-shot whose device activates it again by p at each call fires at t0 + p, t0 + 2p, ..., n / p times in n ticks, whatever the other devices do. |
| `TimerCallbacks.NullTimerFires` | bochs-2.6.11/pc_system.cc:60-76 | From the start, whatever is called, the null timer fires at exactly the multiples of 2^32 - 1 ticks. |
| `PcSystem.PcSystem.constructor` | bochs-2.6.11/pc_system.cc:41-58 | A new object has only the null timer. |
| `PcSystem.PcSystem.Initialize` | bochs-2.6.11/pc_system.cc:60-76 | `initialize` puts the object into the state from which every run starts, with no request pending, and the invariant holds there. |
| `PcSystem.PcSystem.RegisterTimerTicks` | bochs-2.6.11/pc_system.cc:261-319 | Registering finds the first unused slot or opens a new one, and returns it; with 64 slots allocated it returns -1 and changes nothing. The new state is that of the specification; the invariant is kept. |
| `PcSystem.PcSystem.ShortenTo` | bochs-2.6.11/pc_system.cc:302-310 | Shortening the countdown and its period together leaves the time as it was. |
| `PcSystem.PcSystem.ActivateTimerTicks` | bochs-2.6.11/pc_system.cc:473-505 | Arms a slot relative to the current time, in the middle of a stretch if need be. |
| `PcSystem.PcSystem.DeactivateTimer` | bochs-2.6.11/pc_system.cc:562-572 | Disarms a slot and nothing else. |
| `PcSystem.PcSystem.UnregisterTimer` | bochs-2.6.11/pc_system.cc:574-602 | An active timer is not unregistered; otherwise the slot is cleared, and the last slot is given back. |
| `PcSystem.PcSystem.ScanTimer` | bochs-2.6.11/pc_system.cc:336-369 | The scan of one slot: due timers are marked and re-armed, and the deadline of what stays active enters the minimum. |
| `PcSystem.PcSystem.Scan` | bochs-2.6.11/pc_system.cc:336-369 | The scan marks exactly the due slots, brackets them between `first` and `last`, re-arms them, and finds the earliest deadline. |
| `PcSystem.PcSystem.FireTriggered` | bochs-2.6.11/pc_system.cc:376-384 | The loop from `first` to `last` calls exactly the marked slots, in order, skipping those whose function has become NULL. |
| `PcSystem.PcSystem.CountdownEvent` | bochs-2.6.11/pc_system.cc:321-385 | The imperative event handler computes the specified state, with the devices reacting to what they have seen so far. |
| `PcSystem.PcSystem.Tick1` | bochs-2.6.11/pc_system.h:106-110 | `tick1` as a method refines the specified tick. |
| `PcSystem.PcSystem.TickN` | bochs-2.6.11/pc_system.h:111-121 | The loop of `tickn` terminates and refines the specified `tickn`. |
| `PcSystem.RunFromStart` | bochs-2.6.11/pc_system.cc:60-76 | Every run that starts from `initialize` keeps the invariant, keeps exact time and does what the naive scheduler does. |
| `PcSystem.PcSystem.TimeUsecSequential` | bochs-2.6.11/pc_system.cc:445-459 | If `time_usec` has not run backwards the result is the later of now and the previous result, plus one; and it is above the previous result if and only if `time_usec` has not run backwards. |
| `PcSystem.PcSystem.ReadClock` | bochs-2.6.11/pc_system.cc:445-459 | A run of calls returns strictly increasing results if and only if the clock never runs backwards; then the results are those of the recurrence. |
| `PcSystem.SequentialReadsIncrease` | bochs-2.6.11/pc_system.cc:445-459 | On a clock that never runs backwards, every run of sequential reads, which is what the recurrence describes, is strictly increasing and ahead of the clock. |
| `SmpLoop.Turn` | bochs-2.6.11/main.cc:1086-1104 | One turn of the loop runs the timer calls of the trace and, at the end of a round, one `tickn`. Processors times ticks issued plus `executed` grows by exactly what was counted for the trace, less what is lost; something is lost if and only if the sum does not fit 32 bits. |
| `SmpLoop.Run` | bochs-2.6.11/main.cc:1080-1109 | Over any sequence of traces, processors times ticks plus `executed` plus what is lost is the number of instructions counted. Nothing is lost if and only if what is counted within each round fits 32 bits. At the end of a round `executed` is less than the number of processors, and time has advanced by the total divided by it, rounded down. |
| `Queues.TailInit` | bochs-2.6.11/qemu-queue.h:339-342 | An initialised head is the empty queue. |
| `Queues.TailInsertHead` | bochs-2.6.11/qemu-queue.h:344-352 | Inserting at the head inserts at the front of the chain and keeps every link invariant. |
| `Queues.TailInsertTail` | bochs-2.6.11/qemu-queue.h:354-359 | Inserting at the tail appends, in constant time through `tqh_last`. |
| `Queues.TailInsertAfter` | bochs-2.6.11/qemu-queue.h:361-369 | Inserts behind a given entry, also behind the last. |
| `Queues.TailInsertBefore` | bochs-2.6.11/qemu-queue.h:371-376 | Inserts before a given entry without knowing the head. |
| `Queues.TailRemove` | bochs-2.6.11/qemu-queue.h:378-385 | Removes exactly one entry; the others keep their order, and the removed entry its own pointers. |
| `Queues.TailLast` | bochs-2.6.11/qemu-queue.h:409-410 | Reading the link that `tqh_last` leads to as a head gives the last entry, or NULL for the empty queue. |
| `Queues.TailPrev` | bochs-2.6.11/qemu-queue.h:411-412 | Reading the predecessor's link as a head gives the previous entry, or NULL for the first. |
| `Queues.Traverse` | bochs-2.6.11/qemu-queue.h:387-390 | Forward traversal visits exactly the entries in order and ends. |
| `Queues.TraverseReverse` | bochs-2.6.11/qemu-queue.h:397-400 | Reverse traversal visits exactly the reverse of what forward traversal visits. |
| `Queues.SimpleInsertHead` | bochs-2.6.11/qemu-queue.h:248-252 | Inserts at the front and keeps `sqh_last` at the last `next`. |
| `Queues.SimpleInsertTail` | bochs-2.6.11/qemu-queue.h:254-258 | Appends. |
| `Queues.SimpleInsertAfter` | bochs-2.6.11/qemu-queue.h:260-264 | Inserts behind a given entry, also behind the last. |
| `Queues.SimpleRemoveHead` | bochs-2.6.11/qemu-queue.h:266-269 | Removes the first entry; an emptied queue is as initialised. |
| `Queues.SimpleRemove` | bochs-2.6.11/qemu-queue.h:271-282 | The walk finds the predecessor and terminates because the entry is on the queue; exactly that entry is removed. |
| `Queues.SimpleConcat` | bochs-2.6.11/qemu-queue.h:294-300 | All entries of the second queue move to the end of the first, in order; the second is left empty. |
| `Queues.SimpleLast` | bochs-2.6.11/qemu-queue.h:302-306 | The last entry, or NULL. |
| `Queues.ListInsertAfter` | bochs-2.6.11/qemu-queue.h:107-113 | Inserts behind a given entry of a doubly linked list. |
| `Queues.ListInsertBefore` | bochs-2.6.11/qemu-queue.h:115-120 | Inserts before a given entry without knowing the head. |
| `Queues.ListInsertHead` | bochs-2.6.11/qemu-queue.h:122-127 | Inserts at the front. |
| `Queues.ListRemove` | bochs-2.6.11/qemu-queue.h:140-145 | Removes exactly one entry without knowing the head. |
| `Crc.StepLinear` | bochs-2.6.11/crc.cc:46-49 | A shift of the register is linear over exclusive or. |
| `Crc.StepInjective` | bochs-2.6.11/crc.cc:46-49 | A shift of the register loses nothing, because the polynomial is odd. |
| `Crc.AbsorbBits` | bochs-2.6.11/crc.cc:41-51 | Absorbing up to 32 bits one by one is adding them at once and shifting. |
| `Crc.ByteStepIsSerial` | bochs-2.6.11/crc.cc:62-63 | A table lookup has the effect of absorbing the eight bits of a byte one at a time. |
| `Crc.EntryOneIsPoly` | bochs-2.6.11/crc.cc:58-59 | The table entry for 1 is the polynomial, hence not zero. |
| `Crc.Crc32.SecondEntryTells` | bochs-2.6.11/crc.cc:58-59 | `crc32_table[1]` is non-zero exactly if the table has been built. |
| `Crc.Crc32.Init` | bochs-2.6.11/crc.cc:41-51 | The nested loops fill the table with the eight-step shifts. |
| `Crc.Crc32.Compute` | bochs-2.6.11/crc.cc:53-65 | For every message the table-driven code returns the complement of the bit-serial code started at all ones, building the table if need be. |
| `Crc.SerialInjective` | bochs-2.6.11/crc.cc:53-65 | For a fixed message the code is an injective function of the register it starts from. |
| `Crc.BurstDetected` | bochs-2.6.11/crc.cc:53-65 | Two messages that differ only within some 32 consecutive bits have different codes. |
| `Crc.FourBytesDetected` | bochs-2.6.11/crc.cc:53-65 | Two messages of equal length that differ only within some four consecutive bytes have different codes. |
| `Crc.PolyIsIeee` | bochs-2.6.11/crc.cc:39 | The polynomial is the number in the code, and its exponents are those in section 3.2.9 of IEEE 802.3. |
| `Crc.ResidueTells` | bochs-2.6.11/crc.cc:53-65 | Sending a message and 32 more bits through the register leaves a residue that does not depend on the message if and only if the 32 bits are the code of the message. |
| `Crc.KnownCodes` | bochs-2.6.11/crc.cc:53-65 | The code of no bytes is 0 and that of four bytes 0xff is 0xffffffff. |
| `Ltdl.Ltdl.Open` | bochs-2.6.11/ltdl.c:1902-1928 | Opening a listed file raises its count and lists nothing new; opening another one puts a handle with count 1 in front if it loads, and the program itself becomes resident. The list stays in order unless the handle found had count -1, and then that becomes the head and leads to the old head. |
| `Ltdl.Ltdl.Register` | bochs-2.6.11/ltdl.c:2935-2947 | A handle with count 0 is given count 1 and put in front of the list; any other is left alone. |
| `Ltdl.Ltdl.MakeResident` | bochs-2.6.11/ltdl.c:3668-3687 | Sets the residency flag of one handle; the list stays in order. |
| `Ltdl.Ltdl.Close` | bochs-2.6.11/ltdl.c:3334-3397 | Closing lowers the count; a non-resident handle leaves the list, and its module is closed, exactly when the count reaches zero. Closing a resident or an unknown handle is an error. |
| `Ltdl.Ltdl.ClosePass` | bochs-2.6.11/ltdl.c:1845-1863 | A pass at a level closes non-residents only, reports whether it saw one, and keeps the budget from which termination follows. |
| `Ltdl.Ltdl.ClosePasses` | bochs-2.6.11/ltdl.c:1842-1867 | The loop over levels terminates: it reaches at most twice the largest reference count, plus one. |
| `Ltdl.Ltdl.CloseModules` | bochs-2.6.11/ltdl.c:1842-1867 | Whatever the reference counts, the module of every non-resident handle is closed exactly once, no resident's is, the residents stay in their order, and the errors are counted. |
| `Ltdl.Ltdl.Exit` | bochs-2.6.11/ltdl.c:1832-1880 | Only the last exit closes anything; resident handles at the head of the list are dropped from it unclosed, then all others are dealt with as above, and then the loaders are shut down. Every module and every loader that reports an error counts once. |
| `Ltdl.Ltdl.ExitLoaders` | bochs-2.6.11/ltdl.c:1869-1881 | The loop shuts every loader down and counts those that report an error. |
| `Ltdl.TakenConserves` | bochs-2.6.11/ltdl.c:1845-1863 | Handles taken off and handles left together are the handles there were. |
| `LtdlSession.OpenAcyclicIff` | bochs-2.6.11/ltdl.c:2935-2947 | After an open, following the list comes to an end if and only if the handle found did not have count -1. |
| `LtdlSession.ClosedOnceTooOften` | bochs-2.6.11/ltdl.c:3343-3385 | The failing case happens: a module that has been opened once, made resident, closed twice and opened again links to itself, and its list never ends. |
| `LtdlSession.BalancedGone` | bochs-2.6.11/ltdl.c:3343-3385 | When a count reaches zero the closes of the file have caught up with its opens, and the other files' counts still balance. |
| `LtdlSession.Session.constructor` | bochs-2.6.11/ltdl.c:3334-3397 | A library that has just been set up is new and has an empty list, an empty ledger, and nothing created. |
| `LtdlSession.Session.Open` | bochs-2.6.11/ltdl.c:1902-1928 | An open returns a handle listed under the file asked for, or fails if the file is neither listed nor loads. Without residents the list stays acyclic with one entry per file, and a handle's count is the successful opens of its file less the closes. |
| `LtdlSession.Session.Close` | bochs-2.6.11/ltdl.c:3343-3385 | A module is closed exactly when the closes of its file catch up with its opens; closing a handle that is not listed is an error and changes nothing. |
| `LtdlSession.Run` | bochs-2.6.11/ltdl.c:3343-3385 | Over any run of opens and closes of what the opens have returned, the library does what the play of these actions says: exactly the handles of the open modules are listed, each open has the result it should have, the ledger counts the opens that succeeded and the closes of open modules, and it balances. Every handle created has been closed exactly once or is still listed, and a file is listed exactly as long as its closes have not caught up with its opens. |
| `LtdlSession.OpenResults` | bochs-2.6.11/ltdl.c:1902-1928 | There is one result for each open. It is the handle of a module of the file asked for, or NULL, which it is exactly if no module of that file was open at that moment and none could be loaded. |
| `LtdlSession.ListedInRun` | bochs-2.6.11/ltdl.c:3343-3385 | At any moment of a run a file is listed exactly if the play has a module of it open. |
| `LtdlSession.NothingLeft` | bochs-2.6.11/ltdl.c:3343-3385 | If a program closes the result of each open that has succeeded, once and after that open, the list ends empty and every module loaded has been closed exactly once. |
| `LtdlPlay.ResultOfOpen` | bochs-2.6.11/ltdl.c:1902-1928 | In the play an open returns a module of its file, and fails exactly if none is open and none can be loaded; results never change afterwards. |
| `LtdlPlay.AfterOk` | bochs-2.6.11/ltdl.c:1902-1928 | Over any run of the play at most one module of each file is open. |
| `LtdlPlay.CountIs` | bochs-2.6.11/ltdl.c:3343-3385 | The count of a module is the number of opens that have returned it less the number of closes made while it was open; it never goes below 0. |
| `LtdlPlay.CountIsPending` | bochs-2.6.11/ltdl.c:3343-3385 | As long as a program closes each result once at most, the count is the number of opens that returned the module and have not been closed. |
| `LtdlSession.ConservedGone` | bochs-2.6.11/ltdl.c:3355-3385 | Taking a handle off the list and closing its module leaves every handle created accounted for once. |
| `LtdlSession.ListedIffOpen` | bochs-2.6.11/ltdl.c:3355-3385 | A file is listed if and only if it has been opened more often than closed. |
| `SearchPath.CanonicalizePath` | bochs-2.6.11/ltdl.c:2089-2150 | The in-place loop computes the specified canonical form and terminates it within the buffer. |
| `SearchPath.CanonicalIff` | bochs-2.6.11/ltdl.c:2089-2150 | The result has no leading, trailing or doubled separator and no superfluous slash if and only if no non-empty element made of slashes only follows one that is copied. |
| `SearchPath.IdempotentIff` | bochs-2.6.11/ltdl.c:2089-2150 | Canonicalising twice is canonicalising once under exactly the same condition. |
| `SearchPath.FixpointIff` | bochs-2.6.11/ltdl.c:2089-2150 | A path is left alone exactly if it is canonical already. |
| `SearchPath.HollowElementRemains` | bochs-2.6.11/ltdl.c:2108-2142 | "a:/" is such a path: its result "a:" still ends in a separator, which the comment in the source rules out. |
| `SearchPath.ArgzCreateSep` | bochs-2.6.11/ltdl.c:470-523 | The loop computes the specified vector: leading delimiters are ignored and repeated ones folded. |
| `SearchPath.SplitAndJoin` | bochs-2.6.11/ltdl.c:470-523 | Splitting a canonical path gives exactly its elements, and joining the vector with the same separator restores the path. |
| `SearchPath.CanonicalElements` | bochs-2.6.11/ltdl.c:470-523 | No element of a canonical path is empty. |
| `SearchPath.ArgzStringify` | bochs-2.6.11/ltdl.c:640-657 | The code stays inside the vector if and only if there is no separator or the length is at least 2. Then every terminator but the first and the last character becomes the separator, and nothing beyond the length is touched. |
| `SearchPath.ArgzNext` | bochs-2.6.11/ltdl.c:595-629 | The next entry starts behind the next terminator, if that is still inside the vector. |
| `SearchPath.EachEntry` | bochs-2.6.11/ltdl.c:2218-2220 | Walking a vector with `argz_next` visits exactly its entries, in order. |
| `SearchPath.DirsInPath` | bochs-2.6.11/ltdl.c:2205-2220 | The directories gone through are the entries of the vector made from the canonical form, and exactly its elements if the path has no hollow element. None is empty if and only if the path has a character other than colon and slash, and its last non-empty element, if it comes after a colon, is not made of slashes only. |
| `SearchPath.EmptyDirIff` | bochs-2.6.11/ltdl.c:2205-2220 | The vector has no empty entry under exactly that condition. |
| `SearchPath.SeparatorAlone` | bochs-2.6.11/ltdl.c:2205-2234 | ":" has no hollow element, and its one directory is empty; the code that appends a file name expects at least one character. |
| `PageMap.DumpTable` | bochs-2.6.11/bx_debug/dbg_main.cc:3547-3597 | Reading the printed lines back gives, for every 32-bit address, exactly what the page walk finds; the lines are well formed and as long as possible; the loop ends for any mix of page sizes. |
| `PageMap.VisitPage` | bochs-2.6.11/bx_debug/dbg_main.cc:3568-3582 | The loop body for one page keeps the line under way and the lines printed equal to the mapping so far. |
| `PageMap.Ascending` | bochs-2.6.11/bx_debug/dbg_main.cc:3570-3573 | The printed lines are ascending and disjoint. |
| `PageMap.SentinelsDiffer` | bochs-2.6.11/bx_debug/dbg_main.cc:3564-3569 | The initial values 1 and 2 are never taken for a line that the current page continues. |
| `PageMap.DifferencesEqual` | bochs-2.6.11/bx_debug/dbg_main.cc:3569 | The comparison of unsigned 64-bit differences is the comparison of the differences. |
| `PageMap.LastPage` | bochs-2.6.11/bx_debug/dbg_main.cc:3584-3585 | Comparing with the last 4 KB recognises the last page, whatever its size, also a hole that reaches beyond 4 GB. |
| `PageMap.LegacyWalkPaged` | bochs-2.6.11/cpu/paging.cc:2311-2344 | The two-level page walk divides the address space into pages whatever the page tables hold, so the dump applies to it. |
| `PageTables.LegacyRoundTrip` | bochs-2.6.11/cpu/paging.cc:2311-2344 | For tables laid out for any assignment of frames to 4 KB pages, and of frames of up to 41 bits to 4 MB pages, the two-level walk translates every 32-bit address as assigned. |
| `PageTables.DumpLegacy` | bochs-2.6.11/bx_debug/dbg_main.cc:3547-3597 | What is printed for such tables reads back to the assignment. |
| `PaeTables.FindRoundTrip` | bochs-2.6.11/cpu/paging.cc:2272-2304 | From a table of 512 entries of 8 bytes at any level, laid out for any tree of holes, pages and tables, the walk finds what the tree maps; entries with reserved bits, misaligned frames or page sizes that do not exist are holes. |
| `PaeTables.LongModeRoundTrip` | bochs-2.6.11/cpu/paging.cc:2256-2306 | So does the four-level walk of compatibility mode, at every 32-bit address. |
| `PaeTables.LegacyPaeRoundTrip` | bochs-2.6.11/cpu/paging.cc:2256-2306 | So does the walk of legacy mode from its four directory pointers, at every 32-bit address. |
| `PaeTables.DumpLongMode` | bochs-2.6.11/bx_debug/dbg_main.cc:3547-3597 | What is printed in compatibility mode reads back to the tree. |
| `PaeTables.DumpLegacyPae` | bochs-2.6.11/bx_debug/dbg_main.cc:3547-3597 | What is printed in legacy mode with physical address extension reads back to the tree. |
| `PaeWalk.LegacyPaeWalkPaged` | bochs-2.6.11/cpu/paging.cc:2256-2306 | So does the walk of physical address extension with its 4 KB and 2 MB pages and its holes of 1 GB, whatever the tables hold. |
| `PaeWalk.LongModeWalkPaged` | bochs-2.6.11/cpu/paging.cc:2256-2306 | So does the four-level walk of compatibility mode, with pages of up to 1 GB and holes that may be larger than the 32-bit space. |
| `PaeWalk.FindAgrees` | bochs-2.6.11/cpu/paging.cc:2272-2304 | All addresses of a page or hole find that same page or hole, at whatever level the walk ends. |
| `LinearRead.ReadLinear` | bochs-2.6.11/bx_debug/dbg_main.cc:1358-1391 | A read across pages succeeds exactly if every byte is mapped and there (and the first page is mapped), and then the buffer holds those bytes in order and nothing behind them has changed. |
| `LinearRead.Fetch` | bochs-2.6.11/memory/misc_mem.cc:551-614 | A fetch stores 0xff for missing bytes and succeeds exactly if none is missing. |
| `LinearRead.WalkConsecutive` | bochs-2.6.11/bx_debug/dbg_main.cc:1366-1369 | Within 4 KB every page walk maps consecutive addresses consecutively, so one translation per page is enough. |
| `RomCopy.RegisterIsPam` | bochs-2.6.11/bios/rombios32.c:910-915 | The register and half that the BIOS computes for a window are those that the bridge decodes for its address range. |
| `RomCopy.Shadow.SetAccess` | bochs-2.6.11/bios/rombios32.c:910-921 | Rewriting two bits of a register sets the access of one window and leaves that of every other window of the shadow area. |
| `RomCopy.Shadow.CopyChunk` | bochs-2.6.11/bios/rombios32.c:906-923 | A chunk lies inside the one window opened for it, is copied byte for byte, and the window ends read-only; nothing else changes. |
| `RomCopy.Shadow.CopyRom` | bochs-2.6.11/bios/rombios32.c:903-924 | The chunk loop terminates, copies the whole ROM exactly once, and leaves every window it touched read-only; no other window of the shadow area changes its access. |
| `RomCopy.Shadow.InitPcirom` | bochs-2.6.11/bios/rombios32.c:885-928 | A ROM is accepted exactly if there is one and it fits below 0xe0000; a rejected one changes nothing. |
| `RomCopy.Shadow.CopyNext` | bochs-2.6.11/bios/rombios32.c:885-928 | Copying one more ROM leaves those copied before as they are on the bus. |
| `RomCopy.Shadow.InitOptroms` | bochs-2.6.11/bios/rombios32.c:1054-1098 | Over any sequence of devices every accepted ROM is still there, byte for byte and write-protected, in the end. |
| `RomCopy.PlacedApart` | bochs-2.6.11/bios/rombios32.c:895-926 | The ranges given to ROMs are disjoint, in order, inside the area and on 2 KB boundaries. |
| `BiosSums.Fixer.GetOffset` | bochs-2.6.11/bios/biossums.c:448-465 | The scan finds the next 16-aligned signature behind the given position, or -1. |
| `BiosSums.Fixer.Calc` | bochs-2.6.11/bios/biossums.c:422-445 | The checks pass exactly as specified, and then the value completes the sum of the block. |
| `BiosSums.Fixer.Fix` | bochs-2.6.11/bios/biossums.c:130-151 | One step of the fix-up: with exactly one header its checksum is set, with none or several nothing is written, and a failed check ends the program. |
| `BiosSums.Fixer.Seal` | bochs-2.6.11/bios/biossums.c:244-254 | The last step sets the byte at the end of the image. |
| `BiosSums.Fixer.FixAll` | bochs-2.6.11/bios/biossums.c:130-254 | The five steps and the last one, in order, compute the specified image. |
| `BiosSums.SumCompleted` | bochs-2.6.11/bios/biossums.c:422-445 | Setting the byte left out of a sum completes it. |
| `BiosSums.SignatureKept` | bochs-2.6.11/bios/biossums.c:475-479 | No write at a checksum position or at the end of the image makes or breaks a signature. |
| `BiosSums.FixOne` | bochs-2.6.11/bios/biossums.c:130-151 | Fixing one kind of header makes its block sum to 0, keeps the sums of the others, and keeps all blocks and signatures where they are; for all kinds but the last, the image stays well formed. |
| `BiosSums.ExtensionMissed` | bochs-2.6.11/bios/biossums.c:422-436 | The bytes that would announce an extended table may lie behind a short PCMP block, but no checksum other than that of a $PnP header, which comes after PCMP, can fall on them. |
| `BiosSums.SealKeeps` | bochs-2.6.11/bios/biossums.c:288-311 | The last write lies outside every block. |
| `BiosSums.SealCompletes` | bochs-2.6.11/bios/biossums.c:288-311 | It completes the sum of the image and makes no signature and breaks none. |
| `BiosSums.FixUpSums` | bochs-2.6.11/bios/biossums.c:130-254 | If every kind of header occurs at most once, passes its checks and has its checksum byte inside its block, and the blocks are disjoint, then the fix-up goes through and leaves every block and the whole 64 KB summing to 0 modulo 256 and every signature where it was; nothing changes but checksums and the last byte. |
| `BiosSecondRun.SecondRun` | bochs-2.6.11/bios/biossums.c:130-254 | On such an image a second run goes through if and only if no $PnP header stands 32 bytes behind the PCMP header with a checksum other than 0, and then it changes nothing. |
| `BiosSecondRun.ClashHappens` | bochs-2.6.11/bios/biossums.c:429-436 | There is such an image for which the first run goes through and the second stops at the check for extended tables. |
| `BiosSecondRun.NewValue` | bochs-2.6.11/bios/biossums.c:422-445 | The checksum a header ends up with is the one computed from the image as it was before the first step. |
| `BiosTables.SignaturesSpell` | bochs-2.6.11/bios/biossums.c:38-90 | The signatures are "_32_", "_MP_", "PCMP", "$PIR" and "$PnP". |
| `BiosTables.LengthsRead` | bochs-2.6.11/bios/biossums.c:38-90 | A block has the length that its header says in units of 16 bytes, in two bytes with the low one first, or in one byte. |
| `BiosTables.FixRestores` | bochs-2.6.11/bios/biossums.c:422-445 | Whatever becomes of the checksum field of a block that is in order, the fixer restores it. |
| `BiosTables.TableInOrder` | bochs-2.6.11/bios/biossums.c:422-445 | A PCMP table without extension that a reader of the MultiProcessor Specification accepts passes the checks of the fixer and has the checksum that it computes. |
| `BiosTables.PointerInOrder` | bochs-2.6.11/bios/biossums.c:422-445 | So has a floating pointer structure that a reader accepts. |
| `BiosTables.WrittenInOrder` | bochs-2.6.11/bios/rombios32.c:1171-1278 | The tables that the BIOS itself writes are in order for the fixer. |
| `MpTable.TableReads` | bochs-2.6.11/bios/rombios32.c:1171-1247 | A reader that follows sections 4.1 to 4.3 of the Intel MultiProcessor Specification 1.4 reads the table back as exactly the intended entries; length, entry count and checksum are right. |
| `MpTable.HeaderReads` | bochs-2.6.11/bios/rombios32.c:1171-1187 | The header reads back with revision 4, the OEM and product names, the number of entries, the local APIC at 0xfee00000 and no extension. |
| `MpTable.ExpectedCounts` | bochs-2.6.11/bios/rombios32.c:1171-1247 | The intended entries are the processors, one bus, one I/O APIC and 15 interrupts: smp_cpus + 17. |
| `MpTable.ProcessorsRead` | bochs-2.6.11/bios/rombios32.c:1189-1212 | The processor entries read back for any number of processors. |
| `MpTable.IrqsRead` | bochs-2.6.11/bios/rombios32.c:1227-1241 | The interrupt entries read back; interrupt 2 has none, and interrupt 0 goes to input 2. |
| `MpTable.ChecksumSet` | bochs-2.6.11/bios/rombios32.c:1247 | Storing the negated sum in a byte that was 0 brings the sum to 0 modulo 256. |
| `MpTable.PointerReads` | bochs-2.6.11/bios/rombios32.c:1263-1278 | The floating pointer structure reads back, as one of revision 1.4 without default configuration and IMCR, as the address of the table, and sums to 0. |
| `MpWriter.Writer.PutB` | bochs-2.6.11/bios/rombios32.c:1103-1109 | Stores one byte behind what has been written and touches nothing else. |
| `MpWriter.Writer.PutStr` | bochs-2.6.11/bios/rombios32.c:1111-1118 | Stores a string without its terminator. |
| `MpWriter.Writer.PutLe16` | bochs-2.6.11/bios/rombios32.c:1120-1127 | Stores a 16-bit value, low byte first. |
| `MpWriter.Writer.PutLe32` | bochs-2.6.11/bios/rombios32.c:1129-1138 | Stores a 32-bit value, low byte first. |
| `MpWriter.Writer.AddUp` | bochs-2.6.11/bios/rombios32.c:1140-1147 | The loop adds up exactly the given bytes. |
| `MpWriter.Writer.WriteEntries` | bochs-2.6.11/bios/rombios32.c:1171-1241 | The bytes written one after the other are the header and the entries. |
| `MpWriter.Writer.WriteTable` | bochs-2.6.11/bios/rombios32.c:1170-1247 | With length and checksum patched in, what has been written is the table, and reads back. |
| `MpWriter.Writer.WritePointer` | bochs-2.6.11/bios/rombios32.c:1263-1278 | What has been written is the structure pointing to the table, and reads back. |
| `MpWriter.Writer.MptableInit` | bochs-2.6.11/bios/rombios32.c:1154-1284 | Table and pointer structure go to the next multiples of 16, without overlapping, and no other byte of memory changes. |
| `MpWriter.TablesFound` | bochs-2.6.11/bios/rombios32.c:1154-1284 | In the memory so left the floating pointer structure gives the address of the table, the table reads back as intended, and all other bytes are as before. |
| `PciBars.ClearLow` | bochs-2.6.11/bios/rombios32.c:1019 | Clearing the low k bits of a word rounds it down to a multiple of 2^k. |
| `PciBars.AlignUpLeast` | bochs-2.6.11/bios/rombios32.c:1019 | `(x + s - 1) & ~(s - 1)` is the least multiple of the power of two s at or above x. |
| `PciBars.SizeIs` | bochs-2.6.11/bios/rombios32.c:1003 | The size decoded from the address bits is the size the region implements. |
| `PciBars.ContiguousIff` | bochs-2.6.11/bios/rombios32.c:1003 | The decoded size is a power of two if and only if the address bits of the region are contiguous. |
| `PciBars.SixteenBitDecoder` | bochs-2.6.11/bios/rombios32.c:1003 | A region that decodes 16 address bits only is one for which it is not: 32 ports are taken for nearly 4 GB. |
| `PciBars.AssignOk` | bochs-2.6.11/bios/rombios32.c:1019-1028 | A region goes behind those before it in its pool, aligned to its size. |
| `PciBars.AssignDevicesOk` | bochs-2.6.11/bios/rombios32.c:990-1030 | Over all devices and regions the ranges taken from one pool are disjoint, aligned to their sizes, and not below the start of the pool. |
| `PciBars.SpacesApart` | bochs-2.6.11/bios/rombios32.c:1085-1093 | As long as the pools of bus 0 have not run into those of the AGP bridge, no two port ranges and no two memory ranges overlap, whatever pools they are from. |
| `PciBars.RegionFollows` | bochs-2.6.11/bios/rombios32.c:1019-1028 | As long as the pool does not run past 32 bits, the masked arithmetic places a region where unbounded arithmetic would. |
| `PciBars.Allocator.AssignRegion` | bochs-2.6.11/bios/rombios32.c:1001-1029 | One region: the 32-bit allocator follows the unbounded layout until a pool runs past the end of the address space; it may end there. |
| `PciBars.Allocator.InitDevice` | bochs-2.6.11/bios/rombios32.c:990-1030 | All regions of a device, in order. |
| `PciBars.Allocator.InitDevices` | bochs-2.6.11/bios/rombios32.c:1066-1095 | All devices, in order: what has been handed out is disjoint and aligned unless a pool has run past the end of the address space. |
| `PciPlacement.DevicesPlaced` | bochs-2.6.11/bios/rombios32.c:990-1030 | Over all devices the ranges handed out correspond one to one and in order to the regions that do not read back 0. Each has the size that its region implements and lies at the least multiple of it that is at or above the first address of its kind or behind the last range of that kind; the kind is ports or memory by bit 0, behind the AGP bridge or not by the bus. |
| `PciPlacement.SpacesUsed` | bochs-2.6.11/bios/rombios32.c:1085-1093 | Ports lie from 0xc000 up, on bus 1 from 0xe000; memory from 0xc0000000, on bus 1 from 0xd0000000. As long as bus 0 has not run into the addresses of the AGP bridge no two ranges of one address space overlap, and if the ports of the AGP bridge end by 0x10000, so do all port ranges. |
| `PciPlacement.PciBiosInit` | bochs-2.6.11/bios/rombios32.c:1085-1097 | The 32-bit allocator hands out exactly this placement unless a pool has run past the end of the address space. |

## Left out

- Floating point: the conversions between microseconds and ticks (`m_ips`, `time_usec`, `register_timer`, `activate_timer`) and `isa_bus_delay`. Timer calls take ticks, and `time_usec` is a parameter.
- Timers.RunRefines: the 64-bit tick count is assumed not to wrap; runs end at tick 2^64 - 2^32 (`HORIZON`), about which the null timer's next deadline no longer fits.
- Timers.CommandRefines: deadlines are unbounded naturals, so a period so large that time plus period exceeds 64 bits is not wrapped as the code would wrap it.
- Timers.CallsRefine: callbacks are deterministic functions of what the devices have seen and of the timer table; they do not tick, and calls on slot 0 or on unallocated slots (panics in a debug build) are dropped.
- PcSystem.PcSystem.RegisterTimerTicks: with `numTimers` at 64 it fails even if a slot is free, as in the code. Timer names, `this_ptr` and `param` are left out.
- PcSystem.PcSystem.TimeUsecSequential: the result is not cut to 64 bits.
- PcSystem.PcSystem.Initialize: one simulation run; a second initialisation with timers left over from the first is not modelled, nor is the speed in instructions per second.
- SmpLoop.Run: instruction counts of a processor are unbounded naturals (the differences are cut to 32 bits as in the code), and what a processor executes is given as a trace.
- Queues.SimpleRemove: the entry has to be on the queue, as the macro's callers promise; `QSLIST`, which only adds easy members, and the variants that are safe against removal are left out.
- Crc.Crc32.Compute: words are sequences of 32 bits, so that shifts and exclusive or are exact.
- Ltdl.Ltdl.Open: the search for a file and the loader back ends are a flag saying whether a loader can open it; dependency libraries (`LTDL_DLOPEN_DEPLIBS` is undefined), failed allocations, locks and error strings are left out. The residency flag is a set of handles, and a loader is what its exit function returns.
- LtdlSession.Run: only files, without residents.
- LtdlSession.Session.Open: only for files; the program itself becomes resident.
- LtdlSession.Session.Close: only without residents, whose counts can become negative.
- SearchPath.ArgzStringify: what happens after the code has left the vector, at a length of 0 or 1.
- `argz_insert` and `lt_argz_insertinorder`: the former reads outside the vector it extends; the latter only adds a sorted insertion on top of it.
- PageMap.DumpTable: not in 64-bit mode, with its gap of non-canonical addresses; the A20 line is enabled.
- PageMap.LegacyWalkPaged: nested paging is left out, here and in `PaeWalk.dfy`; which address bits are reserved is a parameter there.
- LinearRead.ReadLinear: what physical memory holds is a function; where `dbg_fetch_mem` finds it (video memory, ROM, shadow RAM) is left out. Linear addresses wrap at 32 bits as they do outside long mode.
- RomCopy.Shadow.InitOptroms: the ROM images on the bus are not in the shadow area, and switching off the ROM decoder of the device afterwards is left out.
- BiosSums.Fixer.FixAll: the source repeats the same functions for each of the five kinds of header; the model has them once, with the kind as a parameter. Reading, padding and writing the file are left out. Offset 0 is never searched, as in the code.
- MpWriter.Writer.MptableInit: memory is a sequence that the writer reassigns byte by byte, at most 4 GB of it, with room for the tables; at most 255 processors; the variant with tables in the EBDA (`BX_USE_EBDA_TABLES` is not defined) is left out.
- PciBars.Allocator.InitDevices: only devices that take the default mapping, whose regions have contiguous address bits, and without 64-bit base address registers; writing the address back, interrupt lines and bridges are left out.
- PciPlacement.PciBiosInit: the same restrictions; the bridges and option ROMs that `pci_bios_init` also goes through are left out.
- PciBars.Allocator.InitDevice: contiguous address bits, and no 64-bit registers.
- PciBars.Allocator.AssignRegion: contiguous address bits, and no 64-bit registers. `PciBars.SixteenBitDecoder` is a region outside this.
- PciBars.AssignDevicesOk: contiguous address bits.
- PciBars.AssignOk: contiguous address bits.
- PciBars.RegionFollows: contiguous address bits.
- Debugger time breakpoints, symbol lookup, breakpoint arrays, configuration files, the SSDT builder, `vsnprintf` of the BIOS, port I/O and all devices.
