# A verified model of the bank swap, the frame rings and the start-up loops

This project models, in Dafny, the parts of the firmware whose correctness spans many steps, and proves
what they promise. `dafny verify dfyconfig.toml` checks all of it.

## The A/B bank swap

Two UCB flash blocks, ORIG and COPY, each hold a log of sixteen swap entries and a confirmation code. An entry is
a marker page and a confirmation page, each carrying its own address. `swap_bank` toggles the mode that the next
reset boots, in one of two ways: it appends to both logs, COPY first, and invalidates older entries by
over-programming all ones; or, when a log is full or a block is broken, it erases and rewrites the blocks (the
dual password sequence).

* `swap_log.dfy`: pages, entries, and the scan of a log.
* `swap_protocol.dfy`: a call as a sequence of page programs and sector erases, and the boot rule (ORIG if it is
  confirmed or unlocked, else COPY; there, the latest valid entry).
* `swap_call.dfy`: the effect of each operation; a measure that every turn of the loop decreases.
* `swap_safety.dfy`: the invariant, and that every page program and erase of a call keeps it.
* `swap_theorems.dfy`: crash atomicity, flash discipline, recovery, and the runs of any number of interrupted calls.
* `swap_address.dfy`, `flash_read.dfy`, `ucb_sectors.dfy`, `ucb_driver.dfy`: the code underneath, on arrays of
  pages reached through addresses. `Driver.SwapBank` performs exactly the operations of the protocol, in order; the
  ghost field `trace` records them.

Power may fail between any two operations; a page program and a sector erase are atomic. All theorems about runs are
over `PowerCycles`: any number of calls, each cut after any number of operations and followed by a reset, which
latches the mode that boots. `Inv` is what holds at every reset. Its central part is about torn entries (marker
written, confirmation erased), which a scan takes for free slots: a torn entry in a block that counts can only carry
the mode that the next call is going to write.

The number of entries, the confirmation offset and the codes are those of `src/Components/Core/flash/ucb_swap.h` and
`ucb_flash.h`.

## The frame rings

`frame_ring.dfy` is the ring that the CAN and the LIN receivers share: two indices with mirror bits that wrap when a
slot is asked for. `frame_store.dfy` is a ring for every channel with the bitmap and the drain call.
`can_device.dfy` and `lin_device.dfy` are state machines over runs of receive handlers, drain calls and, for LIN,
schedule and mode changes; `can_receiver.dfy` and `lin_receiver.dfy` are the code, on rings changed in place, proved
to take the steps of those machines from their start state. `lin_schedule.dfy` is the schedule table,
`lin_frames.dfy` the LIN slots in memory, `lin_rings.dfy` the LIN rings as queues, and `lin_start.dfy` holds the runs
from the start that break them. The eight
CAN receive handlers are one handler with the channel as a parameter. Capacities are those of
`src/Components/Driver/McmCan/can_device.h` and `src/Components/Driver/AscLin/asclin.h`.

## Loops that preserve meaning

`mpu_regions.dfy` (compaction of the MPU table, with region semantics as in section B3.5 of the ARMv7-M Architecture
Reference Manual), `startup_copy.dfy` (word loops with a byte tail against byte-wise copying) and
`page_packer.dfy` (bytes into little-endian words).

## Where the code departs from what is said about it

The model does what the code does.

* `legacy_excluded/ucb_swap.c:123` compares the loop index with FLASH_ERR_OK, where the comment beside it speaks of
  valid entries. Both scans are modelled (`AsWritten`, `AsDocumented`), and the protocol theorems hold for both. One
  result differs: that a completed call leaves one valid entry in COPY. Under the scan as written it holds exactly
  when the call did not start with several entries in a COPY that was at the target already while ORIG had room
  (`Recovery`), and a power failure leads there (`StaleEntriesArise`, `StandardFlash`).
* `legacy_excluded/ucb_flash.c:349` reports success whatever happened, so the retry of `set_swap_entry` and the retry
  count of `swap_bank` never take effect.
* `legacy_excluded/ucb_flash.c:343` counts pages and steps by two, so of several pages only the first half is
  written. All log writes are of one page; of the 16-byte confirmation code one page of two is written, and read back.
* `legacy_excluded/can_device.c:70-94`: a ring that was never read is not seen to be full. `CanDevice.StepExact` shows
  that this is the only deviation from a queue, `CanDevice.AllowedExactly` which runs avoid it, and `OldestLost`
  that it happens after 79 CAN messages, or 39 LIN frames.
* `legacy_excluded/asclin.c:217-230` with `609-633`: a response that the schedule rejects, in a slot that came with a
  wrap, is not taken back. `RejectedAfterStart` is a run in which the rejected frame is then handed to a drain call.
* `legacy_excluded/asclin.c:366-380` accepts schedule entries that announce more than eight bytes, and
  `legacy_excluded/asclin.c:478` copies as many as were announced into the eight of a slot. The rest is written over
  the following slots; `LongEntryReplaces` is a run in which that changes the oldest unread frame. `ShortRun` shows
  that it takes such an entry.

`LinRings.StepExact` shows that these three, the unseen full ring, the wrap that is not taken back and the long response over an
unread frame, are the only steps of the LIN receiver that do not act as on queues.

## Model

| member | source | states |
|---|---|---|
| SwapTheorems.CrashAtomicity | legacy_excluded/ucb_swap.c:207-422 | cut a call after any number of page programs and erases: some block boots, from a valid entry; the boot value is the old mode or the other one and never changes back; once it is the new mode, COPY holds it |
| SwapTheorems.InvariantOverRuns | legacy_excluded/ucb_swap.c:346-422 | the invariant survives any number of calls, each cut anywhere and followed by a reset, so every other theorem holds in every such run |
| SwapTheorems.FlashDiscipline | legacy_excluded/ucb_swap.c:207-269 | in every run, each page program hits an erased page, rewrites the same content, or writes all ones |
| SwapTheorems.Recovery | legacy_excluded/ucb_swap.c:353-419 | from every state of every run, an uninterrupted call succeeds within three turns; both blocks are confirmed alike and hold the other mode, ORIG in exactly one valid entry; COPY too, if and only if the scan is the documented one or no stale entries were left out of reach |
| SwapTheorems.ErasesExactly | legacy_excluded/ucb_swap.c:375-413 | over all operations of a call: a block is erased if and only if the blocks do not go together, the log of ORIG has sixteen used slots, or that of COPY has and lacks the new mode |
| SwapTheorems.AppendsAtFirstFree | legacy_excluded/ucb_swap.c:382-403 | a call that does not erase writes the entry, in numbers, into the first free slot of each log that lacks the new mode; elsewhere it changes at most the confirmation page of a valid entry below, to all ones, and it leaves both codes |
| SwapTheorems.RecoveryFromOrig | legacy_excluded/ucb_swap.c:360-404 | while ORIG boots, one working turn suffices, by append or by rewrite |
| SwapTheorems.RecoveryFromCopy | legacy_excluded/ucb_swap.c:176-181 | while COPY boots, ORIG is first rebuilt with the mode that boots, then both are swapped, leaving one valid entry in each |
| SwapTheorems.RepairKeepsBoot | legacy_excluded/ucb_swap.c:310-341 | rebuilding ORIG from COPY changes the boot value at none of its steps |
| SwapTheorems.AnyContent | legacy_excluded/ucb_swap.c:346-422 | for any log content at all, well shaped or not, a call succeeds if and only if some block is bootable, and then both blocks pass the scan with the new mode |
| SwapTheorems.SecondCallIdle | legacy_excluded/ucb_swap.c:361-373 | a call after a successful one and before a reset touches no page |
| SwapTheorems.SwapTwice | legacy_excluded/ucb_swap.c:346-422 | two calls with a reset after each restore the first boot value |
| SwapTheorems.StaleEntriesArise | legacy_excluded/ucb_swap.c:121-128 | with the scan as written, power failing after the two page writes of the append to COPY leads to a completed call with one more valid entry in COPY than there was |
| SwapTheorems.StandardFlash | legacy_excluded/ucb_swap.c:121-128 | a concrete flash content with the invariant from which that happens |
| SwapTheorems.EnableSota | legacy_excluded/ucb_swap.c:65-76 | from a blank, a torn or a complete entry 0 of ORIG, enabling SOTA establishes the invariant with the standard mode; an attempt cut after any page leaves a state from which it can be repeated, and every page program is disciplined |
| SwapSafety.GoodMeaning | legacy_excluded/ucb_swap.c:390-403 | what holds at every moment of a call: bootable, old or new mode, and COPY before ORIG |
| SwapSafety.InvalidateSafe | legacy_excluded/ucb_swap.c:207-230 | invalidating below the last used entry is safe at every step and changes nothing that boots |
| SwapSafety.SetEntrySafe | legacy_excluded/ucb_swap.c:232-269 | an append is safe at every step, in ORIG only when COPY already holds the value |
| SwapSafety.RewriteSafe | legacy_excluded/ucb_swap.c:280-298 | erasing and rewriting a block is safe at each of its four steps, under the condition that each half of the dual sequence meets |
| SwapSafety.DualSafe | legacy_excluded/ucb_swap.c:271-344 | the dual password sequence is safe at every step |
| SwapSafety.AppendTurnSafe | legacy_excluded/ucb_swap.c:382-403 | cleaning and appending to both logs is safe at every step |
| SwapSafety.TurnSafe | legacy_excluded/ucb_swap.c:353-413 | a turn of the loop is safe from every state that a call can reach |
| SwapSafety.LoopSafe | legacy_excluded/ucb_swap.c:346-422 | so is a whole call |
| SwapSafety.SafeMonotone | legacy_excluded/ucb_swap.c:390-403 | on a safe trace the boot value, once new, stays |
| SwapCall.AppendRoundTrip | legacy_excluded/ucb_swap.c:232-269 | after an append at a slot with no valid entry behind it, that slot is the only valid entry, reads back the value, and no other slot changed between blank and used |
| SwapCall.SweepLeaves | legacy_excluded/ucb_swap.c:215-228 | of a valid entry below the index the confirmation page becomes all ones and the marker page stays; every other slot stays |
| SwapCall.DoneExactly | legacy_excluded/ucb_swap.c:361-373 | the loop leaves with success if and only if both blocks have the same code and the new mode as latest value, under the documented scan in one valid entry each |
| SwapCall.LatchedModes | legacy_excluded/ucb_swap.c:149-159 | ADDRCFG 1 stands for 0x55, 2 for 0xAA, anything else for no mode |
| SwapCall.RefusedCall | legacy_excluded/ucb_swap.c:145-159 | without SOTA or a latched mode the call fails and touches nothing |
| SwapCall.CleanedLeavesOne | legacy_excluded/ucb_swap.c:382-388 | invalidating below the latest valid entry leaves that one untouched as the only valid entry |
| SwapCall.AppendTurnEffect | legacy_excluded/ucb_swap.c:382-403 | the interleaved operations on both logs have the effect of cleaning and appending to each log on its own, and leave both confirmation codes alone |
| SwapCall.DualEffect | legacy_excluded/ucb_swap.c:271-344 | whatever the blocks held, the dual sequence leaves fresh blocks: both with the new value, or ORIG with what COPY holds |
| SwapCall.TurnProgress | legacy_excluded/ucb_swap.c:353-419 | from any flash content, under either scan, each working turn decreases the measure (phase, blank slots, valid entries) |
| SwapCall.DualProgress | legacy_excluded/ucb_swap.c:406-413 | a full dual sequence is the last working turn; a repair is followed by a turn with ORIG booting |
| SwapProtocol.RewriteLeaves | legacy_excluded/ucb_swap.c:310-341 | the four operations leave a block with exactly one entry and the code, whatever it held, and do not touch the other block |
| SwapProtocol.BootRule | legacy_excluded/ucb_swap.c:165-192 | the boot block and whether the two blocks go together, from the two code words 0x57B5327F and 0x43211234 |
| SwapProtocol.CodeRoundTrip | legacy_excluded/ucb_flash.c:38-39 | the code page of each state, in numbers |
| SwapLog.EntryBoundToItsPlace | legacy_excluded/ucb_swap.c:96-103 | the bytes of a valid entry are valid at no other slot and in no other block |
| SwapLog.EntryExactly | legacy_excluded/ucb_swap.c:96-103 | a slot is valid with a mode if and only if it holds that mode, the address of its marker, 0x57B5327F and the address of its confirmation, all in numbers; it is blank if and only if one of its pages is erased |
| SwapLog.FlipMeaning | legacy_excluded/ucb_swap.c:357 | the new mode is the latched one with all bits of its low byte inverted |
| SwapLog.DocumentedScanMeaning | legacy_excluded/ucb_swap.c:110-135 | the documented scan finds the number of valid entries, the latest one with its value, and the first blank slot after it, on any log |
| SwapLog.WrittenScanMeaning | legacy_excluded/ucb_swap.c:121-134 | the scan as written finds the same value, but one entry at index 0 and the first blank slot of the log, on any log |
| SwapLog.ScanRefinement | legacy_excluded/ucb_swap.c:110-135 | on a log of a used prefix, perhaps a torn slot, and erased slots, both scans agree on value and next index, and on all that `swap_bank` observes if and only if exactly one entry is valid |
| SwapLog.LatestIsLastUsed | legacy_excluded/ucb_swap.c:376-379 | on such a log the value that boots is in the last used slot |
| UcbDriver.Driver.SwapBank | legacy_excluded/ucb_swap.c:346-422 | from any flash content the call ends; it programs and erases exactly the protocol's pages in order, and succeeds if and only if the protocol does |
| UcbDriver.Driver.ActOn | legacy_excluded/ucb_swap.c:375-413 | the working part of a turn performs the operations of the protocol's turn |
| UcbDriver.Driver.AppendWhereMissing | legacy_excluded/ucb_swap.c:382-403 | both logs are cleaned, then the value is appended where missing, COPY before ORIG |
| UcbDriver.Driver.SwapDualPasswordSequence | legacy_excluded/ucb_swap.c:271-344 | performs the operations of the dual sequence from either reference block |
| UcbDriver.Driver.FirstHalf | legacy_excluded/ucb_swap.c:279-308 | leaves COPY fresh with the new value, ORIG untouched, and the state that the second half relies on |
| UcbDriver.Driver.SecondHalf | legacy_excluded/ucb_swap.c:310-341 | rebuilds ORIG from what the scan of COPY found |
| UcbDriver.Driver.SetSwapEntry | legacy_excluded/ucb_swap.c:232-269 | marker, confirmation, then the sweep below, for every index of the log; for any other index every page program that results, and no entry of the block stays valid |
| UcbDriver.Driver.TestAndSetSota | legacy_excluded/ucb_swap.c:65-76 | nothing when SOTA is enabled; else the two pages of entry 0 of ORIG, and after them the page that enables SOTA |
| UcbDriver.Driver.InvalidateSwapEntry | legacy_excluded/ucb_swap.c:207-230 | exactly the valid entries below the index are over-programmed, each once; an index behind the log sweeps the whole log and what looks like an entry behind it, also where the offset wraps around, with the trace of all programs |
| UcbDriver.Driver.GetSwapState | legacy_excluded/ucb_swap.c:137-205 | succeeds if and only if SOTA is enabled, a mode is latched and some block boots, and then describes both blocks |
| UcbDriver.Driver.GetSwapBlockInfo | legacy_excluded/ucb_swap.c:110-135 | reports what the scan of that block's pages is |
| UcbDriver.Driver.GetSwapBlockEntry | legacy_excluded/ucb_swap.c:78-108 | OK with the value for a valid entry, ERASED if either page is, N_OK otherwise; for an index outside the sector never OK, unless its offset wraps around to a valid entry |
| UcbDriver.Driver.UcbReadConfirmation | legacy_excluded/ucb_flash.c:252-289 | the confirmation state of the block, errored when its page is erased |
| UcbDriver.Driver.UcbWriteConfirmation | legacy_excluded/ucb_flash.c:363-378 | for a good state one page program, which reads back as that state; for an errored one no write and an error |
| UcbDriver.Driver.UcbErase | legacy_excluded/ucb_flash.c:352-361 | every page of the sector is erased, the other sector is untouched |
| UcbDriver.Driver.UcbRead | legacy_excluded/ucb_flash.c:230-250 | within a sector: the status of the range, and on OK the words at those very addresses, whatever the address map; an erased range gives all ones; a range that leaves the sector is refused, and no error touches the buffer |
| UcbDriver.Driver.UcbWrite | legacy_excluded/ucb_flash.c:314-350 | reports success always; writes the first half of the pages when aligned and accepted by the 32-bit checks, nothing otherwise; within a sector these are its consecutive pages |
| UcbDriver.Driver.WriteDflash | legacy_excluded/ucb_flash.c:291-312 | the page at the address, and no other page of the two sectors, gets the two words; a program elsewhere is recorded with its address |
| UcbSectors.HalfWritten | legacy_excluded/ucb_flash.c:342-347 | of the 16-byte confirmation pattern one page program reaches the flash |
| UcbSectors.ProgramPage | legacy_excluded/ucb_swap.c:245-257 | a page of the sector at the entry's offset is that entry's marker or confirmation, and no other entry changes |
| UcbSectors.PokeReadsBack | legacy_excluded/ucb_flash.c:291-312 | a programmed page reads back its two words at its two addresses, and no other page changes |
| UcbSectors.SectorAddresses | legacy_excluded/ucb_swap.c:34-45 | the two sectors and the addresses of their confirmation codes, in numbers |
| UcbSectors.PokedInside | legacy_excluded/ucb_flash.c:342-347 | writing from an address of the sector on, page after page, is writing consecutive pages of that sector, and leaves the other one alone |
| UcbSectors.SweptAll | legacy_excluded/ucb_swap.c:215-228 | after a sweep of the whole log none of its entries is valid |
| UcbSectors.EntryMeaning | legacy_excluded/ucb_swap.c:78-108 | the checks of an entry on the words at its addresses report what the protocol reads in its two pages |
| UcbSectors.EntryBytes | legacy_excluded/ucb_swap.c:86-94 | the sixteen bytes of an entry read back as its two pages, and read as erased when either is |
| FlashRead.RangeStatusMeaning | legacy_excluded/ucb_flash.c:123-156 | for a positive length without wrap-around: OK if and only if every overlapping page is programmed, else the status of the first overlapping page that is not |
| FlashRead.UncachedMeaning | legacy_excluded/ucb_flash.c:132 | the uncached alias has bits 29 and 31 set and all other bits as they were |
| FlashRead.PageSizeMeaning | legacy_excluded/ucb_flash.c:133-139 | pages of 8 bytes exactly where the first byte of the address has all bits of 0xAF, of 32 bytes elsewhere |
| FlashRead.VerifyErasedRange | legacy_excluded/ucb_flash.c:123-156 | the page loop reports the status of the range, with 32-bit wrap-around and any length |
| FlashRead.Read | legacy_excluded/ucb_flash.c:206-228 | an erased range fills the buffer, a programmed one is copied from the mapped address, an error leaves the buffer as it was |
| SwapAddress.SwapInvolution | legacy_excluded/ucb_flash.c:187-204 | for any table of disjoint ranges paired by inverse offsets, first match plus offset modulo 2^32 is its own inverse on all addresses and stays inside the table |
| SwapAddress.SwapMeaning | legacy_excluded/ucb_flash.c:174-200 | an address in a row moves by the offset of that row modulo 2^32, into a row of the table, and really moves unless the offset is 0; an address in no row stays |
| SwapAddress.DevicesInNumbers | legacy_excluded/ucb_flash.c:42-89 | for each chip identifier: which ranges change places and by how much; none for an unknown one |
| SwapAddress.KnownTablesPaired | legacy_excluded/ucb_flash.c:42-72 | all five tables are such tables |
| SwapAddress.DeviceMap | legacy_excluded/ucb_flash.c:158-204 | for every chip identifier, known or not, the map is its own inverse, and UCB and DFLASH addresses are fixed points |
| SwapAddress.FindTable | legacy_excluded/ucb_flash.c:164-170 | the table of the first device whose masked identifier matches, or none |
| SwapAddress.GetSwapOffsetCfg | legacy_excluded/ucb_flash.c:158-185 | the first row that covers the address, or none |
| SwapAddress.GetSwapAddr | legacy_excluded/ucb_flash.c:187-204 | with SOTA enabled and the alternate map active, the address plus the offset of its row, or the address itself when no row has it; in the other three cases the address itself |
| FrameRings.StatusMeaning | legacy_excluded/can_device.c:70-79 | EMPTY if and only if no frame is queued; FULL if and only if the ring is full and was read before |
| FrameRings.PutRefines | legacy_excluded/can_device.c:81-102 | a commit is an append to a queue of capacity N-1, or leaves a full one alone, if and only if the ring is not full and unseen; there it replaces the oldest frame |
| FrameRings.TakeRefines | legacy_excluded/can_device.c:104-125 | a take hands out and removes the head of the queue, and does nothing on an empty one |
| FrameRings.PutExact | legacy_excluded/asclin.c:217-238 | a commit leaves the longer queue if and only if the ring held the shorter one before and was not full and unseen |
| FrameRings.DiscardExact | legacy_excluded/asclin.c:217-230 | a slot obtained and not committed leaves the queue as it was if and only if no wrap was pending or the ring was full |
| FrameRings.DiscardHidesEmpty | legacy_excluded/asclin.c:206-230 | otherwise an empty ring no longer reads EMPTY and hands out the frame that was never committed |
| FrameStores.SparedRepresents | legacy_excluded/asclin.c:474-479 | rings whose slots were written over hold the same queues if and only if no unread frame changed |
| FrameStores.CommitRepresents | legacy_excluded/can_device.c:81-102 | on any number of rings with a bitmap: a commit appends to the queue of its channel and sets its bit, if and only if the ring is not full and unseen and no unread frame was written over |
| FrameStores.DrainRepresents | legacy_excluded/can_device.c:43-68 | a drain call removes the head of every non-empty queue, touches no other, clears exactly the bits of the queues that become empty, and counts what it takes |
| FrameStores.SendsFront | legacy_excluded/can_device.c:52-64 | what it sends for a channel is the head of its queue |
| FrameStores.FrameStore.GetNext | legacy_excluded/can_device.c:81-94 | no slot when FULL, else a slot below N-1, after a pending wrap; no other ring changes |
| FrameStores.FrameStore.FillSlot | legacy_excluded/asclin.c:645-668 | the slot that was obtained is filled, and committed exactly when it is wanted |
| FrameStores.FrameStore.WriteDone | legacy_excluded/can_device.c:97-102 | one position further, without a wrap, and the bit of the channel set |
| FrameStores.FrameStore.PutNext | legacy_excluded/can_device.c:104-117 | no slot when EMPTY, else the slot of the oldest frame, after a pending wrap; no other ring changes |
| FrameStores.FrameStore.ReadDone | legacy_excluded/can_device.c:119-125 | one position further, and the bit cleared exactly when the ring is empty then |
| FrameStores.FrameStore.TakeFront | legacy_excluded/can_device.c:53-64 | one channel's part of a drain call: the front frame is handed out and counted |
| CanDevice.StepExact | legacy_excluded/can_device.c:43-125 | a handler or drain step on eight rings and the bitmap is a step of eight queues if and only if it is not a handler on a full and unseen ring; the payload is the head of each non-empty queue |
| CanDevice.RunRefines | legacy_excluded/can_device.c:43-125 | over every run of allowed steps the rings are queues, bit ch is set exactly when queue ch has frames, and the payloads agree |
| CanDevice.AllowedExactly | legacy_excluded/can_device.c:70-94 | which runs are allowed, from the events alone: exactly those in which each channel was read before, or gets no message while 79 wait before its first read |
| CanDevice.FrameLeaves | legacy_excluded/can_device.c:43-68 | a frame at depth k of a ring is in the payload of the (k+1)-th drain call, whatever arrives in between |
| CanDevice.MessageLeaves | legacy_excluded/can_device.c:52-64 | a message received while k frames wait is in the payload of the (k+1)-th drain call: channel, mode, data length code, identifier, and its first bytes, 0 to 8, 12, 16, 20, 24, 32, 48 or 64 of them as the code says |
| CanDevice.FifoOrder | legacy_excluded/can_device.c:43-125 | for each ring over every allowed run: waiting and accepted frames are the sent and still waiting ones, in order, none twice, none lost |
| CanDevice.FrameConservation | legacy_excluded/can_device.c:52-65 | after any allowed run from the start, the counters sum to frames sent plus frames in the rings |
| CanDevice.CountedOrDropped | legacy_excluded/mcmcan_Interface.c:438-461 | per channel, counted plus dropped is received, in every run, allowed or not |
| CanDevice.OldestLost | legacy_excluded/can_device.c:70-94 | 79 messages before the first drain reach the excluded state: the next one is counted, not dropped, and the oldest frame is no longer at the front |
| CanReceiver.Receiver.constructor | legacy_excluded/can_device.c:25-27 | the start state: eight empty rings of 80, nothing counted, dropped or sent |
| CanReceiver.Receiver.RxHandler | legacy_excluded/mcmcan_Interface.c:438-461 | the handler takes the receive step and changes only its own ring |
| CanReceiver.Receiver.GetCanFrame | legacy_excluded/can_device.c:43-68 | takes the drain step, false exactly when no bit was set; for each channel whose bit was set the payload has the fields and the first bytes of its front frame, for the others nothing |
| LinDevice.Pairing | legacy_excluded/asclin.c:582-723 | over every sequence of interrupts, drains, schedule and mode changes on any channels, each committed frame carries the channel and 6-bit identifier of that channel's latest header, and nothing else was committed for that header |
| LinDevice.HeaderMeaning | legacy_excluded/asclin.c:533-601 | a header makes the low six bits of its byte pending and sets the expected length: 8 for a slave without schedule or entry, that of a receive entry, else as it was, for a master always |
| LinDevice.PendingExactly | legacy_excluded/asclin.c:697-723 | a header is pending after an interrupt if and only if one was or came and no response was handled; a header that the channel answers itself takes the response flag away |
| LinDevice.CommittedMeaning | legacy_excluded/asclin.c:641-670 | a committed frame has its channel, the pending identifier, direction 4 of a slave or 2 of a master, the expected length, the bytes of the response in order, and behind them what its slot held |
| LinDevice.ResponseSlot | legacy_excluded/asclin.c:474-479 | the slot of a response, committed or not, holds its bytes in order |
| LinFrames.SpillElsewhere | legacy_excluded/asclin.c:474-479 | a response with n bytes too many changes only the next n / 12 slots, rounded up |
| LinFrames.DataMeaning | legacy_excluded/asclin.c:478 | the first bytes of the data are those of the response, and the others stay |
| LinFrames.BehindMeaning | legacy_excluded/asclin.c:478 | what does not fit is the response from its ninth byte on |
| LinFrames.OverwrittenMeaning | legacy_excluded/asclin.c:478 | a slot that is written over has these bytes first and its own behind them, in memory order |
| LinFrames.SpillReaches | legacy_excluded/asclin.c:478 | the m-th slot reached is written over with the bytes from 12 m on |
| LinDevice.CounterCounts | legacy_excluded/asclin.c:609-670 | a channel's frame counter is the number of its commits, in every run |
| LinDevice.ScheduleDecides | legacy_excluded/asclin.c:533-633 | the oldest entry for channel and identifier decides the expected length at the header and whether a frame is committed and with which length; in between, other channels, their modes, drains, and all table changes that leave this entry the oldest of its key |
| LinRings.RespondExact | legacy_excluded/asclin.c:641-670 | a response does to the rings what it should if and only if its bytes beyond eight spare the unread frames, no commit meets a full and unseen ring, and no rejected frame meets a pending wrap |
| LinRings.LostExactly | legacy_excluded/asclin.c:641-670 | a response that the schedule wants is lost if and only if 39 frames wait in a ring that was read before; one that it does not want, always |
| LinRings.StepExact | legacy_excluded/asclin.c:179-261 | a step of the rings is a step of the queues if and only if it is allowed in that sense |
| LinRings.RestSpares | legacy_excluded/asclin.c:474-479 | a response of at most eight bytes changes its slot only; a longer one spares the unread frames, whatever its bytes are, when none lies in the slots that it reaches |
| LinRings.ShortRun | legacy_excluded/asclin.c:533-574 | in every run whose added receive entries announce at most eight bytes, every expected response has at most eight |
| LinRings.ShortAllowed | legacy_excluded/asclin.c:641-670 | then what is allowed depends on the indices and the schedule only |
| LinRings.ShortQueues | legacy_excluded/asclin.c:188-200 | and every queued frame is one whose data the drain sends completely |
| LinRings.RunRefines | legacy_excluded/asclin.c:179-261 | over every run of allowed steps the rings are queues of the committed frames and the bitmap shows which have frames |
| LinRings.AllowedExactly | legacy_excluded/asclin.c:206-230 | without schedule mode, which runs are allowed, from the events alone: exactly those in which each channel was read before, or gets no response to a header while 39 frames wait before its first read |
| LinRings.FifoOrder | legacy_excluded/asclin.c:179-261 | for each ring over every allowed run: waiting and committed frames are the sent and still waiting ones, in order, none twice, none lost |
| LinRings.FrameLeaves | legacy_excluded/asclin.c:179-204 | a frame at depth k of a ring is in the payload of the (k+1)-th drain call, whatever arrives in between |
| LinRings.ResponseLeaves | legacy_excluded/asclin.c:179-204 | a frame committed while k frames wait is in the payload of the (k+1)-th drain call, field by field and with as many bytes as it announces |
| LinRings.FrameConservation | legacy_excluded/asclin.c:188-201 | after any allowed run from the start, the frame counters sum to frames sent plus frames in the rings |
| LinStart.OldestLost | legacy_excluded/asclin.c:206-230 | 39 header and response pairs before the first drain: the next frame is counted, and takes the place of the oldest one at the front |
| LinStart.RejectedFrameSent | legacy_excluded/asclin.c:609-633 | with one frame queued and a wrap pending, a response that the schedule rejects is the frame that the second drain call after it sends |
| LinStart.RejectedAfterStart | legacy_excluded/asclin.c:609-633 | that happens in a run from the start: 38 frames received and read, one more received, the channel put into schedule mode, a header without an entry, its response, two drain calls; what is sent has the bytes of the rejected response |
| LinStart.LongResponse | legacy_excluded/asclin.c:474-479 | a committed response of more than eight bytes, with the oldest unread frame in the next slot, is sent after that frame was written over with its rest |
| LinStart.LongEntryReplaces | legacy_excluded/asclin.c:292-311 | that happens in a run from the start, with any accepted receive entry that announces more than eight bytes; byte k of the frame sent is byte 8 + k of the response |
| LinSchedule.FirstMatchIsOldest | legacy_excluded/asclin.c:539-567 | the search finds the oldest entry for channel and identifier |
| LinSchedule.AddIsAppend | legacy_excluded/asclin.c:292-311 | adding puts an entry last for its key, duplicates allowed, and changes no other key |
| LinSchedule.DeleteIsPop | legacy_excluded/asclin.c:318-334 | deleting removes the oldest entry of the key only, and fails if and only if there is none |
| LinReceiver.RemoveFirst | legacy_excluded/asclin.c:318-334 | the search loop deletes the first match and keeps the order of the rest |
| LinReceiver.Receiver.constructor | legacy_excluded/asclin.c:23-28 | the start state: sixteen empty rings of 40, nothing pending, counted, scheduled or sent |
| LinReceiver.Receiver.Configure | legacy_excluded/asclin.c:732-741 | a mode change sets the modes of its channel and an expected length of 8, and nothing else |
| LinReceiver.Receiver.AddSchedule | legacy_excluded/asclin.c:893-912 | accepted if and only if the channel is a slave and the identifier has six bits; then the table grows at its end |
| LinReceiver.Receiver.DeleteSchedule | legacy_excluded/asclin.c:893-921 | succeeds if and only if it is accepted and the key has an entry |
| LinReceiver.Receiver.ProcessHeader | legacy_excluded/asclin.c:582-601 | the header's effect on its channel alone |
| LinReceiver.Receiver.WriteBehind | legacy_excluded/asclin.c:474-479 | what does not fit the slot is written over the following slots, twelve bytes each, ring after ring, and nothing else changes |
| LinReceiver.Receiver.ProcessResponse | legacy_excluded/asclin.c:641-670 | the response's effect on its channel, its bit set exactly on a commit, and on the slots behind its own; its slot holds the bytes of the response in order |
| LinReceiver.Receiver.ProcessLinFrame | legacy_excluded/asclin.c:697-723 | the interrupt routine takes the interrupt step |
| LinReceiver.Receiver.GetLinFrame | legacy_excluded/asclin.c:179-204 | takes the drain step, false exactly when no bit was set; for each channel whose bit was set the payload has the fields and the announced bytes of its front frame, for the others nothing |
| MpuRegions.CompactKeepsWinner | Project_Settings/Startup_Code/system.c:685-695 | leaving out disabled rows and renumbering keeps, on every address, the attributes of the highest-numbered matching row |
| MpuRegions.CompactionPreservesMeaning | Project_Settings/Startup_Code/system.c:685-695 | so the programmed regions mean what the table means, when the regions behind them were disabled |
| MpuRegions.FieldsMeaning | Project_Settings/Startup_Code/system.c:688-692 | bit 0 of RASR keeps a row; the other fields of the two registers, in numbers |
| MpuRegions.PlacedExactly | Project_Settings/Startup_Code/system.c:685-695 | with all regions disabled before, the enabled rows become the first regions in order if and only if each names no region or its own |
| MpuRegions.AlignedNamesItsOwn | Project_Settings/Startup_Code/system.c:685-695 | any table of base addresses that are multiples of 32 is such a table |
| MpuRegions.NamedRegionReplaces | Project_Settings/Startup_Code/system.c:690-692 | a second row that names the region of the first one takes away the attributes of the first |
| MpuRegions.Mpu.WriteRegion | Project_Settings/Startup_Code/system.c:690-692 | the three register writes set one region and no other: the selected one, or the one that the base address names |
| MpuRegions.Mpu.ProgramTable | Project_Settings/Startup_Code/system.c:685-695 | for every table: each enabled row ends in the region that it reaches; when rows name no other region, the enabled rows are the first regions in order and the others are as they were |
| StartupCopy.InitialisedSections | Project_Settings/Startup_Code/startup.c:109-131 | for any layout in which no RAM section overlaps another one or its ROM image, every initialised section ends byte-identical to its ROM image; a section that stays in place included |
| StartupCopy.ZeroSections | Project_Settings/Startup_Code/startup.c:133-152 | every zero section ends zero, with at most three bytes behind it |
| StartupCopy.RestOfMemory | Project_Settings/Startup_Code/startup.c:109-152 | no other byte changes |
| StartupCopy.BytewiseInside | Project_Settings/Startup_Code/startup.c:119-130 | copying byte by byte moves every byte, unless the destination begins inside the source |
| StartupCopy.CopyWords | Project_Settings/Startup_Code/startup.c:119-130 | the word loop and the byte loop together are ascending byte-wise copying, for sections that overlap too |
| StartupCopy.CopyOne | Project_Settings/Startup_Code/startup.c:113-131 | so is a section of any size, multiple of four or not |
| StartupCopy.ZeroOne | Project_Settings/Startup_Code/startup.c:137-152 | exactly the words that cover the section are cleared |
| StartupCopy.InitDataBss | Project_Settings/Startup_Code/startup.c:92-153 | the loops over both tables are byte-wise copying and clearing in table order |
| PagePacker.LoadPage | legacy_excluded/flash.c:146-181 | for any page length, the loads decode to the page's bytes padded with zeros to a multiple of eight; their words are these bytes as little-endian numbers; the first load is at the start, each next one eight further, no two at the same address |
| PagePacker.PackGroup | legacy_excluded/flash.c:148-177 | in every case of one to eight remaining bytes, the two words are the little-endian bytes continued with zeros |

## Left out

- SwapTheorems.FlashDiscipline: says nothing of programs into a block's passwords, because their copying is commented out in the source; `UcbErase` erases them.
- FlashRead.RangeStatusMeaning: lengths that wrap around at 2^32, and length 0, are covered by `VerifyErasedRange` only.
- UcbDriver.Driver.UcbRead: the content of flash outside the two sectors is not modelled; its pages have the status N_OK.
- LinRings.AllowedExactly: for runs with schedule mode, `StepExact` decides one step at a time.
- MpuRegions.CompactionPreservesMeaning: the privileged default map is not modelled.
- StartupCopy.InitDataBss: addresses index one memory of bytes; pointers to words are not one to three bytes apart; pointer wrap-around is not modelled, and `init_data_bss_core2` is not part of this model.
- LinFrames.Spill: what is written behind the last ring, and by the LIN library behind its response buffer, is not modelled; the bytes that a response takes from behind that buffer are a parameter.
- LinFrames.Pack: for a frame that announces more than eight bytes, the bytes that the drain copies beyond its slot and its payload element are not modelled; `ShortQueues` shows when there is none.
- LinDevice.Step: requests of a LIN master, whose expected length the LIN library sets, are not part of this model.
- CanDevice.Receive: message contents are parameters; payload bytes behind the data length are not modelled.
- ECC faults and half-programmed pages: a page program and a sector erase are atomic, and over-programming replaces the content of a page.
- The page check of `verify_erased_page`: its status registers are a parameter that gives each page a status.
- Watchdog passwords, interrupt disabling, cache and pipeline barriers, waiting for the flash, and code relocation.
- Interleavings inside a handler or a drain call: each is atomic. The eager wrap makes the EMPTY and FULL tests inexact in the middle of one.
- Wrap-around of the diagnostic counters at 2^32: they are unbounded numbers.
- The LIN arrays that are indexed by channel are one record per channel; the schedule list is a sequence, and running out of heap when an entry is added is not modelled.
- Erasing and the write command of `legacy_excluded/flash.c`, device registration, logging, configuration commands, UDP transport, `src/main.c`, the RTD headers: not part of this model.
