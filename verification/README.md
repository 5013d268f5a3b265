# x86emu: a verified model of the machine

x86emu is an x86 PC emulator. This project models the parts of it whose correctness is hardest to see from the
code, and proves what they promise.

- **Address translation.** `Paging` holds the three table walkers, `Mmu` the translation of one access with its
  direct-mapped TLB, permission checks, faults and accessed/dirty write-back, `Operands` the accesses that straddle
  two pages, `Fetch` the instruction-fetch cursor. `Boot` fills the identity map that a long-mode guest starts on.
  Each fast form is proved against a simple one: the machine that walks the tables on every access, the operand
  taken byte by byte, the stream translated byte by byte.
- **Restartable execution.** `Strings` and `ReadModifyWrite` hold the instructions that can fault in the middle;
  `Interrupts` holds delivery and return. Their theorems are about whole runs: fault, repair, restart; entry, work
  and return, nested to any depth.
- **Devices.** The virtio block device over a split virtqueue, the cascaded pair of 8259 interrupt controllers, and
  the real-time clock.
- **Arithmetic with real bounds.** Carries without a wider type, shifts and rotates at four widths, 65-bit rotates
  through carry, double-width multiply and divide, the 80-bit conversions and the FXSAVE image.

State that the program updates in place is updated in place here: `Store.PhysicalMemory` is the RAM buffer,
`CpuCore.Cpu` the processor, `Pic.Controller`, `Calendar.Cmos`, `VirtioDevice.VirtioBlk` and `Fxsave.Unit` the devices
and the SSE state. Their methods are proved to leave exactly the state that a function gives, and the laws are proved
about those functions.

The fast forms and the whole runs are proved against the functions that each step computes. What those functions mean is
told independently of them, in bits, bytes and addresses: `WalkMeaning` and `AccessMeaning` from the entries of the page
tables, `DeliveryMeaning` from the gate, the descriptor and the task-state segment, `StringMeaning` by element number,
`AluMeaning`, `ShiftMeaning` and `ProcessorMeaning` flag by flag and register by register, and for the devices the
chains of `VirtioBlocks`, the recorded requests of `Pic` and the registers of `Calendar`.

`D` in a statement is a set of physical addresses that no page walk reads: the data of the machine, as opposed to its
page tables. `A` is a set of linear addresses, and `T` gives each its home: a byte of a memory that holds the whole run,
pages present or not, which the machine shows wherever its page tables put it (`LinearView`). Words are `int` subset types, and every wrap-around is written out. EFLAGS is a sequence of 32 booleans.

## Where the code falls short of the general statement

- A wide access in the VGA text window is its bytes only at an even address from which no part of it leaves the window
  behind (`TextWindow.CleanAccess`); everywhere else it returns or clears a whole cell, or the RAM behind the window
  (`TextWindow.TornLoad`, `TextWindow.TornStore`).
- A wide access that runs past the end of low RAM on a machine with RAM above 4 GiB goes on in that RAM instead of
  meeting an open bus (`Memory.AcrossTheHole`, `Memory.WideQuirk`).
- In 32-bit mode the gate's selector is loaded as it stands, RPL included. The stack is switched on the way in by
  comparing the target's DPL, and on the way out by comparing two RPLs. When the two disagree the return does not
  restore the interrupted context, but for a coincidence (`Nesting.NestedRestores`, `Nesting.ReturnInverts`); two
  machines where it does not are in `GateExamples`.
- At eight bits OF is always clear, so signed conditions after CMP decide the order exactly when the difference fits in
  eight bits (`Alu.CompareDecides`).
- The accessed bit of a 4-byte entry can be a frame bit of an 8-byte one, so marking in a narrow paging mode can move
  frames of a wide one that shares the tables (`WalkStability.NarrowMarksMoveFrames`); a memory on which a page moves is
  in `NarrowExample`.
- A MOVS whose source straddles two pages and whose destination does not has overwritten the destination element with
  zero when the second source page faults (`StringRestart.MovsFault`). The restart is still transparent unless the zeros
  take nonzero source bytes with them, and then the source does read differently (`StringRestart.SourceSurvives`).
- CMPS and SCAS read a straddling operand from consecutive physical bytes, which are its own only when its second page
  follows the first in memory (`StringRestart.ComparedBytes`). So the restart theorem asks that the operands of CMPS and
  SCAS do not straddle; those of MOVS, STOS and LODS may.
- The conversion from 80 bits to a double rounds to nearest in the normal range, but drops the bits below it when the
  result is denormal or zero (`Extended.ConversionRounds`), and makes a zero significand with a large exponent a power
  of two (`Extended.OthersConvert`).

## Model

| member | source | states |
|---|---|---|
| Memory.AddressMap | src/memory.rs:158-322 | byte i of RAM answers at i below 3 GiB and at i + 1 GiB from there on; nothing answers anywhere else, where reads give 0xFF; a store changes the byte at its address and no other |
| Memory.WideReads | src/memory.rs:287-299 | a 16-, 32- or 64-bit read that stays inside one region of RAM, or misses RAM, is its bytes in little-endian order, each unbacked one 0xFF |
| Memory.WideWrite | src/memory.rs:384-397 | likewise a wide store is its bytes stored in order, and bytes with no RAM behind them are swallowed |
| Memory.AcrossTheHole | src/memory.rs:233-400 | across the end of low RAM a wide read or store continues in the RAM at 4 GiB: which bytes it reads and which it stores, for all three widths |
| Memory.WideQuirk | src/memory.rs:233-400 | so the restriction is exact: wherever it fails, and at every width, there is RAM on which the wide read differs from its bytes, and a wide store that does |
| TextWindow.ByteMap | src/memory.rs:184-322 | the window is 0xB8000-0xBFFFF, characters at the even bytes and attributes at the odd; a store changes its own byte alone, in the window and outside |
| TextWindow.CleanAccess | src/memory.rs:211-400 | with the text window in front of RAM, every wide load and store that is clear of the window, or even-aligned and not leaving it, is its bytes in order |
| TextWindow.TornLoad | src/memory.rs:233-298 | every other wide load is not its bytes on some machine: an odd address returns a whole cell, the end of the window returns the RAM behind it |
| TextWindow.TornStore | src/memory.rs:324-400 | every other wide store is not its bytes on some machine |
| TextWindow.Outside | src/memory.rs:233-400 | an access that does not touch the window is the access to RAM |
| TextWindow.SystemBus.ReadQword | src/memory.rs:281-298 | with the window in front of the buffer, the 64-bit read routes to window or RAM as `TextWindow.LoadU64` does |
| TextWindow.SystemBus.WriteQword | src/memory.rs:377-400 | the in-place 64-bit store, through its 32- and 16-bit halves, leaves window and RAM as `TextWindow.StoreWide` does |
| Store.PhysicalMemory.WithSize | src/memory.rs:119-135 | RAM of at least 1 MiB in whole pages, all zero, and 0xFF where there is none |
| Store.PhysicalMemory.LoadU64 | src/memory.rs:287-299 | past the window test, the method over the buffer returns the specified 64-bit read |
| Store.PhysicalMemory.StoreBytes | src/memory.rs:384-397 | past the window test, the in-place store leaves the specified memory, byte loop and straight-line path alike |
| WalkMeaning.WalkMeans | src/paging.rs:98-269 | for every mode, from the bytes of the tables level by level: a translation exists exactly if each entry down to the leaf is present; it is the leaf's frame bits (51:12, 51:21, 51:30, or 31:12, 31:22 in legacy mode) plus the offset; W and U hold exactly if set in every entry that bears rights, X unless one of those has NX and EFER.NXE is on |
| WalkMeaning.WalkExists | src/paging.rs:98-269 | every address in every mode has such a list of entries, so the statement is about all translations |
| AccessMeaning.AccessMeans | src/cpu.rs:1339-1513 | one access, TLB or not, from those entries: a non-canonical address raises a general-protection fault; an absent entry, NX on a fetch, a missing U in ring 3, a missing W on a store in ring 3 or under CR0.WP raise a page fault with the address in CR2 and each bit of the code as stated; any other access finds the leaf's frame plus the offset, turns the accessed bit on in every entry and, for a store, the dirty bit in the leaf, and changes no other bit of memory |
| WalkStability.WalkStable | src/cpu.rs:1498-1513 | setting the accessed and dirty bits of one translation changes no translation through any root, in any paging mode whose entries are no wider, self-mapped tables included, and doing it twice is doing it once |
| WalkStability.TranslateStable | src/paging.rs:98-269 | on memories that differ only in accessed and dirty bits all three walkers return the same mapping and read the same entries |
| WalkStability.SetAccessedMarks | src/cpu.rs:1498-1513 | afterwards every level is accessed and the leaf dirty for a store; bits only turn on, only in the entries of the walk, and marking what is marked changes nothing |
| WalkStability.SetAccessedExactly | src/cpu.rs:1498-1513 | at every address exactly which bits turn on: accessed in the entries of the walk, dirty in its leaf for a store |
| WalkStability.NarrowMarksMoveFrames | src/cpu.rs:1498-1513 | marking a 4-byte entry that is the upper half of an 8-byte one moves the frame the 8-byte entry names, so the width condition is needed |
| NarrowExample.MarkingMovesPage | src/cpu.rs:1498-1513 | a concrete memory on which the accessed bits of one legacy walk move a 4 KiB page of a PAE address space |
| PageTables.WalkFrame | src/paging.rs:98-269 | a walk depends on nothing but the entries it reads |
| PageUniform.OffsetRidesAlong | src/paging.rs:98-269 | in every mode and for every page size, translating an address is translating its 4 KiB page and adding the offset, with the same entries and permissions, which is what lets the TLB hold 4 KiB slots |
| TlbRefinement.AccessRefines | src/cpu.rs:1339-1394 | one access, hit or miss, gives the physical address, fault, error code, CR2 and memory of the machine without a TLB, and keeps the invariant that live slots agree with the walk and its marks |
| TlbRuns.RunRefines | src/cpu.rs:1260-1277 | over every run of loads, stores, fetches, INVLPG, control-register and EFER writes in which no access is answered from a stale slot, the machine sees and leaves what the one without a TLB does; edits may be invalidated late, many at once, or by a reload of CR3 |
| TlbRuns.StartsClean | src/cpu.rs:1260-1277 | from a flushed TLB nothing is stale, so the refinement holds from there |
| StaleSlots.EditLeaves | src/cpu.rs:1270-1277 | a change of memory makes at most those slots stale whose page's translation or marks it disturbed |
| StaleSlots.UntouchedIsUndisturbed | src/cpu.rs:1339-1394 | a store outside the entries of a page's walk does not disturb it |
| StaleSlots.SpareBitsKeepMeaning | src/paging.rs:98-269 | nor does changing only the bits an entry leaves to software or caching |
| StaleSlots.QuietChange | src/cpu.rs:1552-1558 | changing EFER.NXE without a flush leaves right every slot but those whose execute permission it changes |
| AddressSpace.AccessKeepsData | src/cpu.rs:1339-1394 | translation, with its accessed and dirty updates, leaves every byte of data as it was |
| SplitAccess.LoadIsBytewise | src/cpu.rs:1222-1240 | a load returns byte i from wherever linear + i translates to, on whatever pages, and faults exactly when one of them cannot be reached |
| SplitAccess.StoreIsBytewise | src/cpu.rs:1242-1257 | a store puts byte i where linear + i translates to, or on a fault of either page stores no byte |
| SplitAccess.FaultCommitsNothing | src/cpu.rs:1936-1977 | a fault on either page leaves all data memory as it was |
| SplitAccess.StoreThenLoad | src/cpu.rs:1936-1977 | a load of the operand just stored returns the value, aliased pages included |
| Fetch.WideFetches | src/cpu.rs:1682-1697 | the 32- and 64-bit fetches are single-byte fetches, cursor included |
| FetchStream.StreamRefines | src/cpu.rs:1601-1647 | any number of bytes through the cursor are those found by translating each address on its own, or the fault that the first bad one raises |
| FetchStream.FetchRefines | src/cpu.rs:1601-1697 | so is any mix of 8-, 16-, 32- and 64-bit fetches, with fault, error code and CR2, and the cursor's invariant is kept |
| Boot.BuildIdentityMap | src/boot.rs:246-272 | whatever memory held, afterwards every canonical address below 4 GiB translates to itself, writable, supervisor and executable, every other to nothing, and no byte outside the six table pages has changed |
| CpuCore.Cpu.ApplyPaging | src/cpu.rs:1339-1394 | the method on the processor object returns the address and leaves the state that `Mmu.Access` gives |
| CpuCore.Cpu.SetAccessedBits | src/cpu.rs:1498-1513 | the in-place loop over the walk leaves the memory that `Paging.SetAccessedBits` gives |
| CpuCore.Cpu.FlushTlb | src/cpu.rs:1260-1267 | every slot dead, nothing else changed but the fetch cursor |
| CpuCore.Cpu.WriteCr0 | src/cpu.rs:1456-1468 | toggling PG flushes, and long mode is entered or left |
| ProcessorMeaning.Cr0Means | src/cpu.rs:1456-1468 | writing CR0 sets PE, WP and PG, makes LMA the conjunction of PG and LME, and drops every translation exactly when PG or LMA changes; nothing else changes |
| ProcessorMeaning.LongModeMeans | src/cpu.rs:1160-1174 | long mode is active exactly if paging is on and LME set; entering or leaving it drops every translation |
| ProcessorMeaning.Cr34Means | src/instructions.rs:2781-2795 | writing CR3 or CR4 sets that register and drops every translation |
| ProcessorMeaning.EferMeans | src/cpu.rs:1552-1558 | writing EFER sets LME and NXE; LMA follows PG and LME, not the value written |
| ProcessorMeaning.InvlpgMeans | src/cpu.rs:1270-1277 | afterwards no live slot is for that page, and no slot of another page has changed |
| ProcessorMeaning.RegisterMeans | src/cpu.rs:719-753 | a register write sets the low bytes, keeps those above at 8 and 16 bits and clears them at 32 |
| ProcessorMeaning.HighByteMeans | src/cpu.rs:919-938 | AH, CH, DH and BH are bits 15:8, and writing one keeps every other bit |
| ProcessorMeaning.AddressMeans | src/cpu.rs:1803-1846 | an effective address is base plus scaled index plus displacement, or RIP plus displacement, modulo the address size |
| ProcessorMeaning.LinearMeans | src/cpu.rs:1185-1199 | outside 64-bit code the base of the segment plus the offset modulo 2^32, in it the offset, plus the FS or GS base for those two |
| ProcessorMeaning.LoadSegMeans | src/cpu.rs:984-1030 | a segment load sets that selector and, in protected mode, the base, privilege and L bit that the descriptor's bytes spell; every other segment addresses as before |
| ProcessorMeaning.InstructionPointerMeans | src/cpu.rs:682-690 | instruction bytes are addressed through CS by RIP, EIP or IP, and fetching moves that register modulo its width |
| ProcessorMeaning.RealPushMeans | src/cpu.rs:2014-2040 | outside protected mode a word goes to sixteen times SS plus SP less its size, modulo 1 MiB, and SP wraps at 64 KiB |
| ProcessorMeaning.RealStackRoundTrip | src/cpu.rs:2014-2065 | so a pop undoes a push |
| CpuCore.Cpu.Load | src/cpu.rs:1936-1955 | the in-place load is `Operands.Load`, value and state |
| CpuCore.Cpu.StoreTo | src/cpu.rs:1957-1977 | the in-place store is `Operands.Store` |
| CpuCore.Cpu.FetchU16 | src/cpu.rs:1650-1679 | the in-place fetch, one page or two, is `Fetch.FetchU16` |
| CpuCore.Cpu.PushW | src/cpu.rs:2014-2040 | the push leaves the state `Interrupts.PushW` gives: nothing moves when it faults |
| StringMeaning.InstructionMeans | src/instructions.rs:2540-2645 | what a string instruction leaves, faults and restarts included, by element number: MOVS, STOS and LODS do all n elements, CMPS and SCAS stop behind the first whose operands' equality breaks REPE or REPNE; after m elements the index registers are start + m times the size, or minus when DF is set, modulo the address size, and the count is n - m; element i is at start ± i times the size; the flags are those of comparing the last pair |
| StringMeaning.CopyOrFill | src/instructions.rs:2540-2575 | where destinations are apart from each other and from the sources, every destination element ends as what its source element held before the run, or as the accumulator |
| StringMeaning.Untouched | src/instructions.rs:2540-2575 | and a byte of no destination element keeps its value, overlapping or not |
| StringRestart.ExecStops | src/instructions.rs:2540-2645 | at a fault SI, DI and CX name exactly the faulting element: everything before it is done, nothing of it or after it is stored, whatever pages are absent, but for zeros in the one-page destination of a MOVS whose source straddles |
| StringRestart.RestartTransparent | src/instructions.rs:2540-2645 | for any count, direction, address and element size, and any number of faults, REP MOVS, STOS, LODS, CMPS and SCAS end in the registers, flags and bytes of a run that never faulted; repairs may fill, page in, zero, copy on write, move and evict pages, as long as a byte mapped at a fault keeps its value; operands of MOVS, STOS and LODS may straddle pages, the source of MOVS unless a zeroed destination takes nonzero bytes of it along |
| StringRestart.RepairHasBacking | src/instructions.rs:2540-2645 | a repair is judged on the machine alone: whenever each byte mapped after it holds what it held at the fault, or if absent then what was to be brought in, the history may go on |
| StringRestart.SourceSurvives | src/instructions.rs:2540-2562 | exactly when the source of a MOVS reads the same after its destination has been zeroed: every byte the two have in common is zero |
| StringRestart.MovsFault | src/instructions.rs:2540-2562 | exactly what a MOVS that faults while moving has stored: nothing when its destination straddles, else zero over the destination |
| StringRestart.ComparedBytes | src/instructions.rs:2599-2645 | exactly when the consecutive bytes CMPS and SCAS read are the operand's |
| LinearView.ViewStores | src/instructions.rs:3464-3471 | storing an operand through the page tables is storing it at its homes, for every byte mapped, however pages share frames |
| Execution.ExecString | src/instructions.rs:2540-2645 | the loop on the processor object leaves the state `Strings.Exec` gives |
| ReadModifyWrite.AllOrNothing | src/instructions.rs:1401-1461 | an attempt at an ALU operation, XCHG, CMPXCHG or XADD on memory, its pages mapped or not, either realizes the instruction's meaning on flags, registers and operand, or faults with all registers and data as they were |
| ProcessorMeaning.EffectMeans | src/instructions.rs:1401-1461 | that meaning in terms of the ALU and the values the operands hold: which operand is on which side, where the result and the old value go, and when CMPXCHG stores |
| ReadModifyWrite.RestartTransparent | src/instructions.rs:2321-2420 | after any number of faults, absent pages included, each repaired in whatever way, the attempt that completes leaves what the instruction means from the first start's registers and flags on the operand the last repair left |
| ReadModifyWrite.RestartAtHome | src/instructions.rs:2321-2420 | and when no repair writes those bytes, on the operand as it was at the first start |
| Execution.ExecRmw | src/instructions.rs:1401-1461 | the arms on the processor object leave the state `ReadModifyWrite.Exec` gives |
| DeliveryMeaning.LongMeans | src/instructions.rs:3384-3444 | from the bytes of gate, descriptor and TSS: RIP is the gate's three offset pieces, CS its selector; the stack pointer is IST slot k at TR + 0x24 + 8(k - 1), else RSP0 at TR + 4 when the handler is more privileged, else the interrupted one, aligned down to 16, less five words or six; SS is null on a new stack; TF, RF and, through a type-14 gate, IF are cleared and every other flag kept |
| DeliveryMeaning.ProtectedMeans | src/instructions.rs:3309-3371 | likewise in 32-bit mode, with SS0:ESP0 of the TSS on a switch, three words or five, and IF cleared through types 6 and 14 |
| DeliveryMeaning.FrameMeans | src/instructions.rs:3309-3444 | from the handler's stack pointer up lie the error code if any, RIP, CS, RFLAGS and, in long mode or on a switch, the interrupted RSP and SS |
| DeliveryMeaning.FlagsBit | src/instructions.rs:3309-3444 | bit i of the pushed flags word is flag i |
| DeliveryMeaning.WriteFlagsMeans | src/instructions.rs:1275-1277 | a flags word that is read back sets the bits in 0x003F_7FD5, leaves the others, and bit 1 comes out set |
| Nesting.AlwaysIntact | src/instructions.rs:3309-3444 | throughout a run of entries, handler work and returns every live frame is intact in memory, as many as there are open entries |
| Nesting.NestedRestores | src/instructions.rs:1723-1758 | the return that closes an entry restores RIP, CS, RFLAGS, RSP and SS exactly, at any nesting depth, with or without ring switch, IST, error code, and SS:ESP in the frame, if the stack is switched both ways by the gate of that entry or neither; otherwise `Mistaken` comes back, whatever the other gates of the run are |
| Nesting.EntryIsAtFrame | src/instructions.rs:3309-3444 | when the handler has dropped the error code its stack pointer is at the frame, so such a return exists |
| Nesting.ReturnInverts | src/instructions.rs:1741-1758 | delivery then return gives back the context exactly when the stack is switched both ways or neither, or what the return takes for it coincides with it; and what that is, in both mismatches |
| GateExamples.StrandedOnHandlerStack | src/instructions.rs:3322-3360 | RPL 3 to a DPL-0 segment, taken from ring 3: the return leaves ESP and SS of the handler's stack |
| GateExamples.TakesStackWords | src/instructions.rs:3322-3360 | RPL 0 to a DPL-3 segment, taken from ring 3: the return takes the program's top two words for SS:ESP |
| Delivery.LongInt | src/instructions.rs:3386-3444 | the long-mode delivery on the processor object leaves the state `Interrupts.LongInt` gives |
| Delivery.ProtectedInt | src/instructions.rs:3309-3371 | so does the 32-bit one |
| Delivery.Iret32 | src/instructions.rs:1741-1758 | and the 32-bit return |
| VirtioQueue.ServeAllIsFifo | src/virtio.rs:188-215 | serving n pending requests, at most 128, advances the used index by n modulo 2^16 and writes n used entries with their byte counts, the k-th for the head in the word at pfn * 4096 + 2048 + 4 + 2((last + k) mod 128), in this order, each once, across the wrap; the driver's side of the rings is left alone |
| VirtioBlocks.ChainMeans | src/virtio.rs:219-245 | the chain is the list of table entries linked from the head by flag bit 0 and the next index, cut at 128, and each descriptor has address, length, flags and next at offsets 0, 8, 12 and 14 of its entry |
| VirtioBlocks.ChainExists | src/virtio.rs:219-245 | every head has such a list |
| VirtioBlocks.InRequest | src/virtio.rs:219-306 | a read answers OK exactly when every buffer is device-writable and the range lies in the image, else an I/O error; either way what the image has of the range has been put in order at the buffers' addresses up to the first that is not device-writable, whose lengths and the status byte are the count reported; buffers that are apart and in RAM hold the range; the image does not change |
| VirtioBlocks.OutRequest | src/virtio.rs:219-306 | a write answers OK exactly when the range lies in the image, else an I/O error; the data, overlapping and unbacked source bytes included, is laid over the range as far as the image goes, the rest of the image and its length stay, and only the status byte of guest memory changes |
| VirtioBlocks.OtherRequest | src/virtio.rs:219-306 | a flush does nothing, an identity request blanks its buffers, every other kind is refused, each with its status byte and count |
| VirtioBlocks.LoneHead | src/virtio.rs:219-306 | a head without a next does nothing and reports zero bytes |
| VirtioBlocks.OutThenIn | src/virtio.rs:219-306 | what one request wrote a later one of the same range reads back, however differently the two are cut into buffers |
| VirtioBlocks.RequestFrame | src/virtio.rs:219-306 | no request writes outside its buffers and status byte |
| VirtioDevice.VirtioBlk.Notify | src/virtio.rs:188-215 | the loop over the ring on the device object takes every request up to the index at pfn * 4096 + 2048 + 2, modulo 2^16, leaves the memory and image of the functions above, and interrupts exactly if there were any |
| VirtioDevice.VirtioBlk.Write | src/virtio.rs:152-176 | what a write to each register sets, which starts the ring over, and that only the notify register makes the device work |
| VirtioDevice.VirtioBlk.Perform | src/virtio.rs:219-306 | so does one request, with its loops over the chain and its buffers |
| Pic.RunRecords | src/pic.rs:63-231 | after any run a line's request bit is set exactly if it was raised since it was last acknowledged and since the pair was last initialised, each mask is the last OCW1 written to its chip, and each base the last ICW2 with its low three bits cleared |
| Pic.AcknowledgeMoves | src/pic.rs:217-231 | an acknowledge takes the best line, clears that request and no other, sets that in-service bit, and the cascade for 8 to 15, and answers eight times the owning chip's base / 8 plus the line modulo 8 |
| Pic.CommandMeans | src/pic.rs:63-115 | what every command byte does: ICW1 clears one chip's requests and service, OCW2 retires the lowest line in service or the one named, and the cascade with the slave's last, OCW3 chooses what is read; masks and bases stay |
| Pic.NestingDiscipline | src/pic.rs:63-245 | after any run from power-on the requests, masks and base vectors are those of `Pic.RunRecords`, the lines in service rise strictly in priority in the order acknowledged, an EOI retires exactly the latest, and the next acknowledge is the best deliverable request |
| Pic.NextIrqIsBest | src/pic.rs:183-213 | the scan finds the highest-priority unmasked request that no line in service blocks, or none if there is none |
| Pic.EventKeeps | src/pic.rs:63-245 | every event keeps the discipline, cascade bit included |
| Pic.Controller.Ack | src/pic.rs:217-231 | the method on the controller object takes that request into service and returns its vector |
| Pic.Controller.Command | src/pic.rs:63-115 | initialisation, EOI and read selection on the object are those of the pair |
| Calendar.CivilSuccessor | src/cmos.rs:163-174 | the date of the next day number is the Gregorian successor, leap years by 4, 100 and 400 |
| Calendar.CivilIsDayByDay | src/cmos.rs:163-174 | hence the closed form is the calendar counted day by day from 1 January 1970 |
| Calendar.ClockTicks | src/cmos.rs:148-161 | one more second moves seconds, minutes, hours, weekday and date on by one second |
| Calendar.GuestReadsTheTime | src/cmos.rs:108-174 | through the year 9999 a guest that decodes registers 0, 2, 4, 6, 7, 8, 9 and 0x32, in BCD or binary, reads second, minute, hour, weekday, day, month, year and century of t seconds after Thursday 1 January 1970, the date counted day by day |
| Calendar.Cmos.ReadData | src/cmos.rs:108-137 | the method on the chip returns the register's encoding, and reading status C clears it |
| AluMeaning.ArithmeticMeans | src/instructions.rs:3517-3695 | ADD, ADC, SUB, SBB and CMP at every width: the result is the exact sum or difference modulo the width, CF says that it did not fit, OF that the signed one did not (never at 8 bits), AF that the low four bits did not, ZF, SF and PF tell of the result, and no other flag changes |
| AluMeaning.LogicMeans | src/instructions.rs:3517-3695 | AND, OR and XOR at every width, bit by bit: CF and OF clear, ZF, SF and PF of the result, every other flag kept |
| AluMeaning.ParityMeans | src/instructions.rs:3829-3835 | the folded parity is that of the number of ones in the low byte |
| Alu.MultiPrecisionExact | src/instructions.rs:3638-3695 | an ADD/ADC chain over any number of 64-bit limbs is the exact sum with CF its carry, and SUB/SBB the exact difference with CF its borrow |
| Alu.CompareDecides | src/instructions.rs:394-415 | after CMP each ordering condition decides exactly its ordering, unsigned and signed, at 16, 32 and 64 bits, and at 8 bits exactly when the difference fits |
| AluMeaning.ConditionsMean | src/instructions.rs:394-415 | O, S and P test bits 11, 7 and 2, and every negated condition is the opposite of its neighbour |
| Shifts.ShiftWidth | src/instructions.rs:3893-3990 | every shift and rotate at every width is as many single-bit steps on operand and CF as the masked count says, with its OF |
| ShiftMeaning.ShiftFlagsMean | src/instructions.rs:3893-3990 | counts are taken modulo 32, or 64 at 64 bits; OF tells for a count of one whether the sign changed and is clear otherwise; shifts set SF, ZF and PF from the result, rotates keep them; no other flag changes |
| Shifts.RotateThroughCarry64 | src/instructions.rs:3999-4016 | the 64-bit loop is the closed-form rotate of the 65-bit value CF:operand |
| Shifts.RcrRestores | src/instructions.rs:3951-4016 | RCR by any count undoes RCL by it, operand and CF, at every width |
| MulDiv.MulReads | src/instructions.rs:1921-1935 | MUL leaves the double-width product in the register pair, CF and OF set exactly if it does not fit in the low half |
| MulDiv.ImulReads | src/instructions.rs:1955-1975 | IMUL leaves the exact signed product, CF and OF set exactly if it does not fit in the low half |
| MulDiv.DivExact | src/instructions.rs:1992-2010 | DIV raises the divide error exactly when the divisor is zero or the quotient does not fit; otherwise quotient and remainder are those of the double-width dividend |
| MulDiv.IdivExact | src/instructions.rs:2035-2057 | so for IDIV on signed values, but for the most negative 128-bit dividend over -1 |
| MulDiv.MulThenDiv | src/instructions.rs:1921-2010 | MUL then DIV by the same nonzero operand restores the accumulator with remainder zero |
| MulDiv.ImulThenIdiv | src/instructions.rs:1955-2057 | so does IMUL then IDIV |
| Extended.RoundTrip | src/sse.rs:624-680 | every 64-bit pattern survives conversion to 80 bits and back bit for bit |
| Extended.WidensExactly | src/sse.rs:624-646 | a double becomes the extended number of the same sign and value, its leading one at bit 63, denormals included; infinities and NaNs keep their payload in place |
| Extended.ConversionRounds | src/sse.rs:649-680 | every finite nonzero extended number, integer bit set or not, becomes an infinity above the doubles, the nearest double in their normal range, ties to even, and below it the largest one in magnitude that is not above |
| Extended.OthersConvert | src/sse.rs:649-680 | extended infinities and NaNs keep sign and upper payload; a zero significand becomes zero exactly if its exponent is at most 15424, else a power of two or an infinity |
| Fxsave.SaveRestores | src/sse.rs:1234-1290 | FXSAVE then FXRSTOR restores control, TOP, MXCSR, every ST bit for bit and every XMM in 64-bit mode, the first eight outside it |
| Fxsave.StatusAndTagRestored | src/sse.rs:1234-1290 | the status word comes back exactly when TOP was in it, and the tag word exactly when its unused byte is set |
| Fxsave.TagBits | src/sse.rs:1234-1290 | bit i of the saved tag byte is set exactly if bit i of the tag word is clear, and loading turns it back |
| Fxsave.ReservedMxcsrFaults | src/sse.rs:1262-1290 | reserved MXCSR bits raise a general-protection fault and leave MXCSR, ST and XMM as they were |
| Fxsave.Unit.SaveImage | src/sse.rs:1234-1260 | the loops that fill the buffer produce an image that holds the state |
| Fxsave.Unit.LoadImage | src/sse.rs:1262-1290 | reading it back in place leaves the restored state |

## Left out

- Memory.WideReads: states RAM alone; `TextWindow` states the reads with the window in front, and `TextWindow.SystemBus` carries them out. The rest of the project takes memory without the window, so page tables, stacks, strings and virtio buffers inside 0xB8000-0xBFFFF are not covered. Store watches and their log are diagnostics.
- Memory.WideWrite: as for reads, RAM without the window.
- Store.PhysicalMemory.LoadU64: the buffer alone; the window is in front of it in `TextWindow.SystemBus`.
- Store.PhysicalMemory.StoreBytes: as for loads.
- StringRestart.RestartTransparent: operands of CMPS and SCAS do not straddle a page, and a straddling source of MOVS survives the zeroing of a one-page destination, because the code does not meet the statement there (`StringRestart.ComparedBytes`, `StringRestart.SourceSurvives`). The bytes of the run are not page tables, and a byte mapped when a fault strikes keeps its value through the repair.
- ReadModifyWrite.RestartTransparent: ADC and SBB are excluded, because they overwrite the CF they read before a store that may fault; a register destination has nothing to restart. Operand bytes that are mapped are data in RAM: neither page tables nor device memory.
- Nesting.NestedRestores: a frame word is taken together from the translation of its first byte; no word of a live frame runs past the end of low RAM, and none is overwritten while its frame is open.
- MulDiv.IdivExact: the quotient that the host's 128-bit arithmetic cannot hold is excluded; 8- and 16-bit multiply and divide are not modelled. An operand has been read without a fault.
- Calendar.ClockTicks: up to the year that no longer fits in 32 bits.
- VirtioQueue.ServeAllIsFifo: the driver's side stands still during a notification, and the rings and request buffers are disjoint.
- Pic.RunRecords: the run initialises both chips together and masks between initialisations; `clear_irq`, which nothing calls, and the register reads are not modelled.
- StringMeaning.CopyOrFill: overlapping runs are stated store by store in `StringMeaning.InstructionMeans`.
- VirtioBlocks.InRequest: ranges that overflow 64 bits are excluded, and RAM answers at the status byte; likewise for writes.
- Extended.ConversionRounds: a zero significand is `Extended.OthersConvert`, for builds without overflow checks; with them the shift by 64 panics when the exponent is not zero.
- Fxsave.SaveRestores: the state is the x87 and SSE registers alone; an image with reserved MXCSR bits is `Fxsave.ReservedMxcsrFaults`.
- `CpuCore.Cpu` has the fields that translation, the stack, strings and read-modify-write instructions use; its other fields are not part of this model, and CR0, CR4, EFER and descriptors keep only the bits consulted. Computing a linear address or reading a descriptor is a function of the whole processor value.
- Multiply, divide and the ALU are functions on the register file and the flags: the model does not capture the order in which they assign registers.
- VT-x (src/vmx.rs is not part of this model): `in_guest` is false throughout.
- The opcode decoder, 16-bit effective addresses, PUSHA, POPA, CMPXCHG8B, RCL and RCR restart, real-mode interrupts and the 16-bit IRET.
- 128-bit operands, floating-point arithmetic and conversions on host floats.
- PIT, DMA, IDE, VGA registers, keyboard, PCI, BIOS services, ELF and bzImage loading, tracing, environment variables and the Python tools.
