# Verified model of the NEO6502 MMU supervisor firmware

The RP2350 firmware under `NEO6502_MMU_V3/` supervises a 6502: it divides 512K of RAM into
contexts through an MMU, starts and stops the processor, loads cartridges, serves console and
filesystem requests from a shared mailbox, and raises interrupts. This project models those parts
in Dafny and proves properties of the model. `dafny verify dfyconfig.toml` checks all of it.

How the parts fit together:

- **Memory.** `MemoryIni` and `MemoryConfig` turn the configuration file into tables and decide
  whether they are acceptable; `PageAllocator` gives every slot of every active context a physical
  page and programs the table of `MmuTable`. `PhysicalMemory` describes RAM behind that page map:
  every copy, load or publication is a list of writes to cells, so "nothing else changed" is a
  statement about the list.
- **Bus.** `SystemBus` is the transition system of CPU states, pins and clock. `Neobus` is the
  machine: RAM, pins and the selected context, with the snoops and context brackets through which
  everything else touches memory. `Cartridge` loads ROM images on top.
- **Paths.** `Names83` states the 8.3 rule once, `PathModel` says what a path means (a stack of
  components), `PathEngine` resolves in place in a 64-byte buffer and keeps the table of working
  directories, `FatPaths` builds FatFs paths.
- **Storage and requests.** `Storage` holds USB slots, mounts and the two handle tables.
  `CallerMemory` checks ranges and copies in and out of a caller's context; `FsExecutor`,
  `PathRequests` and `BulkTransfer` are the request handlers. FatFs may refuse any call, but keeps a
  history of them, so that a failure needs a reason. `FsRequests` says, over a request's own block and
  the states before and after, what each operation answers; `FsDispatch` proves that of every
  operation, and `FsMailbox` carries a request from the mailbox to its published reply. `Isolation`
  puts configuration, machine and requests together.
- **Protocols.** `Mailbox` interleaves the two processors access by access, `IrqSlot` is the single
  interrupt slot, `Fifo` the ring buffer and `ConsoleIo` the console transfers over it.

The main results, in the order of the parts above:

1. Page identity, density and optimality of the allocator, and that the MMU table, written through
   its two skip-if-unchanged latches, holds exactly the computed map (`PageAllocator.PageIdentity`,
   `UsedPagesAreDense`, `AnyIsolatingMapNeedsDemand`, `Allocator.InitAndConfigure`).
2. Snoops and context brackets, nested to any depth, are invisible to the 6502
   (`SystemBus.BracketIsTransparent`); booting succeeds exactly if all cartridges are good and can be
   read, and its overlay is a fold over them (`Cartridge.Activate`, `BootOverlay`).
3. The in-place resolver is the stack semantics, and changing directory composes
   (`PathEngine.CwdTable.ResolvePath`, `PathModel.ChdirComposes`). Where each kind of path starts and
   what each component does is stated apart from it (`AbsoluteIgnoresDirectory`, `NextComponent`,
   `ParentDirectory`, `ErrorsStay`).
4. On a machine powered up with an accepted configuration, a filesystem request other than LOAD, of a
   context whose lower half is private, changes nothing that another context sees, nor its caller
   outside that half, but the reply bytes. A LOAD may name any range of its context; it shows exactly
   through the slots that other contexts share with that range, and is isolated like the rest if the
   range is private (`Isolation.ServeConfigured`, `LoadConfigured`, `LoadIntoSharedSlotIsSeen`). Every
   operation code gets the answer of its own operation: it is rejected exactly when its request is
   malformed, a success did what it names, and a failure has a reason; no file changes but the handle's
   or those that the block names (`FsDispatch.Dispatch`). A LOAD delivers exactly the bytes it reports,
   and a SAVE stores them exactly unless a write both stores bytes and reports an error
   (`BulkTransfer.SaveExactIff`).
5. No mailbox post is lost or executed twice and results are seen only when final
   (`Mailbox.NothingLostNothingTwice`, `VisibleResultsAreFinal`), each request is answered by its own
   handler or, if unknown, with EINVAL (`AnswersBelong`), also when the doorbell follows later,
   exactly as long as it comes in time (`Mailbox.DoorbellIsHarmlessIff`); a completion interrupt waits
   for a bounded number of polls (`IrqSlot.CompletionIsIssuedSoon`), and an issued one stays until
   it is acknowledged, or a timer command or initialisation empties the slot
   (`IrqSlot.IssuedStaysInSlot`). Timer ticks are a period apart and come when due (`TicksAreApart`,
   `TicksWhenDue`).

Assumptions about the 6502's software, which is not part of the repository: it posts a request
(fields, BUSY, doorbell) only after seeing a status other than BUSY, and it
acknowledges an interrupt by clearing the SOURCE byte and writes neither of the two interrupt bytes
otherwise. Mailbox and interrupt bytes lie in a page that all active contexts share.

Where code and documentation disagree, the model follows the code:

- `scheduler.cpp` lines 152-154 say that an interrupt owning the slot cannot lose a filesystem
  completion. That holds (`IrqSlot.CompletionGoesByPolling`); but once the completion owns the slot
  itself, starting or stopping the timer withdraws it (`IrqSlot.TimerCommandsWithdrawCompletion`).
- Entering reset raises the interrupt line without emptying the slot, so an interrupt issued before
  it stays in the slot unseen, and later polls only wait for it (`IrqSlot.ResetWedges`, `LineLowIff`).
- The index cache of `mmu.cpp` is not told about ordinary bus accesses. A later table write can reach
  another slot (`MmuTable.StaleIndexMissesItsSlot`); `MmuTable.Mmu.TargetSlot` says exactly when.
- The timer compares points in time on a 32-bit clock; `IrqSlot.TimerExactIff` says exactly when
  that agrees with elapsed time.
- SAVE notices a range that wraps only after the file has been emptied, and a write that reports an
  error after storing bytes leaves those in the file without counting them
  (`BulkTransfer.SaveExactIff`, `TornSave`).
- `rp_fs.cpp` describes rmdir as removing an empty directory. It calls `f_unlink`, which removes a file
  of that name as well (`Storage.Store.RemoveDir`).
- Set-up configures the MMU from a file that the validator refused; the allocator's stores can then
  leave their row (`PageAllocator.StoresStayInRows`, `RefusedFileLeavesItsRow`).
- The bulk handler has no private-range test, unlike the others, so a LOAD to a shared slot is seen by
  every context that shares it (`Isolation.LoadIntoSharedSlotIsSeen`).
- `rp_fs.cpp`'s component checker has no test for a slash, unlike the one in `rp_fs_path.cpp`; the
  two accept the same strings all the same, because a slash is no name character.

## Model

| member | source | states |
|---|---|---|
| MemoryConfig.IsValidRegionRange | NEO6502_MMU_V3/memory_config.cpp:214-226 | a region is valid iff it covers at least one slot and no slot outside 0..15 |
| MemoryConfig.LayoutHasOverlaps | NEO6502_MMU_V3/memory_config.cpp:228-247 | reports an overlap iff some slot lies in two regions, 8-bit end arithmetic included |
| MemoryConfig.LayoutIsComplete | NEO6502_MMU_V3/memory_config.cpp:249-268 | reports completeness iff every one of the sixteen slots is covered |
| MemoryConfig.ValidateLayout | NEO6502_MMU_V3/memory_config.cpp:306-335 | the first violated layout rule, in the order the rules are checked |
| MemoryConfig.ValidateConfig | NEO6502_MMU_V3/memory_config.cpp:270-354 | the validator returns exactly the first violated rule of the whole configuration |
| MemoryConfig.RefusalNamesAFault | NEO6502_MMU_V3/memory_config.cpp:270-354 | whatever error the validator reports, the configuration has that fault, spelled out error by error |
| MemoryConfig.AcceptedMeans | NEO6502_MMU_V3/memory_config.cpp:270-354 | acceptance iff header, model sizes and boot context are in order, every layout of a known model partitions the sixteen slots, and every active context has a layout |
| MemoryConfig.DisjointCompleteIsPartition | NEO6502_MMU_V3/memory_config.cpp:228-268 | no overlap and full coverage together are the same as every slot lying in exactly one region |
| MemoryConfig.CompleteIffSixteenPages | NEO6502_MMU_V3/data/memory.ini:9-12 | the rule of the configuration file: in-range, disjoint regions cover all slots iff their page counts sum to 16 |
| MemoryConfig.DisjointRegionsAddUp | NEO6502_MMU_V3/memory_config.cpp:249-268 | disjoint regions cover as many slots as their page counts add up to |
| MemoryConfig.FindBinding | NEO6502_MMU_V3/memory_config.cpp:189-200 | the first binding of a model and context, or none |
| MemoryIni.Parser.OpenModel | NEO6502_MMU_V3/memory_config.cpp:397-418 | a model section adds one new model iff its clipped name is new and the table has room; otherwise the error names which of the two failed |
| MemoryIni.Parser.OpenRegion | NEO6502_MMU_V3/memory_config.cpp:420-480 | accepted iff the layout exists or can be created, has room and no region of the name; then one region is appended to that layout and no other changes; refused: no table changes |
| MemoryIni.Parser.OpenContext | NEO6502_MMU_V3/memory_config.cpp:482-525 | a context section adds one binding iff the context number is legal and not yet bound for the model |
| MemoryIni.Parser.SetKey | NEO6502_MMU_V3/memory_config.cpp:531-695 | accepted iff key and value are legal for the current section; then exactly the named attribute changes; refused: nothing does, and the error is the one for that section and key |
| MemoryIni.Parser.Parse | NEO6502_MMU_V3/memory_config.cpp:356-701 | every line up to the first unacceptable one takes its effect, parsing stops at a line only if it is unacceptable, otherwise the result is the validator's verdict; the tables obey limits and uniqueness whatever the input |
| MemoryIni.RegionAdded | NEO6502_MMU_V3/memory_config.cpp:466-480 | appending a region with a fresh name keeps all table invariants and every other layout |
| MmuTable.Mmu.SetContext | NEO6502_MMU_V3/mmu.cpp:139-155 | skipping an unchanged context leaves the latch equal to the cache |
| MmuTable.Mmu.WriteIndex | NEO6502_MMU_V3/mmu.cpp:117-124 | the slot that the index latch reaches when an equal cached index is skipped |
| MmuTable.Mmu.TargetSlot | NEO6502_MMU_V3/mmu.cpp:117-124 | a table access reaches the wanted slot iff the cached index differs from it or agrees with the address latch |
| MmuTable.Mmu.ReadPage | NEO6502_MMU_V3/mmu.cpp:163-184 | the entry read is the one at the target slot of the context |
| MmuTable.Mmu.WritePage | NEO6502_MMU_V3/mmu.cpp:193-228 | exactly one entry changes, at the target slot of the context |
| MmuTable.Mmu.Init | NEO6502_MMU_V3/mmu.cpp:305-327 | all 128 contexts get the default row: page s at slot s, with the trap bit at slot 14 alone |
| MmuTable.StaleIndexMissesItsSlot | NEO6502_MMU_V3/neobus.cpp:131-146 | counterexample: after an ordinary memory access a table write can land in another slot |
| PageAllocator.Allocator.GetSharedPhysical | NEO6502_MMU_V3/memory_config.cpp:759-784 | one page per (region name, offset), fresh on first use, and failure only when all 128 are taken |
| PageAllocator.Allocator.AllocatePage | NEO6502_MMU_V3/memory_config.cpp:800-832 | one store goes to the slot's place in the flat map, with the number of what the slot asks for, a new one if its private page was taken before; failure grants nothing |
| PageAllocator.Allocator.AllocateAll | NEO6502_MMU_V3/memory_config.cpp:786-833 | for partitioning layouts allocation succeeds iff at most 128 identities are demanded, and numbers exactly the demanded ones; for any others it fails only on a missing layout or with all pages taken |
| PageAllocator.Allocator.ProgramTable | NEO6502_MMU_V3/memory_config.cpp:835-865 | succeeds iff every active context has a layout covering its slots; active rows get page plus trap bit of the slot's region; every other row stays |
| PageAllocator.Allocator.Configure | NEO6502_MMU_V3/memory_config.cpp:786-868 | success needs covering layouts, and with them fails only when all pages are taken; for partitioning layouts success iff the demand fits, and failure leaves the MMU table untouched |
| PageAllocator.Allocator.InitAndConfigure | NEO6502_MMU_V3/NEO6502_MMU_V3.ino:92-129 | start-up with any configuration, whatever the validator said: default rows beyond the active contexts, and for an accepted file the computed map for the active ones iff the demand fits |
| PageAllocator.StoresStayInRows | NEO6502_MMU_V3/memory_config.cpp:809-829 | every store of the allocator stays in its context's row iff each region of an active context is empty or ends at slot 16 at the latest |
| PageAllocator.RefusedFileLeavesItsRow | NEO6502_MMU_V3/NEO6502_MMU_V3.ino:128-129 | counterexample: well-formed tables that the validator refuses and that are configured all the same, with a store outside its row |
| PageAllocator.ProgrammedIsAllocation | NEO6502_MMU_V3/memory_config.cpp:835-865 | a programmed MMU realises the page numbering, with the trap bit exactly on I/O and write-trapped regions |
| PageAllocator.PageIdentity | NEO6502_MMU_V3/memory_config.cpp:759-833 | two active slots share a physical page iff they are the same slot or lie at equal offsets of equally named shared regions |
| PageAllocator.PrivatePagesAreIsolated | NEO6502_MMU_V3/memory_config.cpp:813-832 | no other active slot reaches the page of a private slot |
| PageAllocator.ContextMapIsInjective | NEO6502_MMU_V3/memory_config.cpp:466-469 | within a context different slots have different pages, given unique region names per layout |
| PageAllocator.UsedPagesAreDense | NEO6502_MMU_V3/memory_config.cpp:786-833 | the pages in use are exactly 0..n-1 |
| PageAllocator.DemandCount | NEO6502_MMU_V3/memory_config.cpp:786-833 | n is the number of private context-slots plus the number of distinct shared (name, offset) pairs |
| PageAllocator.AnyIsolatingMapNeedsDemand | NEO6502_MMU_V3/memory_config.cpp:786-833 | no page map at all that keeps apart what the sharing rule keeps apart uses fewer pages |
| PageAllocator.AcceptedIsSound | NEO6502_MMU_V3/memory_config.cpp:270-354 | an accepted configuration gives every active context a partitioning layout |
| SystemBus.EnterSettles | NEO6502_MMU_V3/p6502.cpp:311-389 | entering a state from a settled bus, or a new state from any, gives settled pins, clock, direction and mode; the 6502 executes iff the state is running |
| SystemBus.StolenBusIsStable | NEO6502_MMU_V3/neobus.cpp:241-301 | work of any nesting depth on a stolen bus leaves it unchanged and touches exactly the lexically enclosing contexts |
| SystemBus.BracketIsTransparent | NEO6502_MMU_V3/rp_fs_mailbox.cpp:67-96 | from every settled state a bracket restores state, pins, mode and context, and the 6502 resumes once, in its own context |
| SystemBus.FullyTransparentIff | NEO6502_MMU_V3/p6502.cpp:319-341 | a bracket also restores the IRQ line iff it was not low in boot or reset |
| SystemBus.SnoopInResetLosesContext | NEO6502_MMU_V3/p6502.cpp:330-345 | counterexample: without the default context in reset a snoop would change the context |
| SystemBus.SwitchContextEffect | NEO6502_MMU_V3/scheduler.cpp:27-44 | a switch changes the context alone, except that boot and reset raise the IRQ line and reset keeps the default context |
| PhysicalMemory.CellInjective | NEO6502_MMU_V3/mmu.cpp:193-228 | in an injective context different addresses reach different cells |
| PhysicalMemory.CopyHits | NEO6502_MMU_V3/rp_fs_mailbox.cpp:148-151 | a copy that fits into 64K puts every byte at its own address |
| PhysicalMemory.CopyWritesAppend | NEO6502_MMU_V3/rp_fs_mailbox.cpp:406-420 | copying in chunks is copying at once, modulo 64K |
| Neobus.Machine.SetState | NEO6502_MMU_V3/p6502.cpp:311-389 | the step-by-step pin updates equal the transition function |
| Neobus.Machine.ReadMemory | NEO6502_MMU_V3/neobus.cpp:172-190 | reads the byte the selected context sees, and 0 in the wrong control mode |
| Neobus.Machine.WriteMemory | NEO6502_MMU_V3/neobus.cpp:197-234 | writes exactly one cell, and none in the wrong control mode |
| Neobus.Machine.SnoopReadLoc | NEO6502_MMU_V3/neobus.cpp:241-250 | returns the byte the current context sees and gives the bus back |
| Neobus.Machine.SnoopWriteLoc | NEO6502_MMU_V3/neobus.cpp:276-283 | writes one cell of the current context and gives the bus back |
| Neobus.Machine.SnoopReadBlock | NEO6502_MMU_V3/neobus.cpp:258-269 | returns consecutive bytes modulo 64K and gives the bus back |
| Neobus.Machine.SnoopWriteBlock | NEO6502_MMU_V3/neobus.cpp:291-301 | writes consecutive bytes modulo 64K and gives the bus back |
| Neobus.Machine.BeginContextAccess | NEO6502_MMU_V3/rp_fs_mailbox.cpp:67-80 | steals the bus for a context below 16, refuses any other without effect |
| Neobus.Machine.EndContextAccess | NEO6502_MMU_V3/rp_fs_mailbox.cpp:87-96 | the context is back before the state is |
| Cartridge.ValidateHeader | NEO6502_MMU_V3/rom.cpp:50-88 | accepts iff markers, version, checksum and payload range are good |
| Cartridge.LoadPayload | NEO6502_MMU_V3/rom.cpp:150-175 | streams exactly the payload, unless a read comes up short; then it fails having streamed a prefix |
| Cartridge.LoadCartridge | NEO6502_MMU_V3/rom.cpp:115-180 | succeeds iff the file is good and no read comes up short, and then applied payload and vectors; a failure applied a prefix, and nothing of a bad file |
| Cartridge.Activate | NEO6502_MMU_V3/boot.cpp:107-140 | succeeds iff all files are good and no read comes up short; then the writes of all entries were applied in order, so that every cell holds the byte of the last entry mapping to it when the contexts map their slots apart; without a short read a failure applied exactly the entries before the first bad file; an undefined configuration changes nothing |
| Cartridge.EntryLastWrite | NEO6502_MMU_V3/rom.cpp:94-180 | what a cartridge puts into a cell: its vector there, else its payload byte |
| Cartridge.BootOverlay | NEO6502_MMU_V3/boot.cpp:107-140 | after activation every RAM cell holds the byte of the last entry that maps to it, else its old byte |
| Cartridge.VectorsAskedFor | NEO6502_MMU_V3/rom.cpp:94-107 | bits 0, 1 and 2 of the TYPE byte put the NMI, RESET and IRQ vectors of the header at $FFFA, $FFFC and $FFFE |
| Cartridge.SingleByteChangeIsNoticed | NEO6502_MMU_V3/rom.cpp:50-88 | no change of a single byte of a good header, but for the unused minor version, passes the check |
| Names83.PathComponentValid | NEO6502_MMU_V3/rp_fs_path.cpp:102-142 | decides the 8.3 rule for every string |
| Names83.FatComponentValid | NEO6502_MMU_V3/rp_fs.cpp:165-205 | the independently written checker decides the same rule, so the two agree on every string |
| Names83.Valid83Shape | NEO6502_MMU_V3/rp_fs_path.cpp:102-142 | a valid component is 1 to 12 characters, is not a dot name and holds neither slash nor NUL |
| Names83.NameCharsListed | NEO6502_MMU_V3/rp_fs_path.cpp:102-142 | the legal name characters are the capital letters, the digits and four signs |
| PathModel.SplitJoin | NEO6502_MMU_V3/rp_fs_path.cpp:80-96 | splitting a joined stack of components gives the stack back |
| PathModel.JoinSplit | NEO6502_MMU_V3/rp_fs_path.cpp:280-351 | joining the components of any text gives the text back |
| PathModel.WalkAppend | NEO6502_MMU_V3/rp_fs_path.cpp:313-338 | walking two component lists one after the other is walking their concatenation |
| PathModel.WalkStaysCanonical | NEO6502_MMU_V3/rp_fs_path.cpp:313-338 | every directory reached is a stack of valid components shorter than 64 characters |
| PathModel.ResolvedIsCanonical | NEO6502_MMU_V3/rp_fs_path.cpp:280-351 | a resolved path is the text of a canonical stack on a valid device |
| PathModel.ChdirComposes | NEO6502_MMU_V3/rp_fs_path.cpp:234-351 | if a resolves and becomes the CWD, resolving a/b before equals resolving b after, errors included |
| PathModel.QualifiedRoundTrip | NEO6502_MMU_V3/rp_fs_path.cpp:280-351 | resolving a resolved path in its drive-qualified form gives it back, for any process and CWD |
| PathModel.FormatRoundTrip | NEO6502_MMU_V3/rp_fs_path.cpp:260-278 | formatting a CWD and resolving the text gives the CWD back, whoever asks |
| PathModel.AbsoluteIgnoresDirectory | NEO6502_MMU_V3/rp_fs_path.cpp:297-301 | an absolute path without a drive means what it means with the drive of the CWD, or else the fallback, spelled out: the path of the CWD plays no part |
| PathModel.RelativeWithoutDirectory | NEO6502_MMU_V3/rp_fs_path.cpp:302-308 | without a CWD a relative path means the same as with a slash in front |
| PathModel.StartingPoints | NEO6502_MMU_V3/rp_fs_path.cpp:280-311 | the empty path, the roots and the CWD itself, and which processes and devices are refused |
| PathModel.RelativeGoesOn | NEO6502_MMU_V3/rp_fs_path.cpp:302-308 | a relative path goes on from the CWD |
| PathModel.AbsoluteGoesOn | NEO6502_MMU_V3/rp_fs_path.cpp:293-301 | an absolute path goes on from the root, with or without a drive |
| PathModel.NextComponent | NEO6502_MMU_V3/rp_fs_path.cpp:313-338 | what one more component does to any path that resolves: nothing, a child, the root, or which error |
| PathModel.ParentDirectory | NEO6502_MMU_V3/rp_fs_path.cpp:61-70 | a dot-dot component cuts the last component off |
| PathModel.ErrorsStay | NEO6502_MMU_V3/rp_fs_path.cpp:313-338 | a path that fails fails with the same error whatever is appended |
| PathEngine.PopComponent | NEO6502_MMU_V3/rp_fs_path.cpp:61-70 | cutting at the last slash in place pops the top component |
| PathEngine.AppendComponent | NEO6502_MMU_V3/rp_fs_path.cpp:80-96 | appending in place pushes a component, and fails iff the text would not fit the buffer |
| PathEngine.PathValid83 | NEO6502_MMU_V3/rp_fs_path.cpp:144-186 | accepts iff the drive is valid and every component is |
| PathEngine.WalkInPlace | NEO6502_MMU_V3/rp_fs_path.cpp:313-338 | the cursor loop over the 64-byte buffer computes exactly the component walk, including which error comes first |
| PathEngine.CwdTable.ResetAll | NEO6502_MMU_V3/rp_fs_path.cpp:188-194 | every process gets the root of device 0 |
| PathEngine.CwdTable.InitRoot | NEO6502_MMU_V3/rp_fs_path.cpp:196-205 | one slot becomes a root, iff process and device are valid |
| PathEngine.CwdTable.Clone | NEO6502_MMU_V3/rp_fs_path.cpp:207-215 | the child's slot becomes the parent's, others stay |
| PathEngine.CwdTable.Get | NEO6502_MMU_V3/rp_fs_path.cpp:217-232 | the stored directory, with the root shown as a slash |
| PathEngine.CwdTable.Set | NEO6502_MMU_V3/rp_fs_path.cpp:234-258 | stores iff process, device, path and length are in order, and every slot stays canonical |
| PathEngine.CwdTable.Format | NEO6502_MMU_V3/rp_fs_path.cpp:260-278 | the drive-qualified text iff it fits |
| PathEngine.CwdTable.ResolvePath | NEO6502_MMU_V3/rp_fs_path.cpp:280-351 | the in-place resolver equals the stack semantics for every input, process and fallback device |
| PathEngine.ResolvedIsStorable | NEO6502_MMU_V3/rp_fs_path.cpp:234-258 | a resolved path is accepted by the CWD store iff it is shorter than 32 |
| FatPaths.FatPathValid83 | NEO6502_MMU_V3/rp_fs.cpp:207-245 | accepts iff every component of the logical path is a valid 8.3 name |
| FatPaths.MakePath | NEO6502_MMU_V3/rp_fs.cpp:120-163 | the FatFs path of a file, or a refusal; roots are refused |
| FatPaths.MakeDirPath | NEO6502_MMU_V3/rp_fs.cpp:247-282 | the FatFs path of a directory, or a refusal; roots are allowed |
| FatPaths.ResolvedFlowsThrough | NEO6502_MMU_V3/rp_fs.cpp:120-282 | every resolved path passes the directory form, the file form iff it is not the root, and the root test of mkdir and rmdir finds exactly the root |
| Mailbox.FindCommand | NEO6502_MMU_V3/mailbox.cpp:175-195 | the handler of each of the three listed pairs, and none for any other pair |
| Mailbox.Task.Poll | NEO6502_MMU_V3/mailbox.cpp:239-301 | the idle counter and state machine of the firmware make the same move as the protocol model, for every protocol state |
| Mailbox.StepKeepsInv | NEO6502_MMU_V3/mailbox.cpp:74-301 | every byte access of either processor keeps the protocol invariant |
| Mailbox.NothingLostNothingTwice | NEO6502_MMU_V3/mailbox.cpp:74-301 | in every run the executed requests are the posted ones in order, each once, at most the newest still waiting |
| Mailbox.VisibleResultsAreFinal | NEO6502_MMU_V3/mailbox.cpp:96-138 | whenever the 6502 sees DONE or ERROR after a post, all six result bytes are final and belong to its last post |
| Mailbox.OverwrittenDoorbellIsNotLost | NEO6502_MMU_V3/mailbox.cpp:74-76 | clearing the doorbell over a new post leaves the post announced by BUSY |
| Mailbox.ServedWithin251IdlePolls | NEO6502_MMU_V3/mailbox.cpp:262-279 | a pending post is looked at no later than the 251st idle poll, whatever happens to the trigger |
| Mailbox.ServedWithin253Calls | NEO6502_MMU_V3/mailbox.cpp:239-301 | a pending post has been dispatched once the mailbox task was called 253 times, whatever else happens |
| Mailbox.NoLookFor250Polls | NEO6502_MMU_V3/mailbox.cpp:262-279 | after a look that finds nothing, 250 polls without a trigger leave the block alone |
| Mailbox.LookingDispatches | NEO6502_MMU_V3/mailbox.cpp:223-228 | once the block is looked at, the next accesses dispatch the pending post and no new post can come between |
| Mailbox.AnswersBelong | NEO6502_MMU_V3/mailbox.cpp:205-228 | in every run a request other than the three listed pairs is answered ERROR with EINVAL and zero results and no handler answers it; the outcomes of the others are those that handlers completed with, in order, each once |
| Mailbox.BusyKeepsInv | NEO6502_MMU_V3/mailbox.cpp:273-277 | a post whose doorbell is still owed keeps the protocol invariant |
| Mailbox.SplitPostsRunOnce | NEO6502_MMU_V3/mailbox.cpp:223-301 | with posts in two steps, fields and BUSY first and the doorbell later, in every run whose doorbells ring in time the executed requests are the posted ones in order, each once |
| Mailbox.InTimeUntilDispatch | NEO6502_MMU_V3/mailbox.cpp:223-228 | a doorbell is in time as long as its post is not dispatched |
| Mailbox.DoorbellIsHarmlessIff | NEO6502_MMU_V3/mailbox.cpp:74-76 | a doorbell does no harm in any continuation iff it rings before its request's completion has cleared the doorbell |
| Mailbox.LateDoorbellExecutesAgain | NEO6502_MMU_V3/mailbox.cpp:262-279 | from every state in which a doorbell comes too late, a continuation executes the last request a second time |
| IrqSlot.Scheduler.GenIrq | NEO6502_MMU_V3/scheduler.cpp:54-70 | succeeds iff the slot was free, in flag and state; success takes the slot, failure changes nothing |
| IrqSlot.Scheduler.StartIrqTimer | NEO6502_MMU_V3/scheduler.cpp:109-122 | a period below 65535 arms the timer and clears the slot's bytes, any other stops it |
| IrqSlot.Scheduler.TaskIrqTimer | NEO6502_MMU_V3/scheduler.cpp:129-175 | acknowledgement first, then break, completion and timer in this order; never a failed attempt from a clean slot |
| IrqSlot.TicksAreApart | NEO6502_MMU_V3/scheduler.cpp:109-166 | in every run after a start, without another, below the clock wrap: the first tick comes at least a period after the start, and ticks are at least a period apart |
| IrqSlot.TicksWhenDue | NEO6502_MMU_V3/scheduler.cpp:109-166 | in such a run a poll of a free slot with no break or completion waiting ticks iff the last tick, or else the start, is a period ago |
| IrqSlot.StoppedTimerIsSilent | NEO6502_MMU_V3/scheduler.cpp:95-122 | a stopped timer does not tick until started again, and a period of 65535 or more stops it |
| IrqSlot.SlotFreeAlways | NEO6502_MMU_V3/scheduler.cpp:54-212 | in every run an unoccupied slot has the line high and both bytes clear |
| IrqSlot.PollNeverFails | NEO6502_MMU_V3/scheduler.cpp:143-171 | in every reachable state a poll that finds the slot unoccupied issues the request of highest priority |
| IrqSlot.CompletionGoesByPolling | NEO6502_MMU_V3/scheduler.cpp:155-160 | a filesystem completion request stays until a poll issues it |
| IrqSlot.OnlyBreaksOvertake | NEO6502_MMU_V3/scheduler.cpp:143-160 | only console breaks overtake it, at most one already requested and one per later request, never the timer |
| IrqSlot.CompletionIsIssuedSoon | NEO6502_MMU_V3/scheduler.cpp:129-160 | useful polls before it is issued: at most one for the interrupt in flight, two per break, one per monitor interrupt |
| IrqSlot.IssuedStaysInSlot | NEO6502_MMU_V3/scheduler.cpp:129-141 | over every run an issued interrupt stays in the slot iff it is not acknowledged and no timer command or initialisation comes; meanwhile no poll issues another and the line stays low iff the bus is not reset |
| IrqSlot.LineLowIff | NEO6502_MMU_V3/neobus.cpp:241-250 | in every run the line of an unacknowledged interrupt is low iff the bus was not reset since its issue |
| IrqSlot.ResetWedges | NEO6502_MMU_V3/monitor.cpp:88-97 | counterexample: after a bus reset the issued interrupt keeps the slot with its line high, and every later poll changes nothing |
| IrqSlot.TimerCommandsWithdrawCompletion | NEO6502_MMU_V3/scheduler.cpp:95-122 | a completion that owns the slot and is unacknowledged is withdrawn by starting or stopping the timer |
| IrqSlot.AcknowledgeMidCall | NEO6502_MMU_V3/scheduler.cpp:54-141 | an acknowledgement between two accesses of a call acts as one before or after the call |
| IrqSlot.TimerExactIff | NEO6502_MMU_V3/scheduler.cpp:162-164 | the timer's comparison agrees with elapsed time iff clock and due time have both wrapped or neither has |
| IrqSlot.TimerTicksEarly | NEO6502_MMU_V3/scheduler.cpp:162-164 | counterexample: a tick half a second early just before the clock wraps |
| Fifo.MaskIsRemainder | NEO6502_MMU_V3/fifo.h:51-83 | masking with SIZE-1 is the remainder modulo SIZE, for every power of two |
| Fifo.MaskAfterWrap | NEO6502_MMU_V3/fifo.h:141-156 | 32-bit wrap below zero or above the size does not disturb the masked cursor |
| Fifo.Fifo.Push | NEO6502_MMU_V3/fifo.h:103-115 | appends, and refuses iff SIZE-1 elements are queued |
| Fifo.Fifo.Pop | NEO6502_MMU_V3/fifo.h:118-129 | removes and returns the oldest element, if any |
| Fifo.Fifo.Peek | NEO6502_MMU_V3/fifo.h:132-139 | returns the oldest element without removing it |
| Fifo.Fifo.Unpush | NEO6502_MMU_V3/fifo.h:142-149 | removes the newest element, if any |
| Fifo.Fifo.Unpop | NEO6502_MMU_V3/fifo.h:152-163 | puts an element in front, and refuses iff SIZE-1 elements are queued |
| Fifo.Fifo.Length | NEO6502_MMU_V3/fifo.h:80-83 | the masked difference of the cursors is the number of queued elements |
| Fifo.Fifo.IsFull | NEO6502_MMU_V3/fifo.h:75-78 | full iff SIZE-1 elements are queued |
| Fifo.Fifo.Status | NEO6502_MMU_V3/fifo.h:85-100 | the four status bits say exactly empty, full, data and space |
| ConsoleIo.Console.WriteCpuQ | NEO6502_MMU_V3/input.cpp:26-35 | a keyboard character is queued iff there is room |
| ConsoleIo.Console.ReadCpuQ | NEO6502_MMU_V3/input.cpp:41-49 | an empty queue reads as 0, else the oldest character |
| ConsoleIo.Console.InputBytes | NEO6502_MMU_V3/rp_console_io.cpp:41-52 | takes exactly the queue's prefix up to the length or the first zero, which is consumed but not delivered |
| ConsoleIo.Console.ProcessRead | NEO6502_MMU_V3/rp_console_io.cpp:120-131 | a waiting read moves that prefix to memory in order and nowhere else, or keeps waiting |
| ConsoleIo.Console.ProcessWrite | NEO6502_MMU_V3/rp_console_io.cpp:96-118 | chunk by chunk the bytes handed to the display are the caller's memory in order, modulo 64K, all of them when done |
| ConsoleIo.Console.OutputBytes | NEO6502_MMU_V3/rp_console_io.cpp:54-58 | the display queue after a chunk: everything but NULs and what did not fit |
| ConsoleIo.SmallOutputArrives | NEO6502_MMU_V3/input.cpp:62-66 | output smaller than the free space arrives unchanged and in order, without NULs |
| ConsoleIo.PrintableKeepsAllButNul | NEO6502_MMU_V3/input.cpp:62-66 | output without NULs arrives as it is; a NUL adds nothing, wherever it comes |
| ConsoleIo.FullDisplayDrops | NEO6502_MMU_V3/input.cpp:62-66 | what is queued always stays in front, and a full queue drops what comes |
| Storage.Store.MountCallback | NEO6502_MMU_V3/usb_storage.cpp:489-518 | a stick keeps the slot of its address, else takes the first free one, else none; addresses stay distinct |
| Storage.Store.UnmountCallback | NEO6502_MMU_V3/usb_storage.cpp:520-532 | the stick's handles are closed and its slot freed; every other device's slot, mount and handles are unchanged |
| Storage.Store.Mount | NEO6502_MMU_V3/usb_fatfs.cpp:74-102 | only a present stick can become mounted |
| Storage.Store.Unmount | NEO6502_MMU_V3/usb_fatfs.cpp:108-125 | closes exactly the device's handles, then marks it unmounted |
| Storage.Store.CloseAllForDevice | NEO6502_MMU_V3/rp_fs.cpp:807-827 | closes exactly the file and directory handles of the device |
| Storage.Store.MountTask | NEO6502_MMU_V3/usb_storage.cpp:139-168 | at most one mount per call, of the first stick that has waited long enough, then none for a second; that stick is mounted afterwards unless FatFs refused |
| Storage.Store.RipeAfterHalfASecond | NEO6502_MMU_V3/usb_storage.cpp:149-153 | a stick has waited long enough from 500 ms after it appeared until half the range of the clock has gone by |
| Storage.Store.Open | NEO6502_MMU_V3/rp_fs.cpp:304-344 | a success returns the first free handle, on a mounted device, at position 0; a failure changes no handle; on a mounted drive at most the named file is created or emptied, as the mode says |
| Storage.Store.Close | NEO6502_MMU_V3/rp_fs.cpp:386-395 | frees exactly the handle |
| Storage.Store.Read | NEO6502_MMU_V3/rp_fs.cpp:397-415 | returns the next bytes of the file and moves only this handle's position |
| Storage.Store.Write | NEO6502_MMU_V3/rp_fs.cpp:417-435 | exactly the bytes that f_write stored are at the position, in this file only, every other byte of it as before; the count is returned iff it reported no error |
| Storage.Store.Seek | NEO6502_MMU_V3/rp_fs.cpp:444-455 | exact inside the file; beyond it only a writable file may grow |
| Storage.Store.OpenDir | NEO6502_MMU_V3/rp_fs.cpp:660-699 | a success returns the first free directory handle, on a mounted device |
| Storage.Store.ReadDir | NEO6502_MMU_V3/rp_fs.cpp:711-757 | returns the next entry with a valid long or short 8.3 name, passing over all others |
| Storage.ShownNames | NEO6502_MMU_V3/rp_fs.cpp:729-744 | an entry is listed under its long name if that is a valid 8.3 name, else under its short one, and otherwise not at all; the dot entries never |
| Storage.Store.CloseDir | NEO6502_MMU_V3/rp_fs.cpp:764-772 | frees exactly the directory handle |
| Storage.Store.Delete | NEO6502_MMU_V3/rp_fs.cpp:474-498 | on a mounted drive a success removes the named file and no other; a failure changes nothing |
| Storage.Store.MakeDir | NEO6502_MMU_V3/rp_fs.cpp:576-600 | changes no file of a mounted drive; roots are refused |
| Storage.Store.RemoveDir | NEO6502_MMU_V3/rp_fs.cpp:618-642 | on a mounted drive a success removes at most the file of the name; roots are refused |
| Storage.Store.Rename | NEO6502_MMU_V3/rp_fs.cpp:519-545 | a file moves with its bytes, and no file changes that is neither at nor below the two names |
| Storage.Store.MaskBits | NEO6502_MMU_V3/usb_fatfs.cpp:52-59 | bit d of the mounted mask says whether drive d is mounted |
| Storage.Overwritten | NEO6502_MMU_V3/rp_fs.cpp:427-434 | data written inside the file or at its end is found where it was written, every byte outside the window stays, and the length is the greater of the old one and the end of the window |
| CallerMemory.EffectiveSize | NEO6502_MMU_V3/rp_fs_mailbox.cpp:104-106 | a size word stands for 1..65536 bytes, congruent to it modulo 65536 |
| CallerMemory.ValidRange | NEO6502_MMU_V3/rp_fs_mailbox.cpp:116-127 | accepts iff the range does not wrap |
| CallerMemory.PrivateRange | NEO6502_MMU_V3/rp_fs_mailbox.cpp:173-177 | accepts iff the range is non-empty and within 1..$7FFF |
| CallerMemory.ReadBlock | NEO6502_MMU_V3/rp_fs_mailbox.cpp:179-188 | copies out of the named context iff the range is private; the bus is given back |
| CallerMemory.WriteBlock | NEO6502_MMU_V3/rp_fs_mailbox.cpp:190-199 | copies into the named context iff the range is private, and changes only cells behind its private addresses |
| CallerMemory.ReadPath | NEO6502_MMU_V3/rp_fs_mailbox.cpp:201-226 | returns the printable NUL-terminated text at the address iff there is one of legal length |
| CallerMemory.CopyIsPrivate | NEO6502_MMU_V3/rp_fs_mailbox.cpp:190-199 | a private copy changes no cell other than those behind the context's private addresses |
| CallerMemory.PrivateChangesAreInvisible | NEO6502_MMU_V3/memory_config.cpp:759-833 | such changes are invisible to every other active context when slots 0-7 are private |
| CallerMemory.CopyWrote | NEO6502_MMU_V3/rp_fs_mailbox.cpp:148-151 | in a context that maps its slots apart, a copy that fits is exactly what the context sees at the address, and nothing else it sees changes |
| CallerMemory.AliasesIffSameCell | NEO6502_MMU_V3/memory_config.cpp:759-833 | two addresses of active contexts lead to one RAM cell iff the sharing rule puts their slots on one page and their offsets agree |
| FsExecutor.Executor.ExecRead | NEO6502_MMU_V3/rp_fs_mailbox.cpp:437-471 | rejected iff block, handle or buffer is bad, and then nothing changed; completed: the next bytes of the file are in the buffer and nowhere else; it fails only if the handle may not read or FatFs refused; the write-back is never refused |
| FsExecutor.Executor.ExecWrite | NEO6502_MMU_V3/rp_fs_mailbox.cpp:477-506 | rejected iff block, handle or buffer is bad, and then nothing changed; otherwise the file has exactly the stored bytes of the buffer at the position and every other byte as before, the reply counts them unless the write reported an error, and no other file of any drive changes |
| FsExecutor.Executor.ExecSeek | NEO6502_MMU_V3/rp_fs_mailbox.cpp:513-553 | rejected iff block, handle, mode or 64-bit target is bad; otherwise exactly the target inside the file, and beyond it as far as FatFs grows a writable file; the position is in the block and in the reply; no file but the handle's changes |
| FsExecutor.SeekModes | NEO6502_MMU_V3/rp_fs_mailbox.cpp:519-535 | mode 0 means the signed offset itself, mode 1 the position plus it, mode 2 the end plus it, and any other mode nothing |
| FsExecutor.Executor.ExecTell | NEO6502_MMU_V3/rp_fs_mailbox.cpp:559-579 | the only effect is the position in the argument block |
| FsExecutor.Executor.ExecReadDir | NEO6502_MMU_V3/rp_fs_mailbox.cpp:585-627 | rejected iff block, handle or buffer is bad; completed: the next listable entry is in the buffer, whole; the handle stays open on its device and no other changes |
| FsExecutor.DirentFields | NEO6502_MMU_V3/rp_fs_mailbox.cpp:611-618 | a reader of the published entry finds the name padded with NULs, the attribute at 13 and the size at 14 |
| FsExecutor.Executor.ExecGetCwd | NEO6502_MMU_V3/rp_fs_mailbox.cpp:350-370 | rejected iff block, CWD, room or buffer is bad, and then memory is unchanged; completed: text, NUL and length are delivered |
| FsExecutor.ExecStatus | NEO6502_MMU_V3/rp_fs_mailbox.cpp:632-639 | reports the mask and number of mounted drives, with a ready bit iff there is one |
| FsExecutor.ExecClose | NEO6502_MMU_V3/rp_fs_mailbox.cpp:644-658 | rejected iff no such file is open; otherwise exactly this handle is freed, and the reply says whether FatFs closed it |
| FsExecutor.ExecCloseDir | NEO6502_MMU_V3/rp_fs_mailbox.cpp:663-677 | rejected iff no such directory is open; otherwise exactly this handle is freed, and the reply says whether FatFs closed it |
| FsExecutor.Bytes32Exact | NEO6502_MMU_V3/rp_fs_mailbox.cpp:539-545 | the four published bytes are the 32-bit position |
| PathRequests.ResolveArgument | NEO6502_MMU_V3/rp_fs_mailbox.cpp:228-234 | the target is what the caller's text resolves to; none iff no legal text resolves |
| PathRequests.ExecOpen | NEO6502_MMU_V3/rp_fs_mailbox.cpp:236-266 | rejected iff the request is malformed; completed: the first free handle refers to the named file in the asked mode; a failure has a reason: no stick, no free handle, or a refusal by FatFs; on a mounted drive nothing but the named file changes, as the mode says; mounted drives stay mounted |
| PathRequests.OpenModesMean | NEO6502_MMU_V3/rp_fs_mailbox.cpp:236-266 | what the five mode codes mean: 0 reads; 1 empties and writes; 2 writes; 3 and 4 do both, and 4 creates a missing file |
| PathRequests.ExecChdir | NEO6502_MMU_V3/rp_fs_mailbox.cpp:329-348 | only the caller's own CWD can change, to the directory it named; success iff FatFs opened and closed that directory; no directory handle stays open and no mounted drive changes |
| PathRequests.ExecOpenDir | NEO6502_MMU_V3/rp_fs_mailbox.cpp:311-327 | rejected iff the request is malformed; completed: a previously free directory handle refers to the named device; no mounted drive changes |
| PathRequests.ExecSinglePath | NEO6502_MMU_V3/rp_fs_mailbox.cpp:268-289 | DELETE, MKDIR and RMDIR: rejected iff the request is malformed; success iff FatFs did what the operation asks for to the named path, and then exactly that file goes from its mounted drive; a failure has a reason and changes none |
| PathRequests.ExecRename | NEO6502_MMU_V3/rp_fs_mailbox.cpp:291-309 | rejected iff the request is malformed or names two drives; success iff FatFs renamed the one path to the other; then the file moves and nothing is touched but what lies at or below the two names |
| BulkTransfer.LoadLoop | NEO6502_MMU_V3/rp_fs_mailbox.cpp:404-420 | for every sequence of short reads memory holds exactly the counted prefix of the file |
| BulkTransfer.SaveLoop | NEO6502_MMU_V3/rp_fs_mailbox.cpp:404-420 | for every sequence of write outcomes the file is exactly the counted bytes of the source and those that a failing write stored uncounted |
| BulkTransfer.ExecLoad | NEO6502_MMU_V3/rp_fs_mailbox.cpp:372-429 | success: memory holds the first min(size, file size) bytes; failure: exactly the counted prefix, and only for a reason; handles, mounted drives, context and CPU state as before |
| BulkTransfer.ExecSave | NEO6502_MMU_V3/rp_fs_mailbox.cpp:372-429 | success: the file is exactly the source bytes; failure: exactly the counted ones and those that a failing write stored uncounted, and only for a reason; memory, other files of the mounted drives, handles, context and CPU state as before |
| BulkTransfer.SaveExactIff | NEO6502_MMU_V3/rp_fs_mailbox.cpp:404-429 | after a SAVE that opened its file, the file is exactly what the reply counts iff no write reported an error after storing bytes |
| BulkTransfer.TornSave | NEO6502_MMU_V3/rp_fs.cpp:417-435 | counterexample: a failing write leaves three bytes in the file that the reply does not count |
| FsMailbox.Publish | NEO6502_MMU_V3/mailbox.cpp:96-138 | exactly the eight reply bytes are written, in the order results, status, doorbell |
| FsMailbox.PublishedBytes | NEO6502_MMU_V3/mailbox.cpp:96-138 | each reply byte is visible at its address afterwards |
| FsMailbox.ReplyMeans | NEO6502_MMU_V3/mailbox.cpp:96-138 | what a reader of the published block finds at which address: value, flags and DONE, or partial count, error and ERROR |
| FsMailbox.RepliesFollowTheProtocol | NEO6502_MMU_V3/mailbox.cpp:96-138 | replies are written in the order that the protocol's proofs rely on |
| FsDispatch.ServeRead | NEO6502_MMU_V3/rp_fs_mailbox.cpp:711-713 | READ, over the request's own block: rejected iff malformed; success delivers the next bytes of the handle's file, advances it and reports the end; failure only for a reason |
| FsDispatch.ServeWrite | NEO6502_MMU_V3/rp_fs_mailbox.cpp:715-717 | WRITE: the first n bytes of the caller's buffer are in the handle's file at its position, all other bytes as before, n counted |
| FsDispatch.ServeSeek | NEO6502_MMU_V3/rp_fs_mailbox.cpp:742-744 | SEEK: to the target that mode and offset name, reported in block and reply |
| FsDispatch.ServeTell | NEO6502_MMU_V3/rp_fs_mailbox.cpp:746-748 | TELL: the handle's position, in block and reply |
| FsDispatch.ServeReadDir | NEO6502_MMU_V3/rp_fs_mailbox.cpp:750-752 | READDIR: the next listable entry whole in the caller's buffer, or the end; the handle moves past it |
| FsDispatch.ServeClose | NEO6502_MMU_V3/rp_fs_mailbox.cpp:719-721 | CLOSE: the handle is open before and free after |
| FsDispatch.ServeCloseDir | NEO6502_MMU_V3/rp_fs_mailbox.cpp:754-756 | CLOSEDIR: the directory handle is open before and free after |
| FsDispatch.ServeOpen | NEO6502_MMU_V3/rp_fs_mailbox.cpp:707-709 | OPEN: the reported handle was free and now refers to the named file in the named mode; the file exists, and is empty where the mode says so |
| FsDispatch.ServeSinglePath | NEO6502_MMU_V3/rp_fs_mailbox.cpp:728-732 | DELETE and RMDIR: success takes exactly the named file from its drive; MKDIR: none |
| FsDispatch.ServeRename | NEO6502_MMU_V3/rp_fs_mailbox.cpp:734-736 | RENAME: success moves the file from the one named path to the other |
| FsDispatch.ServeOpenDir | NEO6502_MMU_V3/rp_fs_mailbox.cpp:738-740 | OPENDIR: the reported handle is the first free one and now open on the named device |
| FsDispatch.ServeChdir | NEO6502_MMU_V3/rp_fs_mailbox.cpp:758-760 | CHDIR: on success the caller's slot holds the named directory, otherwise no slot changes |
| FsDispatch.ServeGetCwd | NEO6502_MMU_V3/rp_fs_mailbox.cpp:762-764 | GETCWD: text, NUL and length of the caller's directory at the addresses its block names, iff they fit |
| FsDispatch.ServeSetCwd | NEO6502_MMU_V3/rp_fs_mailbox.cpp:766-784 | CWD_INIT_ROOT and CWD_CLONE: the one slot named becomes a root or the parent's, iff the request is in order |
| FsDispatch.ServeLoad | NEO6502_MMU_V3/rp_fs_mailbox.cpp:723-726 | LOAD: the counted prefix of the named file is in memory at the named address, the whole of it on success |
| FsDispatch.ServeSave | NEO6502_MMU_V3/rp_fs_mailbox.cpp:723-726 | SAVE: the named file is the named range of memory on success; otherwise what the reply says |
| FsDispatch.Dispatch | NEO6502_MMU_V3/rp_fs_mailbox.cpp:701-790 | every operation code gets the answer of its own operation, stated over the request's block and the states before and after: when it is rejected, what a success did, why it failed, and unknown codes are rejected; and it stays in its frame: memory in its reach, the file of its handle or those its block names, its own handle and working directory, no handle left open but the one that OPEN or OPENDIR reports, no drive unmounted |
| FsDispatch.OneFileAtMost | NEO6502_MMU_V3/rp_fs_mailbox.cpp:701-790 | a request other than RENAME changes one file of the mounted drives at most |
| FsMailbox.HandleExec | NEO6502_MMU_V3/rp_fs_mailbox.cpp:689-798 | any legal request gets the answer of its operation and stays within its frame; an illegal process or context is rejected without effect; then exactly the reply bytes are written; an interrupt is requested iff the process is not 0 |
| FsMailbox.HandlersAreIsolated | NEO6502_MMU_V3/rp_fs_mailbox.cpp:173-199 | what a handler changes shows only at aliases of the addresses in its reach: the range that a LOAD asks for, the private half for any other operation |
| FsMailbox.RequestsAreIsolated | NEO6502_MMU_V3/rp_fs_mailbox.cpp:689-798 | the same of the request and its reply together, but for the mailbox bytes |
| FsMailbox.PrivateReachIsIsolated | NEO6502_MMU_V3/memory_config.cpp:813-832 | a request whose reach lies in private slots, LOAD included, is out of sight of every other active context |
| FsMailbox.PrivateLowIsPrivateReach | NEO6502_MMU_V3/rp_fs_mailbox.cpp:173-177 | every operation but LOAD is such a request if slots 0-7 of its context are private |
| FsMailbox.PrivateSlotsAreOutOfReach | NEO6502_MMU_V3/memory_config.cpp:813-832 | no request at all reaches a private slot of another active context |
| Isolation.AllocationIsInjective | NEO6502_MMU_V3/memory_config.cpp:466-469 | an allocated context maps its sixteen slots to different pages |
| Isolation.DefaultRowIsInjective | NEO6502_MMU_V3/mmu.cpp:305-327 | so does a context with the default row |
| Isolation.PowerUp | NEO6502_MMU_V3/NEO6502_MMU_V3.ino:75-129 | from a configuration file to a machine in boot with settled pins; if the file is accepted, no context reaches a cell through two addresses, and the page map is an allocation whenever the demand fits the 128 pages |
| Isolation.BootConfigured | NEO6502_MMU_V3/boot.cpp:107-140 | on such a machine activation succeeds iff the configuration exists, its files are good and no read comes up short, and then leaves in every cell the byte of the last cartridge that covers it |
| Isolation.ServeConfigured | NEO6502_MMU_V3/rp_fs_mailbox.cpp:689-798 | on a configured machine any request leaves everything unchanged that an active context sees out of its reach, except the mailbox bytes, and everything another context sees if its reach is private |
| Isolation.BlockIsSafe | NEO6502_MMU_V3/rp_fs_mailbox.cpp:372-429 | with the mailbox page shared at its place, a handler writes no published or interrupt byte, unless a LOAD asks for a range that contains its address |
| Isolation.InactiveContextAliases | NEO6502_MMU_V3/mmu.cpp:305-327 | a slot of a context that is not active shares the page of an active slot iff it lies below the number of pages in use |
| Isolation.DeliveredIsSeen | NEO6502_MMU_V3/rp_fs_mailbox.cpp:190-199 | on a configured machine what a handler delivers is what the caller sees at the address, and the rest of its context is unchanged |
| Isolation.DeliveredIsSeenThroughAliases | NEO6502_MMU_V3/memory_config.cpp:759-833 | every active context sees delivered bytes at the aliases of their addresses, and everything else as before |
| Isolation.LoadConfigured | NEO6502_MMU_V3/rp_fs_mailbox.cpp:404-429 | LOAD, exactly: the caller sees the counted prefix of the file at its address and the rest as before, and every active context sees that through the slots it shares, and nothing else |
| Isolation.LoadIntoSharedSlotIsSeen | NEO6502_MMU_V3/rp_fs_mailbox.cpp:396-402 | counterexample to isolation of LOAD: with shared upper halves a LOAD to $8000 is seen by the other context |
| Isolation.ReadConfigured | NEO6502_MMU_V3/rp_fs_mailbox.cpp:437-471 | READ: the caller sees the counted bytes of the file from the position on, and everything else as before |

## Left out

- PageAllocator.Allocator.Configure: a store outside its row goes to the following row of the flat map, as the array lies in memory; one past the end of the map (`PageAllocator.StoresStayInRows` excludes both) is dropped here, and what it overwrites is not modelled.
- PageAllocator.Allocator.AllocateAll: for layouts that overlap, which the validator refuses, it is not stated which slot holds which page.
- PageAllocator.Allocator.InitAndConfigure: covers initialisation followed directly by configuration; after other memory accesses the table writes obey `MmuTable.Mmu.TargetSlot` only.
- PageAllocator.PageIdentity: speaks of active contexts; contexts at or above the model's count keep the default rows and alias low pages.
- Neobus.Machine.SnoopReadBlock: takes lengths below 65536, because the 16-bit loop counter of `neobus.cpp` never reaches a larger count; no caller passes one.
- BulkTransfer.ExecSave: on a drive that had to be mounted first, files other than the named one are whatever was on the stick; the old contents are gone once the file was opened, whatever happens afterwards.
- BulkTransfer.SaveExactIff: says nothing of a SAVE whose open failed, beyond that no file but the named one changed; a close that fails loses nothing here, although FatFs may then not have written the file's size.
- BulkTransfer.ExecLoad: the transfer is one uninterrupted call. The mailbox protocol's theorems take handlers to write no byte of the block; `Isolation.BlockIsSafe` says when that holds, and a LOAD over the block is outside them.
- FsDispatch.Dispatch: why a request fails is told from the calls of FatFs, any of which the model lets fail; what makes FatFs refuse one, such as a directory that is not empty, is not modelled. The `f_close` calls of an unplugged stick are not in the history.
- FsMailbox.RequestsAreIsolated: speaks of active contexts; a request for a context below 16 that is not active reaches the default row, whose pages are shared with active slots (`Isolation.InactiveContextAliases`).
- Storage.Store.Rename: says nothing of files below a renamed directory except that they lie below one of the two names, and treats names as case-sensitive text.
- Storage.Store.MakeDir: directories are not entries of the modelled drive, so creating one shows only in the call made and in what does not change.
- Storage.Overwritten: what lies between the old end of a file and a position beyond it, which a handle has only when another one has emptied its file, is left open.
- Mailbox.StepKeepsInv: a post is one step of the 6502; the module's last part splits it in two, with the request fields and BUSY still together. Mailbox re-initialisation during a transfer is not a step.
- ConsoleIo.Console.ProcessWrite: says what is handed to the display queue; characters that find it full are dropped by the firmware, and when they are drained and drawn is not modelled. The 256-byte transfer buffer is a sequence here.
- Storage.Store.Write: two handles on one file share its bytes; FatFs, built without file locking, caches the size per handle, so concurrent truncation is not captured.
- Storage.Store.UnmountCallback: USB callbacks are atomic steps between filesystem calls, although the host stack also runs inside block transfers.
- FatFs, TinyUSB, LittleFS and block I/O: a file is its bytes, a directory a list of entries, and any call may fail or come up short, which is remembered.
- GPIO timing, PWM clock frequency, delays and single-stepping: only settled pins, modes and the order of context and state changes are kept.
- Character-level parsing of the configuration files: lines arrive as section and assignment events with opaque names; `/system.ini` is not modelled.
- The path loop of `rp_fs.cpp` lines 207-245 is the one of the path engine; both use the same component loop here.
- The branch of `rp_fs_path.cpp` line 305 for a working directory of 64 characters or more cannot be taken, since stored directories are shorter than 32.
- Diagnostic counters, serial messages, the boot menu and its fallback profile, the monitor, video, keyboard layouts, fonts and the disassembler.
