# NimrodOS: a verified model of its core

NimrodOS is a small kernel for 32-bit x86. This Dafny project models its
stateful core and proves what that core keeps over whole runs:

- the kernel heap, a first-fit allocator over a linked chain of headers
  (`HeapChain`, `HeapLaws`, `Memory`);
- physical frames and two-level paging (`Pmm`, `PageTables`, `PagingLaws`,
  `PagingWords`, `Vmm`);
- the receive and transmit rings of the E1000 network card, with the device
  acting between any two statements of the driver (`Ring`, `RxRing`, `TxRing`,
  `E1000`);
- the shell's recursive-descent calculator (`CalcGrammar`, `CalcPrinting`,
  `Calculator`);
- the round-robin scheduler with sleeping and killed tasks (`Tasks`, `TaskLaws`,
  `TaskSteps`, `Fairness`, `Scheduler`);
- the RAM filesystem and the descriptors open on it (`FileSystem`, `FileLaws`,
  `FileDescriptors`, `Ramfs`);
- the Internet checksum, IP and echo packets, and byte order
  (`InternetChecksum`, `Packets`);
- the DNS query encoder and response walker (`DnsMessages`, `DnsResponses`, `Dns`);
- itoa and dotted-quad addresses (`Numerals`, `IpText`);
- the text console and the erasing of typed input (`Terminal`, `Erasing`, `Console`);
- the ELF loader over files, heap, memory and scheduler (`ElfImages`,
  `ElfLayout`, `ElfLoader`).

Each component has two layers. The modules with classes (`Memory`, `Vmm`,
`E1000`, `Calculator`, `Scheduler`, `Ramfs`, `Console`, `ElfLoader`) follow the C
code statement by statement over mutable state, and each method is proved equal
to a function on values. The other modules hold those functions and the theorems
about them: invariants of every run, refinement of a simpler object, round trips.
`Machine` holds the integer widths; 32-bit wraparound, truncating division and
signed characters are modelled where the code depends on them.

Lemmas whose names end in `Exactly` say what a step does in the numbers of the
source or of the format it follows, without naming the function that computes it.

Some properties one would expect are false of the code. Each is stated as the
exact condition under which it holds: kmalloc requests near 2^32
(`HeapLaws.KmallocCovers`), frame 0 (`Pmm.ZeroMeansExhausted`), device ranges at the
top of the address space (`PagingLaws.MmioPagesCoverRange`), a full transmit ring
(`TxRing.DeviceCanAdvance`, with `FullIsStuck` and `FullIsReachable`), sleeping
across the wrap of the tick counter (`TaskLaws.SleepTakesEffect`,
`Fairness.WrapLosesSleeper`), the calculator at the least number divided by -1
(`CalcPrinting.TrapsExactly`, `CalcPrinting.InRangeButTraps`), the task count
after a kill (`TaskLaws.CountIsLivePlusDrift`), the revival of a task killed while
current (`TaskLaws.DeadStaysDeadUnlessAsleep`, `TaskLaws.KilledSleeperRevives`),
PTE_USER on a table that exists (`PageTables.UserFlagOfSlot`), host names with long
labels (`DnsMessages.QueryAsksForHost`), compressed names in DNS messages
(`DnsResponses.SkipsQuestion`, `DnsResponses.SkipsName`,
`DnsResponses.ShortAnswersExactly`, `DnsResponses.MixedNameIsMissed`), long file names
(`FileLaws.LongNamesAreLost`, `FileLaws.CreateLaw`), long input and tabs
(`Erasing.EraseUndoesTyping`, `Erasing.TabIsLeftBehind`).

The ring semantics are those of sections 3.2.6 and 3.4 of the Intel PCI/PCI-X
Family of Gigabit Ethernet Controllers Software Developer's Manual: the device
owns the descriptors from its head register up to its tail register, an equal
head and tail mean that it owns none, and it sets DD when it is done.

To check everything: `dafny verify dfyconfig.toml`.

## Model

| member | source | states |
|---|---|---|
| `Memory.Heap.MemoryInit` | kernel/memory.c:17-25 | the chain is one free block of HEAP_SIZE minus a header, on the first page after the kernel |
| `Memory.Heap.Kmalloc` | kernel/memory.c:27-50 | the code over linked headers carries out `Alloc` on the chain of blocks for the request rounded up in 32 bits, and returns its address; `AllocExact` says where that is and `AllocSizeExactly` how much |
| `Memory.Heap.FindFit` | kernel/memory.c:33-48 | the walk stops at the first free block that is large enough, or proves that `Alloc` fails |
| `Memory.Heap.Take` | kernel/memory.c:36-45 | the block found is replaced on the chain by its split, every other header and link staying valid |
| `Memory.Heap.Kfree` | kernel/memory.c:52-67 | for null or any payload address of the chain, the code carries out `Release`: mark the block and merge all free neighbours |
| `Memory.Heap.CoalescePass` | kernel/memory.c:57-66 | the loop terminates and computes `Coalesce`; `CoalesceLaw` says what that leaves |
| `Memory.Heap.MergeNext` | kernel/memory.c:61-62 | one merge replaces two neighbouring blocks by one that covers both and their headers |
| `Memory.Heap.MemoryUsed` | kernel/memory.c:69-77 | the sum of the sizes of the live blocks |
| `Memory.Heap.MemoryFree` | kernel/memory.c:79-87 | the sum of the sizes of the free blocks |
| `HeapChain.Conservation` | kernel/memory.c:69-87 | memory_used plus memory_free plus 12 bytes for every block is the size of the heap |
| `HeapChain.BlocksDisjoint` | kernel/memory.c:27-67 | blocks occupy disjoint address ranges in the order of the chain |
| `HeapChain.Canonical` | kernel/memory.c:52-67 | two chains that tile the heap without free neighbours and have the same live blocks are equal |
| `HeapLaws.AllocGood` | kernel/memory.c:27-50 | kmalloc keeps the tiling, the 4-byte alignment of sizes, and never leaves two free neighbours |
| `HeapLaws.AllocAddsOne` | kernel/memory.c:35-46 | a successful kmalloc adds exactly one live block, at the returned address, of at least the requested and at most 28 bytes more; no other block is moved or resized; a failed one changes nothing |
| `HeapLaws.AllocWithin` | kernel/memory.c:35-46 | the payload returned lies inside the heap |
| `HeapLaws.AllocExact` | kernel/memory.c:33-49 | kmalloc returns 0 exactly when no address in the heap has room for a header and the bytes clear of all live blocks; otherwise it returns the lowest such address |
| `HeapLaws.AllocSizeExactly` | kernel/memory.c:36-44 | of the gap at the returned address, up to the next live block or the heap end, kmalloc hands out the aligned size if more than 28 bytes would be left over, and otherwise all of it; the live blocks are the old ones and this one |
| `HeapLaws.BaseIsNextPage` | kernel/memory.c:19 | the heap starts at the first page boundary at or after the kernel end |
| `HeapLaws.AlignCovers` | kernel/memory.c:31 | rounding up covers the request if and only if the request is at most 0xFFFFFFFC; the three larger ones wrap to 0 |
| `HeapLaws.KmallocCovers` | kernel/memory.c:27-50 | the block a successful kmalloc hands out holds the request if and only if the request is at most 0xFFFFFFFC |
| `HeapLaws.CoalesceLaw` | kernel/memory.c:57-66 | coalescing keeps tiling and live blocks and leaves no two free neighbours |
| `HeapLaws.ReleaseLaw` | kernel/memory.c:52-67 | kfree removes exactly the block of the pointer from the live blocks and keeps the chain well formed |
| `HeapLaws.ReleaseUndoesAlloc` | kernel/memory.c:27-67 | kfree of what kmalloc returned restores the whole chain, free space included |
| `HeapLaws.RunGood` | kernel/memory.c:27-67 | every run of kmalloc and kfree keeps the chain tiling the heap without free neighbours |
| `HeapLaws.RunKeepsBlock` | kernel/memory.c:27-67 | over every run a block handed out keeps its address and size until it is freed |
| `HeapLaws.ReachableHeap` | kernel/memory.c:17-87 | every reachable heap tiles its 4 MB, accounts for every byte, is determined by its live blocks, and is the single block of memory_init when none is live |
| `HeapLaws.ReleaseOrderIrrelevant` | kernel/memory.c:52-67 | freeing the same pointers in any order gives the same chain; freeing all live ones gives the chain of memory_init |
| `HeapLaws.NothingLiveNothingUsed` | kernel/memory.c:69-77 | with no live block memory_used is 0 |
| `HeapLaws.AllocRaisesUsed` | kernel/memory.c:69-77 | a successful kmalloc raises memory_used by the size of the block it hands out |
| `HeapLaws.ReleaseLowersUsed` | kernel/memory.c:69-77 | kfree lowers it by the size of the block given back |
| `Pmm.SetFrame` | kernel/pmm.c:8-10 | setting the bit of a frame removes that frame from the free ones and no other |
| `Pmm.ClearFrame` | kernel/pmm.c:12-14 | clearing the bit of a frame adds that frame to the free ones and no other |
| `Pmm.FrameAllocator.BitmapSet` | kernel/pmm.c:8-10 | as above, on the bitmap in place |
| `Pmm.FrameAllocator.BitmapClear` | kernel/pmm.c:12-14 | as above, on the bitmap in place |
| `Pmm.FrameAllocator.BitmapTest` | kernel/pmm.c:16-18 | tells whether the frame is taken |
| `Pmm.FrameAllocator.PmmInit` | kernel/pmm.c:20-34 | exactly the frames from the rounded-up kernel end on are free, and the hint is below all of them |
| `Pmm.FrameAllocator.PmmAllocFrame` | kernel/pmm.c:36-44 | the scan from the hint returns and takes the lowest free frame of all, keeping the hint below every free frame |
| `Pmm.FrameAllocator.PmmFreeFrame` | kernel/pmm.c:46-52 | the frame becomes free, nothing else changes, the hint stays below every free frame, and one frame more is free unless it was free already |
| `Pmm.FrameAllocator.PmmFramesUsed` | kernel/pmm.c:54-60 | used and free frames together are always 4096 |
| `Pmm.FrameAllocator.PmmFramesFree` | kernel/pmm.c:62-64 | the number of free frames |
| `Pmm.FirstFreeIsLeast` | kernel/pmm.c:36-44 | the scan from a hint that is below all free frames finds the lowest free frame, or none only if none is free |
| `Pmm.ZeroMeansExhausted` | kernel/pmm.c:36-44 | the return value 0 means that no frame is left if and only if frame 0 is not free |
| `Pmm.AllocExactly` | kernel/pmm.c:36-44 | the address returned is 4096 times the lowest free frame, or 0 if none is free |
| `Pmm.AllocTakesOne` | kernel/pmm.c:36-44 | each allocation takes exactly one frame away unless none is free |
| `Vmm.AddressSpace.VmmInit` | kernel/vmm.c:28-44 | the loops leave the directory and the identity tables, and nothing else changed |
| `Vmm.AddressSpace.VmmMapPage` | kernel/vmm.c:46-67 | the code over physical memory and the bitmap carries out `MapPage` and keeps table ownership |
| `Vmm.AddressSpace.EnsureTable` | kernel/vmm.c:50-60 | a directory slot without a table gets a cleared lowest free frame; without one nothing changes |
| `Vmm.AddressSpace.VmmUnmapPage` | kernel/vmm.c:69-79 | the code carries out `UnmapPage` and keeps table ownership |
| `Vmm.AddressSpace.VmmGetPhysical` | kernel/vmm.c:81-91 | the software walk returns what the two-level tables say for the address |
| `Vmm.AddressSpace.VmmMapMmio` | kernel/vmm.c:93-101 | the loop, its end computed in 32 bits, carries out `MapRange` page by page |
| `PageTables.AddTableLaw` | kernel/vmm.c:50-60 | a new table comes from the free frames, maps nothing, shares its frame with no other slot, and leaves every other slot and page alone |
| `PageTables.SetEntryLaw` | kernel/vmm.c:62-64 | writing one entry of a table changes exactly one page of the map the tables represent |
| `PageTables.MapPageLaw` | kernel/vmm.c:46-67 | vmm_map_page changes exactly the page of the address; out of frames it changes nothing |
| `PageTables.MapPageSlots` | kernel/vmm.c:50-60 | it touches one directory slot and uses a frame only if that slot had no table |
| `PageTables.UserFlagOfSlot` | kernel/vmm.c:50-60 | after vmm_map_page the directory entry of the page has PTE_USER if and only if it had it before or, being new, the call asks for it |
| `PageTables.MapThenTranslate` | kernel/vmm.c:46-91 | afterwards vmm_get_physical joins the frame of the physical address with the page offset, and translates every other page as before |
| `PageTables.UnmapPageLaw` | kernel/vmm.c:69-79 | vmm_unmap_page removes exactly that page and frees no frame |
| `PagingLaws.InitLaw` | kernel/vmm.c:28-39 | after vmm_init exactly the first 16 MB are mapped, each page to itself and writable |
| `PagingLaws.InitStartsIdentity` | kernel/vmm.c:28-39 | vmm_init establishes the invariant of `RunKeepsIdentity` |
| `PagingLaws.MapIfAbsentLaw` | kernel/vmm.c:96-99 | one round of vmm_map_mmio changes at most its own page, and only if it did not translate to a nonzero address |
| `PagingLaws.MapRangeLaw` | kernel/vmm.c:93-101 | pages outside the range and pages that already translate to a nonzero address keep their entry; each other page of the range maps to itself unless the frames ran out |
| `PagingLaws.MapRangeComplete` | kernel/vmm.c:93-101 | with a free frame for every table that is missing, every such page of the range maps to itself |
| `PagingLaws.MmioPagesCoverRange` | kernel/vmm.c:94-96 | the pages visited cover the requested range if and only if the range is empty or its rounded end does not wrap around 32 bits |
| `PagingLaws.MmioIsMapped` | kernel/vmm.c:93-101 | without wraparound and with frames enough, every address of the range translates to itself unless its page already translated, in which case it keeps its translation |
| `PagingLaws.ApplyKeepsIdentity` | kernel/vmm.c:46-101 | an operation keeps the identity map of the first 16 MB if and only if it does not unmap one of its pages or map one to anything but itself, present and writable; vmm_map_mmio always keeps it |
| `PagingLaws.RunKeepsIdentity` | kernel/vmm.c:28-101 | over every run each address below 16 MB translates to itself, and each table is a reserved frame reachable at its own address |
| `PagingWords.PageEntryExactly` | kernel/vmm.c:63-64 | the entry of the page holds the frame of the physical address and the flags of the call with the present bit set |
| `PagingWords.NewTableExactly` | kernel/vmm.c:51-60 | word for word: a new table lies, all zero, in the lowest free frame, which is taken, and its directory entry is present, writable and open to user programs if the call asks for it |
| `PagingWords.SetEntryExactly` | kernel/vmm.c:62-64 | word for word: writing a page entry changes one word, at its place in the table the directory points to |
| `PagingWords.MapPageExactly` | kernel/vmm.c:46-67 | vmm_map_page is the new table, exactly where the directory entry is not present, followed by the page entry |
| `PagingWords.UnmapPageExactly` | kernel/vmm.c:69-79 | word for word: vmm_unmap_page clears the one entry, and nothing if there is no table |
| `PagingWords.PhysicalExactly` | kernel/vmm.c:81-91 | vmm_get_physical in terms of the two words it reads |
| `PagingWords.InitExactly` | kernel/vmm.c:28-39 | every word of memory after vmm_init |
| `E1000.RxDriver.constructor` | drivers/e1000.c:151-165 | e1000_rx_init establishes the initial state of the receive ring |
| `E1000.RxDriver.IrqHandler` | drivers/e1000.c:184-201 | with the device filling descriptors between any two statements, the handler is a run of the receive machine that terminates with every frame received before it dealt with; net_handle_packet has been given exactly those of 1 to 2048 bytes, in order and each once |
| `E1000.RxDriver.Deliver` | drivers/e1000.c:190-193 | passing a frame on, or skipping one that is empty or too long, is a run of the receive machine |
| `E1000.RxDriver.Recycle` | drivers/e1000.c:195-198 | giving the descriptor back is a run of the receive machine ending at the head of the loop |
| `E1000.RxDriver.AdvanceTail` | drivers/e1000.c:196-198 | advancing rx_cur and then the tail register is a run of the receive machine |
| `RxRing.DriverStepInv` | drivers/e1000.c:189-199 | each statement of the handler keeps the invariant of the ring |
| `RxRing.DeviceStepInv` | drivers/e1000.c:157-161 | each frame stored by the device keeps it |
| `RxRing.RunInv` | drivers/e1000.c:184-201 | every interleaving keeps it |
| `RxRing.NothingLost` | drivers/e1000.c:151-201 | at the head of the loop, frames dealt with followed by frames waiting are the frames received in order, and likewise for those the network stack accepts; marked descriptors are those from rx_cur to the head register; the tail register is one behind rx_cur |
| `RxRing.AcceptedExactly` | drivers/e1000.c:190-193 | what is passed on are the frames of 1 to 2048 bytes, in order and each once |
| `RxRing.DeliveredIsPrefix` | drivers/e1000.c:184-201 | at every moment what is dealt with is an unaltered prefix of what was received, at most 31 frames behind |
| `E1000.TxDriver.constructor` | drivers/e1000.c:167-182 | e1000_tx_init establishes the initial state of the transmit ring |
| `E1000.TxDriver.Send` | drivers/e1000.c:302-324 | with the device sending between any two statements, e1000_send is a run of the transmit machine; 0 means exactly this frame was handed over, -1 or -2 that nothing was; -2 is returned if and only if all eight descriptors were pending at the call |
| `E1000.TxDriver.WaitForSlot` | drivers/e1000.c:305-308 | the poll for a descriptor fails if and only if all eight were pending, however the device proceeds |
| `E1000.TxDriver.Fill` | drivers/e1000.c:310-311 | copying data and length is a run of the transmit machine |
| `E1000.TxDriver.Publish` | drivers/e1000.c:312-313 | setting the command and clearing the status is a run of the transmit machine |
| `E1000.TxDriver.HandOver` | drivers/e1000.c:315-317 | advancing tx_cur and writing the tail hands exactly this frame to the device |
| `E1000.TxDriver.WaitForCompletion` | drivers/e1000.c:319-323 | the wait ends, by completion or timeout, without handing anything over |
| `TxRing.DriverStepInv` | drivers/e1000.c:302-324 | each statement of e1000_send keeps the invariant of the ring |
| `TxRing.DeviceStepInv` | drivers/e1000.c:174-180 | each transmission keeps it |
| `TxRing.RunInv` | drivers/e1000.c:302-324 | every interleaving, timeouts included, keeps it |
| `TxRing.WireIsPrefix` | drivers/e1000.c:167-182 | over every interleaving the wire carries an unmodified in-order prefix of the frames accepted |
| `TxRing.DoneMeansSent` | drivers/e1000.c:319-323 | seeing the descriptor done means this frame and all before it are sent |
| `TxRing.PendingUntouched` | drivers/e1000.c:307-313 | no step rewrites the buffer or length of a frame that is handed over and not yet sent |
| `TxRing.AvailableUnlessFull` | drivers/e1000.c:305-308 | the next descriptor is marked done if and only if fewer than eight frames are pending |
| `TxRing.GivesUpAfter10000Polls` | drivers/e1000.c:305-308 | on a full ring the call returns at the 10000th reading of the status and not before |
| `TxRing.DeviceCanAdvance` | drivers/e1000.c:315-317 | the device can send if and only if one to seven frames are pending |
| `TxRing.FullIsStuck` | drivers/e1000.c:315-317 | with all eight pending, head equals tail and no frame is ever sent or accepted again |
| `TxRing.FullIsReachable` | drivers/e1000.c:302-324 | eight sends that time out waiting for completion reach that state from reset |
| `TxRing.SendWithoutDevice` | drivers/e1000.c:302-324 | a send into a ring that is not full is accepted and returns even if the device stands still |
| `Calculator.Calc.CalcNumber` | shell/shell.c:1240-1257 | the cursor code returns the value, rest and error of `Number` and never passes the NUL, or traps exactly when the divisions logged by `Number` include the least number by -1 |
| `Calculator.Calc.CalcOperand` | shell/shell.c:1244-1256 | the same for what follows spaces and sign |
| `Calculator.Calc.CalcDigits` | shell/shell.c:1251-1255 | the digit loop accumulates in 32 bits |
| `Calculator.Calc.CalcTerm` | shell/shell.c:1259-1279 | the loop over * / % computes `Term` within the text on every text, and traps in the processor if and only if it reaches / or % with -2147483648 and -1 |
| `Calculator.Calc.CalcExpr` | shell/shell.c:1281-1290 | the loop over + and - computes `Expr` within the text on every text, and traps if and only if a term does |
| `CalcPrinting.ReadNumber` | shell/shell.c:1240-1257 | a literal, negation or parenthesised tree is read back as its 32-bit value with its divisions in order |
| `CalcPrinting.ReadParentheses` | shell/shell.c:1244-1249 | a parenthesised tree is read back up to its closing parenthesis |
| `CalcPrinting.ReadTerm` | shell/shell.c:1259-1279 | a product is read left to right with its 32-bit value and divisions |
| `CalcPrinting.ReadExpr` | shell/shell.c:1281-1290 | a sum is read left to right with its 32-bit value and divisions |
| `CalcPrinting.ReadsEveryTree` | shell/shell.c:1234-1290 | for every tree without zero divisor, literals of any length, its text with minimal parentheses and any legal spaces gives its value in wrapping 32-bit arithmetic, is consumed whole, and carries out the divisions of the tree in order |
| `CalcPrinting.CalculatorIsCorrect` | shell/shell.c:1234-1290 | if moreover nothing overflows, the value is the exact value of the tree, no error is set and nothing traps |
| `CalcPrinting.DefinedIsExact` | shell/shell.c:1240-1290 | without overflow, wrapping arithmetic is exact and no division is of the least number by -1 |
| `CalcPrinting.TrapsExactly` | shell/shell.c:1264-1275 | the text of a tree traps if and only if some / or % in it has operands -2147483648 and -1 |
| `CalcPrinting.ErrsExactly` | shell/shell.c:1264-1275 | the text of a tree sets the error flag if and only if some divisor in it, computed in registers, is zero |
| `CalcPrinting.MissingOperand` | shell/shell.c:1250 | every text in which spaces and an optional minus are followed by neither a digit nor a parenthesis sets the error flag |
| `CalcPrinting.MissingAfterParenthesis` | shell/shell.c:1244-1250 | so does such a text behind an opening parenthesis, negated or not |
| `CalcPrinting.MissingAfterOperator` | shell/shell.c:1259-1290 | so does such a text behind the text of a tree, any spaces and any operator |
| `CalcPrinting.UnclosedIsAccepted` | shell/shell.c:1247 | a closing parenthesis may be missing at the end of the text |
| `CalcPrinting.StopsAtForeign` | shell/shell.c:1281-1290 | behind the text of a tree, anything that is neither a digit nor, after spaces, an operator is left unread without error |
| `CalcPrinting.OperatorsExactly` | shell/shell.c:1259-1290 | what each of + - * / % computes |
| `CalcPrinting.SkipSpacesExactly` | shell/shell.c:1241 | exactly the leading spaces are skipped |
| `Machine.TruncExactly` | shell/shell.c:1268-1274 | quotient and remainder make up the dividend, and the remainder is smaller than the divisor and has the sign of the dividend |
| `Machine.WrapKeepsLowBits` | shell/shell.c:1251-1255 | a register keeps the low 32 bits of a result |
| `CalcPrinting.InRangeButTraps` | shell/shell.c:1264-1275 | the text (-2147483647-1)/-1, every number of which is in range, traps |
| `Scheduler.Kernel.constructor` | kernel/task.c:13-21 | task_init establishes the initial table |
| `Scheduler.Kernel.FindNextTask` | kernel/task.c:77-98 | the loops wake every expired sleeper and return the next ready task after the current one, cyclically |
| `Scheduler.Kernel.TaskSchedule` | kernel/task.c:100-116 | the code carries out `Schedule`; `ScheduleLaw` says what that is |
| `Scheduler.Kernel.TaskCreate` | kernel/task.c:23-52 | the lowest unused slot becomes ready, the count one higher, and the slot is returned; -1 and no change exactly if none is unused |
| `Scheduler.Kernel.TaskYield` | kernel/task.c:54-56 | yielding is one call of the scheduler |
| `Scheduler.Kernel.TaskExit` | kernel/task.c:58-66 | the current task is dead, the count one lower, and the scheduler has run |
| `Scheduler.Kernel.TaskSleepTicks` | kernel/task.c:71-75 | the current task sleeps until the 32-bit sum of tick and duration, and the scheduler has run |
| `Scheduler.Kernel.Kill` | shell/shell.c:779-790 | a used, living task other than task 0 becomes dead; anything else is refused |
| `Scheduler.Kernel.TimerCallback` | drivers/timer.c:11-19 | the tick count advances and, with preemption on, every multiple of five calls the scheduler |
| `Tasks.ScheduleLaw` | kernel/task.c:77-116 | after task_schedule exactly the current task is running; it was ready, running or an expired sleeper; the fallback to task 0 is never taken |
| `Tasks.StepInv` | kernel/task.c:13-116 | every step keeps task 0 able to run and nothing but the current task running |
| `TaskSteps.InitialExactly` | kernel/task.c:13-21 | the table that task_init leaves, slot by slot |
| `TaskSteps.CreateExactly` | kernel/task.c:23-52 | task_create makes the lowest unused slot ready with wake tick 0, raises the count, and changes nothing else; nothing at all if no slot is unused |
| `TaskSteps.ScheduleExactly` | kernel/task.c:77-116 | task_schedule slot by slot: expired sleepers and the task that was running become ready, the next task runs, and nothing else changes |
| `TaskSteps.NextTaskExactly` | kernel/task.c:86-97 | the next task is the first one after the current, cyclically, that is ready or an expired sleeper; without any the current one goes on |
| `TaskSteps.ExitExactly` | kernel/task.c:58-66 | task_exit makes the current task dead, lowers the count, and schedules |
| `TaskSteps.SleepExactly` | kernel/task.c:71-75 | task_sleep_ticks sets the wake tick to tick plus duration in 32 bits, puts the task to sleep, and schedules |
| `TaskSteps.KillExactly` | shell/shell.c:779-790 | kill makes a used task other than task 0 that is not dead dead, and changes nothing else |
| `TaskSteps.TickExactly` | drivers/timer.c:11-19 | the timer counts in 32 bits and schedules exactly at multiples of five with preemption on |
| `TaskLaws.ReachableIsSafe` | kernel/task.c:13-116 | the same in every reachable state; the task chosen, task 0 included, is ready, running or past its wake tick |
| `TaskLaws.ScheduleSlot` | kernel/task.c:77-116 | what one call of task_schedule may do to any slot |
| `TaskLaws.RunKeepsSlot` | kernel/task.c:23-31 | over every run a used slot is never reused, and a dead task that is not current never runs again; `DeadStaysDeadUnlessAsleep` covers the current one |
| `TaskLaws.StepKeepsDead` | kernel/task.c:58-116 | a step keeps a dead task dead if and only if it does not put that task to sleep while it is current |
| `TaskLaws.DeadStaysDeadUnlessAsleep` | kernel/task.c:71-75 | over every run a dead task stays dead throughout if and only if it is never put to sleep while current |
| `TaskLaws.KilledSleeperRevives` | shell/shell.c:790 | the current task, killed and then asking to sleep, is alive again |
| `TaskLaws.SleepsUntilWakeTick` | kernel/task.c:71-84 | without tick wraparound a sleeper does not run before its wake tick, over every run |
| `TaskLaws.SleepTakesEffect` | kernel/task.c:71-84 | sleeping puts the task to sleep if and only if its wake tick does not wrap; otherwise the same call wakes it |
| `TaskLaws.StepCount` | kernel/task.c:50-60 | how each step changes the difference between task_count_val and the number of live tasks |
| `TaskLaws.CountIsLivePlusDrift` | kernel/task.c:50-60 | over every run task_count_val is the number of live tasks plus the kills not counted down and minus exits and sleeps of killed current tasks |
| `TaskLaws.KillFreeCountIsExact` | kernel/task.c:118-120 | from boot without kills task_count is the number of live tasks |
| `Fairness.ScheduleBringsNearer` | kernel/task.c:86-91 | each call of task_schedule strictly lowers the cyclic distance of a waiting task, or runs it |
| `Fairness.RunsWithinDistance` | kernel/task.c:77-116 | a ready task that is not killed runs within as many calls as it is slots away, whatever else happens; so does a sleeper past its wake tick if the counter does not wrap before the first of these calls |
| `Fairness.RunsWithinFifteenCalls` | kernel/task.c:77-116 | within fifteen calls in any case |
| `Fairness.TicksForceCalls` | drivers/timer.c:11-19 | with preemption on, at least every fifth tick calls the scheduler |
| `Fairness.RunsWithin75Ticks` | drivers/timer.c:11-19 | with preemption on, a ready task that is not killed runs within 75 ticks, across a wrap of the counter too; so does a sleeper past its wake tick unless the counter is at its last value |
| `Fairness.PreemptCallsBeforeWrap` | drivers/timer.c:11-19 | with preemption on, the last tick before the wrap calls the scheduler |
| `Fairness.SleeperRunsAfterWakeTick` | kernel/task.c:71-91 | with preemption on, a sleeper that is not killed runs within 75 ticks of its wake tick |
| `Fairness.WrapLosesSleeper` | kernel/task.c:80-84 | at the last value of the counter, the next tick passes over a sleeper past its wake tick if and only if the wake tick is not 0 |
| `Ramfs.FileStore.constructor` | kernel/ramfs.c:6-8 | ramfs_init leaves no file |
| `Ramfs.FileStore.FindFile` | kernel/ramfs.c:10-17 | the first used slot of that name, or none |
| `Ramfs.FileStore.FindFreeSlot` | kernel/ramfs.c:19-24 | the first unused slot, or none |
| `Ramfs.FileStore.RamfsCreate` | kernel/ramfs.c:26-35 | the code carries out `Create`, return codes included |
| `Ramfs.FileStore.RamfsWrite` | kernel/ramfs.c:37-47 | the code carries out `Write`, creating and clamping as needed |
| `Ramfs.FileStore.RamfsAppend` | kernel/ramfs.c:49-57 | the code carries out `Append`, clamped to the space left |
| `Ramfs.FileStore.RamfsRead` | kernel/ramfs.c:59-65 | the code returns the bytes of `Read`, or the error |
| `Ramfs.FileStore.RamfsDelete` | kernel/ramfs.c:67-74 | the code carries out `Delete` |
| `Ramfs.FileStore.RamfsList` | kernel/ramfs.c:86-95 | the names of the first files in slot order, each once, as many as asked for or exist |
| `FileSystem.SlotChange` | kernel/ramfs.c:26-74 | changing one slot changes exactly one entry of the map of files |
| `FileSystem.FullMeans64` | kernel/ramfs.c:19-24 | there is no free slot if and only if 64 files exist |
| `FileSystem.StoredExactly` | kernel/ramfs.c:30-31 | up to 31 characters of a name are kept |
| `FileSystem.InOrderExactly` | kernel/ramfs.c:86-95 | names listed later are found in later slots |
| `FileLaws.CreateLaw` | kernel/ramfs.c:26-35 | adds an empty file under the name as stored; -1 if it exists, -2 if 64 exist, and then no change; names stay unique if and only if no file has the stored name yet, which every name of at most 31 characters ensures |
| `FileLaws.WriteLaw` | kernel/ramfs.c:37-47 | the file holds exactly the first 4096 bytes written, whatever it held; -1 only when it would be a 65th file |
| `FileLaws.AppendLaw` | kernel/ramfs.c:49-57 | the file is extended by as many bytes as fit, and their number is returned |
| `FileLaws.ReadLaw` | kernel/ramfs.c:59-65 | a read returns the first bytes of the file, as many as fit |
| `FileLaws.DeleteLaw` | kernel/ramfs.c:67-74 | exactly the named file disappears |
| `FileLaws.NoStaleData` | kernel/ramfs.c:26-74 | nothing of a deleted file can be read through a file created afterwards under any name |
| `FileLaws.LongNamesAreLost` | kernel/ramfs.c:26-35 | a file just created is found under its name if and only if the name has at most 31 characters |
| `Ramfs.FdTable.Alloc` | kernel/syscall.c:18-28 | the lowest unused entry gets the name; -1 and no change if there is none |
| `Ramfs.FdTable.Free` | kernel/syscall.c:30-36 | exactly the entry of a descriptor in range becomes unused |
| `Ramfs.FdTable.ToName` | kernel/syscall.c:38-44 | the name of an open descriptor, nothing for any other number |
| `Ramfs.Syscalls.Open` | kernel/syscall.c:101-105 | the code is the open step on files and descriptors |
| `Ramfs.Syscalls.Close` | kernel/syscall.c:107-111 | the code is the close step |
| `Ramfs.Syscalls.WriteFile` | kernel/syscall.c:70-73 | the file branch of write is the write step |
| `Ramfs.Syscalls.ReadFile` | kernel/syscall.c:95-98 | the file branch of read returns what the name stands for |
| `FileDescriptors.StepInv` | kernel/syscall.c:101-150 | every call keeps file names unique and short and descriptor names short |
| `FileDescriptors.OpenLaw` | kernel/syscall.c:101-105 | a successful open returns a descriptor different from all open ones, denoting the name; it fails if and only if the file does not exist or all sixteen are open |
| `FileDescriptors.OpenExactly` | kernel/syscall.c:18-28 | a successful open returns the lowest number from 4 to 19 that is not open |
| `FileDescriptors.CloseExactly` | kernel/syscall.c:30-36 | close refuses 0 to 3 with -1 and otherwise returns 0; the descriptor then denotes nothing and every other keeps its meaning |
| `FileDescriptors.ClosedExactly` | kernel/syscall.c:70-98 | reading and writing through a descriptor that is not open fails and changes nothing |
| `FileDescriptors.DescriptorKeepsName` | kernel/syscall.c:14-44 | over every run a descriptor denotes the same name until it is closed, and open does not return it again |
| `FileDescriptors.WriteThenRead` | kernel/syscall.c:70-98 | what is written through a descriptor is read back through any descriptor of the same name |
| `Packets.ChecksumLoop` | net/net.c:99-113 | the loop over words loaded from memory computes `Checksum`; neither the sum nor the fold overflows, and the fold ends |
| `InternetChecksum.ChecksumIsOnesComplement` | net/net.c:99-113 | adding in 32 bits and folding at the end is one's complement addition of all words (sections 1 and 2 of RFC 1071) |
| `InternetChecksum.FoldIsRep` | net/net.c:109-111 | the fold gives the one's complement representative of the sum, zero only for zero |
| `InternetChecksum.SumFits` | net/net.c:101-108 | the accumulator does not overflow for any 16-bit length |
| `InternetChecksum.StoredChecksumVerifies` | net/net.c:99-113 | with its checksum stored in a zeroed even field a buffer checks to zero, as the machine computes it and in network byte order |
| `Packets.IpHeaderLayout` | net/net.c:242-251 | the header has the fields of section 3.1 of RFC 791, most significant byte first |
| `Packets.Sender.IpPacket` | net/net.c:238-254 | the packet is that header with a checksum that verifies, followed by the payload; the id advances |
| `Packets.EchoReply` | net/net.c:282-301 | the reply carries type 0, code 0, the id, sequence and payload of the request, and a checksum that verifies |
| `Packets.HtonsIsNetworkOrder` | net/net.h:7-8 | a converted 16-bit value is stored most significant byte first; converting twice changes nothing |
| `Packets.HtonlIsNetworkOrder` | net/net.h:9-13 | the same for 32 bits |
| `Dns.BuildQuery` | net/net.c:443-475 | the bytes in the buffer are `Query` for the host name |
| `Dns.EncodeName` | net/net.c:457-468 | the nested loops write `EncodeLabels` of the host name after the header |
| `Dns.CopyLabel` | net/net.c:460-466 | the inner loop copies one label and fills in its length byte, counted in 8 bits |
| `DnsMessages.EncodeIsDomainName` | net/net.c:456-469 | for labels of 1 to 255 bytes the encoder emits each label behind its length, which for at most 63 bytes is the domain name of section 3.1 of RFC 1035, with or without a final dot in the text |
| `DnsMessages.ReadNameOfLabels` | net/net.c:456-469 | a reader of domain names finds those labels again if none is longer than 63 bytes, and rejects the name otherwise |
| `DnsMessages.QueryAsksForHost` | net/net.c:443-473 | the header is id, recursion flag, one question and zeros; a reader of the rest finds the labels of the host, type A and class IN if no label is longer than 63 bytes, and no name otherwise |
| `Dns.HandleResponse` | net/net.c:319-357 | on any payload the walker looks only inside it and returns `Walk` |
| `Dns.SkipQuestionLoop` | net/net.c:325-334 | the question loop leaves the cursor where `SkipQuestion` says |
| `Dns.SkipNameLoop` | net/net.c:338-344 | the name loop leaves the cursor where `SkipName` says |
| `Dns.AnswerLoop` | net/net.c:336-355 | the answer loop returns what `Answers` says |
| `DnsResponses.SkipsQuestion` | net/net.c:327-333 | the walker lands after QCLASS if and only if the name of the question ends in the root; after a pointer it lands before QTYPE |
| `DnsResponses.SkipsName` | net/net.c:338-344 | the walker lands after the name of an answer if and only if the name does not mix labels and a pointer (section 4.1.4 of RFC 1035) or nothing follows it |
| `DnsResponses.FindsFirstAddress` | net/net.c:336-355 | over any answers without a mixed name up to the first 4-byte record of type A it returns that record, skipping all others before it |
| `DnsResponses.FirstAddressExactly` | net/net.c:349-352 | the address is that of the first record of type 1 with four bytes of data, most significant first |
| `DnsResponses.RecordExactly` | net/net.c:346-348 | type and length are where section 4.1.3 of RFC 1035 puts them |
| `DnsResponses.ShortAnswersExactly` | net/net.c:336-355 | with at most 194 bytes from the answers on it returns that record if and only if no mixed name stands up to it, and nothing otherwise |
| `DnsResponses.WalkFindsFirstAddress` | net/net.c:319-357 | for every well-formed response whose question ends in the root: nothing unless the id matches and QR is set; then the first address if no mixed name stands up to it, and nothing if one does and at most 194 bytes of answers are left |
| `DnsResponses.MixedNameIsMissed` | net/net.c:338-344 | a response with one address, under the label a and a pointer, yields nothing |
| `Numerals.Itoa` | libc/string.c:70-99 | the code writes `Text` and a NUL for every value and base 2 to 16, within its scratch array |
| `Numerals.TakeDigits` | libc/string.c:86-91 | the digit loop fills the scratch array with the digits, last first |
| `Numerals.CopyReversed` | libc/string.c:95-98 | the copying loop appends them in order |
| `Numerals.DigitsReadBack` | libc/string.c:86-91 | the digits read back to the number, with no leading zero |
| `Numerals.DigitCount` | libc/string.c:71 | a number below a power of two has at most that many digits in every base |
| `Numerals.ItoaReadsBack` | libc/string.c:70-99 | the text reads back to the value, or to its unsigned reading if the base is not 10, without leading zero and with at most 32 digits |
| `Numerals.ItoaExactly` | libc/string.c:70-99 | a minus sign for negative numbers in base 10 only, then digits that read back to the absolute value, or to the value modulo 2^32 in every other base |
| `Numerals.Strlen` | libc/string.c:3-7 | the length of the string held |
| `Numerals.Strcpy` | libc/string.c:27-31 | the destination holds the string with its NUL, and nothing before it changed |
| `IpText.NetFormatIp` | net/net.c:72-87 | the buffer of 16 holds the four bytes in decimal, separated by dots |
| `IpText.ParseIpLoop` | shell/shell.c:844-856 | the loop computes `ParseIp` on every text, octets wrapping in 32 bits |
| `IpText.ParseIpExactly` | shell/shell.c:844-856 | every text splits into at most four fields at its dots, up to its end, a NUL or the fourth dot; octet i is the number made by the digits of field i in 32 bits, other characters being passed over, and 0 if there is no such field |
| `IpText.FormatThenParse` | net/net.c:72-87 | for every 32-bit address the text of its network-order word parses back to it and fits 16 bytes |
| `Console.Vga.VgaClear` | drivers/vga.c:44-51 | every cell blank, cursor at the top left |
| `Console.Vga.VgaSetColor` | drivers/vga.c:53-55 | the colour changes and nothing else |
| `Console.Vga.ScrollUp` | drivers/vga.c:25-37 | the loops move every row up and blank the last |
| `Console.Vga.VgaPutChar` | drivers/vga.c:57-77 | the code over video memory carries out `PutChar` |
| `Console.Vga.VgaBackspace` | drivers/vga.c:79-88 | the code carries out `Backspace` |
| `Console.Vga.VgaPrint` | drivers/vga.c:90-94 | every character of the text in order |
| `Console.Keyboard.ReplaceInput` | drivers/keyboard.c:57-69 | one backspace for each buffered key, then the new text cut to 255 characters is buffered with its NUL and printed |
| `Terminal.PutCharShows` | drivers/vga.c:57-77 | putting a character keeps the screen equal to the last 25 rows of the terminal |
| `Terminal.BackspaceShows` | drivers/vga.c:79-88 | so does a backspace |
| `Terminal.ScreenShowsLast25Rows` | drivers/vga.c:25-88 | after any sequence of characters, backspaces and colours from a cleared screen it shows the last 25 rows of an unbounded terminal, and the cursor is on it |
| `Terminal.TypeExactly` | drivers/vga.c:57-77 | what each character does to line, column and cells: newline, return, tab stops of 4, all others, the wrap at column 80 and the new blank line |
| `Terminal.EraseExactly` | drivers/vga.c:79-88 | what a backspace does to line, column and cells |
| `Terminal.EmptyExactly` | drivers/vga.c:44-51 | a cleared terminal: 25 blank lines, cursor at the top left |
| `Terminal.ShowsExactly` | drivers/vga.c:25-37 | line r of the last 25 is in cells 80 r to 80 r + 79 |
| `Terminal.ColorExactly` | drivers/vga.c:9-11 | a colour holds the foreground in its low and the background in its high half |
| `Terminal.EntryExactly` | drivers/vga.c:13-15 | a cell holds the character in its low and the colour in its high byte, which a character from 0x80 on fills with ones |
| `Terminal.PrintedExactly` | drivers/vga.c:90-94 | a text is printed character by character from the first on |
| `Erasing.TypeKeys` | drivers/vga.c:57-77 | characters other than newline and carriage return advance the logical cursor by at least their number, by exactly that if and only if each tab is typed in the last column before its stop, and change only cells passed over |
| `Erasing.EraseMany` | drivers/vga.c:79-88 | backspaces within what is shown move it back by their number and blank exactly the cells passed |
| `Erasing.EraseUndoesTyping` | drivers/keyboard.c:57-62 | erasing just-typed characters, tabs among them, returns to the same logical cell if and only if each tab was typed in the last column before its stop and column plus length is below 80 times 25; then they are blank and nothing else has changed |
| `Erasing.KeyBufferIsErasable` | drivers/keyboard.c:57-62 | for the at most 255 characters of the key buffer, if and only if each tab among them was typed in the last column before its stop |
| `Erasing.InputIsReplaced` | drivers/keyboard.c:57-69 | for every content of the key buffer, replace_input leaves the screen showing the new text printed on the erased terminal; it begins where the old one began under exactly that condition, on a terminal otherwise as before |
| `Erasing.TabIsLeftBehind` | drivers/keyboard.c:176-194 | one tab typed in column 0 and erased once leaves the cursor in column 3 |
| `Erasing.TabIsErasedOnlyBeforeStop` | drivers/vga.c:63-64 | a tab is undone by one backspace if and only if it was typed in the last column before a tab stop |
| `ElfImages.LoadSucceeds` | kernel/elf.c:91-100 | the loop reaches its end if and only if no segment to load lies below 0x600000 |
| `ElfImages.LoadKeepsLowMemory` | kernel/elf.c:91-107 | no byte below 0x600000 changes, for every file whose headers and segments lie within it and in memory |
| `ElfImages.LoadKeepsOthers` | kernel/elf.c:91-107 | a byte outside every segment keeps its value |
| `ElfImages.LoadPlacesSegment` | kernel/elf.c:102-106 | each byte of a segment comes from the file, or is zero past its file size |
| `ElfImages.LoadingIsCorrect` | kernel/elf.c:91-107 | for disjoint segments at or above 0x600000 within 16 MB: all of that together |
| `ElfImages.LoadIgnoresLowMemory` | kernel/elf.c:91-107 | what is loaded does not depend on memory below the limit, where the file buffer lies |
| `ElfLayout.HeaderExactly` | kernel/elf.c:9-36 | on a file laid out as an ELF32 header, entry, place, size and number of program headers are the fields of these names, and elf_validate accepts class 1, encoding 1, type 2, machine 3 only |
| `ElfLayout.NoMagicNoFile` | kernel/elf.c:10-17 | a file that is too short or begins otherwise is refused |
| `ElfLayout.SegmentExactly` | kernel/elf.c:92-106 | type, offset, address and sizes of a segment are the fields of its program header |
| `ElfLayout.LoadsSegment` | kernel/elf.c:91-107 | loading a file of this layout puts each byte of each segment of type 1 in place, zeros past its file size |
| `ElfLayout.LoadsNothingElse` | kernel/elf.c:91-107 | and leaves every other byte of memory alone |
| `ElfLoader.OutcomeExactly` | kernel/elf.c:83-129 | what elf_load_and_run leaves for a file with a given header: refused exactly if the header is not that of an i386 executable; otherwise e_entry is in the next of eight slots and the lowest unused task is ready, or -7 if there is none |
| `ElfLoader.RunLoadsSegment` | kernel/elf.c:90-107 | and every byte of every segment is in memory |
| `ElfLoader.RunLoadsNothingElse` | kernel/elf.c:90-107 | and every other byte from 0x600000 on is as before |
| `ElfLoader.Loader.ElfLoadAndRun` | kernel/elf.c:58-130 | on every exit path the heap chain is the one before the call and live blocks keep their bytes; every return code is given by its condition; otherwise memory is the loaded image, the entry is stored in the next slot and a task created |
| `ElfLoader.Loader.RunFile` | kernel/elf.c:70-129 | the same from kmalloc to kfree |
| `ElfLoader.Loader.ReadIntoBuffer` | kernel/elf.c:70-81 | the buffer holds the whole file in free heap space, and kfree of it would restore the chain; it fails exactly when the heap has no room |
| `ElfLoader.Loader.LoadAndStart` | kernel/elf.c:83-129 | from validation on, the outcome for every return code |
| `ElfLoader.Loader.LoadSegments` | kernel/elf.c:90-107 | the loop over program headers computes `Load` while the file stays intact in its buffer |
| `ElfLoader.Loader.PlaceSegment` | kernel/elf.c:102-106 | memcpy and memset lay down the image of the segment, above the limit only |

## Left out

- Memory.Heap.Kfree: a pointer that is not the payload address of a block on the chain is excluded, because the source writes through it unchecked; a block that is already free may be freed again.
- Vmm.AddressSpace.VmmMapPage: flags above the low 12 bits are excluded, because they would alter the frame address.
- Vmm.AddressSpace.VmmInit: the static tables lie in reserved frames, as the linker places them; loading CR3, setting CR0.PG and flushing TLB entries change no modelled state.
- Pmm.FrameAllocator.PmmFreeFrame: addresses at or above 16 MB are excluded, because the source then writes outside its bitmap.
- Pmm.FrameAllocator.PmmInit: a kernel end above 16 MB is excluded for the same reason.
- PagingLaws.RunKeepsIdentity: runs leave the pages of the first 16 MB mapped to themselves, which `PagingLaws.ApplyKeepsIdentity` shows to be exactly what they must do; within the kernel only vmm_map_mmio is called, and it may be given any range.
- Paging: loads and stores of page tables go to physical memory; `PagingLaws.RunKeepsIdentity` is why the kernel's virtual pointers reach the same words.
- Heap: a block header is an object with an address, not 12 bytes of memory; overruns by the users of a block are not modelled.
- E1000.RxDriver.IrqHandler: a descriptor may report any 16-bit length, but its buffer is a sequence of that length and not the 2048 bytes of memory; frames that find no free descriptor are dropped by the device before the ring; what arrives during the handler is finite.
- E1000.TxDriver.Send: the timeouts count 10000 polls as in the source; register access and cache effects are not modelled. The device marks a descriptor done in the same step that moves its head; if the mark came later, `E1000.TxDriver.WaitForSlot` could also fail with fewer than eight frames pending.
- Calculator.Calc.CalcDigits: 32-bit overflow wraps, where C leaves it undefined; `CalcPrinting.CalculatorIsCorrect` excludes it. After the trap of a division the model says nothing, since cpu/isr.c:104-147 halts the machine. Unparenthesised double signs have no text in the grammar of trees.
- Scheduler.Kernel.TaskCreate: names, stacks and saved registers are not part of the table; switch_context is control passing to the current task.
- Scheduler.Kernel.Kill: the number is already parsed from the command line, and not negative; a command line of ten digits or more can overflow to a negative number, for which the source tests only the upper bound and then reads outside the table. Messages are not modelled.
- Tasks.StepInv: task 0 neither exits nor sleeps, being the idle loop of kernel/kernel.c:106-108.
- Fairness.RunsWithinDistance: a sleeper past its wake tick is excluded when the counter wraps before the next call of task_schedule; `Fairness.WrapLosesSleeper` is the reason.
- Fairness.RunsWithin75Ticks: the same sleeper is excluded at the last value of the counter.
- TaskLaws.SleepsUntilWakeTick: it speaks of runs that end before the wake tick, so that the counter does not wrap.
- Ramfs.FileStore.RamfsWrite: creating a file with a name of 32 or more characters is excluded while a slot is free, because the source then goes on with a null pointer; `FileLaws.LongNamesAreLost` is the reason.
- Ramfs.Syscalls.WriteFile: standard output, serial and keyboard descriptors (0 to 3) and the register-level dispatcher are not modelled; pointers from user programs are taken as valid.
- Packets.Sender.IpPacket: packets longer than the 1500-byte buffer are excluded; resolving the hardware address and eth_send come after it.
- Packets.EchoReply: requests of 8 to 1500 bytes, for the same buffer; shorter ones are ignored by the source.
- Dns.BuildQuery: host names of at most 238 bytes, what the unchecked 256-byte buffer holds; sending, retrying and waiting are not modelled.
- Dns.HandleResponse: it starts from a UDP payload from port 53 whose length field agrees with the bytes; the message without answers is the same as one whose answers hold no address.
- DnsResponses.WalkFindsFirstAddress: after a mixed name with more than 194 bytes left the walker goes on inside later bytes, and what it finds there depends on them; after a question that ends in a pointer it goes on at QTYPE. For these no result is claimed.
- Numerals.Itoa: INT_MIN in base 10 is printed as the wrapped negation gives it, where C leaves it undefined.
- IpText.ParseIpLoop: octets of 256 and more are combined bit by bit as the source does, without a claim about the result.
- Console.Vga.VgaPutChar: the hardware cursor of update_cursor is not part of the screen; vga_put_at and vga_set_cursor serve the full-screen programs of the shell and are not modelled.
- Console.Keyboard.ReplaceInput: scan codes and history are not modelled.
- ElfLoader.Loader.ElfLoadAndRun: program headers and segments that point outside the file or above 16 MB are excluded once elf_validate accepts the file, because the source does not check them. Error -4 cannot occur, since ramfs_read returns the whole file. The trampolines that jump to the stored entry, and more than 2^31 loads, are not modelled.
- Not modelled at all, being device plumbing or user interface: port and MMIO accessors, PCI scan, USB, serial, speaker, clock, CPUID, descriptor tables, assembly stubs, the RTL8139 driver, shell commands other than those above, the editor, games and logging.
- Out of scope: environment variables, aliases, the ARP cache, command history and the random number generator.
