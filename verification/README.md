# Poplar: proofs about its queue, allocators, page tables, script compiler and scheduler

Poplar is a microkernel with its own boot loader and user space. This project models the parts of it
whose correctness is hardest to see, and proves that they are correct. `dafny verify dfyconfig.toml`
checks everything.

**The bip-buffer queue** (`BipQueue`, `BipQueueObject`). A lock-free queue between one producer and one
consumer over a ring buffer of any size. `BipQueue` is a transition system with one action for each atomic
load or store, a program counter for each side, and the stale copies of indices that each side carries
between its accesses. The main theorem is over every interleaving: what has been released, followed by what
the indices present, is exactly what has been committed, and a write grant never touches a byte the consumer
may look at. `BipQueueObject` is the queue itself, a buffer and six atomics updated in place. Between any two
atomic accesses of a call the other side may take any number of its own actions: `ConsumerInterferes` and
`ProducerInterferes` stand for them. `ConsumerInterference` and `ProducerInterference` prove that every run of the
other side meets their contracts; each call is then proved to be a run of the transition system.

**Physical memory** (`Blocks`, `BuddyBins`, `BuddyAllocation`, `Boot`). The buddy allocator with its recursive
split and coalesce, and the early allocator and memory map that feed it. The bins are shown to be a canonical
form of the set of free frames, from which completeness of `alloc`, exact restoration and independence of the
order of frees follow. `Boot.Machine` puts the two allocators in the order the kernel uses them.

**Page tables** (`PageEntries`, `PageTrees`, `MapPlan`, `PageTable`, `EntryWords`). One model for the three
formats the kernel uses, 4-level x86_64, Sv48 and Sv39, told apart by `Arch`. What the processor does is
written separately, after section 4.5 of the Intel Software Developer's Manual, Volume 3A, and sections 4.3.2,
4.4 and 4.5 of the RISC-V Privileged Architecture, version 20211203. The tables live in physical frames and
are created on demand; a tree invariant says that every table is reached in exactly one way. `map`, `map_area`
and `unmap` are proved by what they do to the hardware walk of every address. Entries are records;
`EntryWords` proves that the 64-bit words the code writes stand for those records, flags and frame. The x86_64 lines are cited
below; the RISC-V code (lib/hal_riscv/src/paging.rs:213-244, 359-540 and 589-763) has the same structure.

**Ginkgo** (the modules named `Ginkgo...`). A one-pass Pratt parser that emits bytecode with back-patched
jumps, and the stack machine that runs it. The chain of theorems is:

- Printing a program, with any redundant parentheses and optional commas, and parsing the tokens gives exactly
  the code of the tree (`GinkgoPrint`, `GinkgoPrintStmts`, `GinkgoLayout`). `GinkgoGrouping` lists the operators from
  the loosest to the tightest and proves that bare tokens are grouped accordingly. Every jump lands on the start of an
  instruction (`GinkgoJumps`).
- That code, run on the machine, does exactly what the program does by slots (`GinkgoExprs`, `GinkgoStmts`). This
  holds of every program of the modelled statements within the compiler's limits, with loops nested anywhere and
  assignments to anything, and also of those that never end. `GinkgoSlots` says what programs do by slots, without code or jumps: names stand
  for positions on one stack, on which an assignment to a local and the exit of a loop leave a value behind.
- For programs that `GinkgoMeaning` calls lexical, that is exactly what an interpreter says that knows nothing of
  stacks, slots or jumps.
- `GinkgoInitializers` and `GinkgoLimits` say what becomes of the other programs.
- `GinkgoOperators` says what the operators compute, by laws that determine them, and exactly when they stop the
  program.

The parser and the machine are objects that update their state in place, proved against functions.
`GinkgoPipeline.RunTokens` runs both and has these results as its contract.

**Smaller parts.** `Scheduling` (run queue, task states, active address space), `MemoryMap` (the boot loader's
regions) and `Clock` (ticks to nanoseconds in fixed point).

## Model

| member | source | states |
|---|---|---|
| `BipQueue.FifoUnderEveryInterleaving` | lib/mulch/src/bipqueue.rs:52-220 | from the initial state, in every interleaving of atomic accesses: released bytes followed by queued bytes are exactly the committed bytes; `read <= watermark`, `write <= watermark <= N`; a write grant meets neither readable bytes nor a read grant |
| `BipQueue.StepKeepsInv` | lib/mulch/src/bipqueue.rs:52-220 | every single action of either side keeps the invariant, including what the stale copies of indices mean |
| `BipQueue.RunKeepsInv` | lib/mulch/src/bipqueue.rs:52-220 | so does every run |
| `BipQueue.InvImpliesExclusive` | lib/mulch/src/bipqueue.rs:57-98 | in every state of the invariant, the outstanding write grant lies in the buffer, apart from all readable bytes and from the read grant |
| `BipQueue.ReadGrantIsPrefix` | lib/mulch/src/bipqueue.rs:110-143 | an outstanding read grant shows a non-empty prefix of the queue |
| `BipQueue.PieceEnds` | lib/mulch/src/bipqueue.rs:122-128 | the bytes to be read in one piece are all readable, and the piece ends where nothing is readable |
| `BipQueue.ReadShowsWholePiece` | lib/mulch/src/bipqueue.rs:122-143 | with nothing published since `write` was loaded, the read grant is exactly that piece |
| `BipQueue.ReadGrantIsStable` | lib/mulch/src/bipqueue.rs:139-143 | no action changes the bytes a read grant shows |
| `BipQueue.FillKeepsContents` | lib/mulch/src/bipqueue.rs:147-150 | writing through a grant changes nothing that is queued |
| `BipQueue.PublishAppends` | lib/mulch/src/bipqueue.rs:162-180 | the store to `write` appends exactly the bytes of this commit, whether it extends a region, opens a second one, or clears the watermark |
| `BipQueue.ReleaseDropsPrefix` | lib/mulch/src/bipqueue.rs:214-218 | the addition to `read` removes exactly the released bytes from the front |
| `BipQueue.WrapKeepsContents` | lib/mulch/src/bipqueue.rs:114-120 | moving `read` from the watermark to 0 changes no queued byte |
| `BipQueue.ProducerGuarantee` | lib/mulch/src/bipqueue.rs:52-91 | whatever the producer does, all the consumer relies on stays true |
| `BipQueue.ConsumerGuarantee` | lib/mulch/src/bipqueue.rs:105-133 | whatever the consumer does, all the producer relies on stays true |
| `BipQueue.FreePieces` | lib/mulch/src/bipqueue.rs:66-82 | the bytes that are not readable are exactly the piece from `write` on, the piece below `read`, and what a wrapped queue has given up at the end |
| `BipQueue.GrantRefusesIffNoRoom` | lib/mulch/src/bipqueue.rs:60-89 | `grant` refuses if and only if the length fits neither free piece, with one byte to spare wherever the new bytes would come up to `read` |
| `BipQueue.GrantPrefersAhead` | lib/mulch/src/bipqueue.rs:66-82 | a grant starts at `write` whenever the piece from there on has room, and at 0 otherwise |
| `BipQueue.OneByteIsKept` | lib/mulch/src/bipqueue.rs:66-82 | that byte can cost a request that would fit: eight bytes into eight free ones are refused |
| `BipQueue.RoomGrows` | lib/mulch/src/bipqueue.rs:105-133 | whatever the consumer does to `read`, room for a request stays room for it |
| `BipQueue.TwoReadsSuffice` | lib/mulch/src/bipqueue.rs:105-133 | while bytes are queued and no grant is given, `NoBytes` is reported at most once and the consumer takes fewer accesses than two calls need, under any producer actions |
| `BipQueueObject.ConsumerRunFrame` | lib/mulch/src/bipqueue.rs:105-144 | any run of consumer actions leaves the producer's side alone |
| `BipQueueObject.ProducerRunFrame` | lib/mulch/src/bipqueue.rs:52-103 | any run of producer actions leaves the consumer's side alone |
| `BipQueueObject.ShownBytesStay` | lib/mulch/src/bipqueue.rs:139-143 | any run of producer actions leaves the bytes of a read grant alone |
| `BipQueueObject.HopeStays` | lib/mulch/src/bipqueue.rs:52-103 | any run of producer actions leaves a call of `read` that had bytes to find with bytes to find |
| `BipQueueObject.OwedStays` | lib/mulch/src/bipqueue.rs:52-103 | any run of producer actions leaves the length a call of `read` is bound to show at least as large |
| `BipQueueObject.ConsumerInterference` | lib/mulch/src/bipqueue.rs:105-144 | from every reachable state, every run of the consumer leads to a reachable state with the producer's side unchanged and `read` only moved on |
| `BipQueueObject.ProducerInterference` | lib/mulch/src/bipqueue.rs:52-103 | from every reachable state, every run of the producer leads to a reachable state with the consumer's side, the bytes shown and the bytes to be found unchanged |
| `BipQueueObject.Queue.constructor` | lib/mulch/src/bipqueue.rs:39-50 | a new queue is in the initial state and empty |
| `BipQueueObject.Queue.Grant` | lib/mulch/src/bipqueue.rs:52-103 | with the consumer acting between all accesses: a region of the asked length in no conflict with the consumer, or `AlreadyGranted` if and only if a grant is out; room at the call means a grant, and a grant means room at the return; it starts at `write` if the piece ahead had room at the call, and at 0 if that has none at the return; a refusal leaves the producer idle |
| `BipQueueObject.Queue.Fill` | lib/mulch/src/bipqueue.rs:193-197 | a byte is written inside the buffer and nothing queued changes |
| `BipQueueObject.Queue.Commit` | lib/mulch/src/bipqueue.rs:153-182 | exactly the first `min(written, length)` bytes of the grant are appended to all that was committed |
| `BipQueueObject.Queue.DropGrant` | lib/mulch/src/bipqueue.rs:199-204 | dropping a write grant commits nothing |
| `BipQueueObject.Queue.Read` | lib/mulch/src/bipqueue.rs:105-144 | with the producer acting between all accesses: a non-empty prefix of the queue, at least as long as all that could be read in one piece at the call, or `AlreadyGranted` if and only if a grant is out; `NoBytes` with bytes queued happens only by moving `read` to the front, and from there a call must succeed |
| `BipQueueObject.Queue.Release` | lib/mulch/src/bipqueue.rs:214-220 | exactly the first `min(count, length)` bytes that were shown are released |
| `BipQueueObject.Queue.DropRead` | lib/mulch/src/bipqueue.rs:231-236 | dropping a read grant releases nothing |
| `Blocks.BuddyIsXor` | kernel/src/pmm/buddy.rs:178-180 | flipping the bit of the block's size by exclusive-or is moving to the neighbouring block the model uses |
| `Blocks.BuddyHalves` | kernel/src/pmm/buddy.rs:178-180 | a block and its buddy are the two halves of the one block of the next order that contains them |
| `BuddyBins.FreeRunIsInABin` | kernel/src/pmm/buddy.rs:150-174 | any wholly free aligned run lies inside one block of a bin of at least its order |
| `BuddyBins.BinsAreTheMaximalRuns` | kernel/src/pmm/buddy.rs:150-174 | a bin holds exactly the maximal naturally aligned free runs of its order |
| `BuddyBins.BinsAreCanonical` | kernel/src/pmm/buddy.rs:61-65 | well-formed bins with the same free addresses are equal |
| `BuddyBins.TakeThenFreeRestores` | kernel/src/pmm/buddy.rs:95-114 | taking a free block and freeing it gives back the same bins |
| `BuddyBins.FreeOrderIsIrrelevant` | kernel/src/pmm/buddy.rs:109-174 | freeing the same blocks in any order ends in the same bins |
| `BuddyBins.FreeFramesAreFree` | kernel/src/pmm/buddy.rs:61-65 | the frames listed by the bins are exactly the free frames |
| `BuddyBins.CountBelow` | kernel/src/pmm/buddy.rs:85-91 | the bytes summed over bins are 4096 for each frame, none counted twice |
| `BuddyAllocation.OrderFor` | kernel/src/pmm/buddy.rs:102-104 | the least order whose block holds `count` frames |
| `BuddyAllocation.OrderOfPow2` | kernel/src/pmm/buddy.rs:110-112 | a power of two is its own next power of two |
| `BuddyAllocation.RunAbove` | kernel/src/pmm/buddy.rs:130-146 | with an empty bin, a free run of its order exists if and only if one of the next order does |
| `BuddyAllocation.SplitTakesLowerHalf` | kernel/src/pmm/buddy.rs:137-140 | taking a block and freeing its upper half takes its lower half |
| `BuddyAllocation.CoalesceFrees` | kernel/src/pmm/buddy.rs:163-165 | taking out the buddy and freeing the union frees the block |
| `BuddyAllocation.BuddyAllocator.constructor` | kernel/src/pmm/buddy.rs:69-72 | nothing is free at first |
| `BuddyAllocation.BuddyAllocator.FreeRange` | kernel/src/pmm/buddy.rs:75-82 | exactly the range becomes free |
| `BuddyAllocation.BuddyAllocator.AvailableBytes` | kernel/src/pmm/buddy.rs:85-91 | 4096 times the number of free frames |
| `BuddyAllocation.BuddyAllocator.Alloc` | kernel/src/pmm/buddy.rs:95-106 | fails if and only if no aligned free run of the rounded-up size exists; otherwise removes precisely such a run, the lowest block of the smallest sufficient order |
| `BuddyAllocation.BuddyAllocator.Free` | kernel/src/pmm/buddy.rs:109-114 | precisely the block becomes free and the bins stay canonical |
| `BuddyAllocation.BuddyAllocator.AllocateBlock` | kernel/src/pmm/buddy.rs:118-147 | the same as `Alloc`, by order, through the recursive split |
| `BuddyAllocation.BuddyAllocator.FreeBlock` | kernel/src/pmm/buddy.rs:150-174 | the same as `Free`, by order, through the recursive coalesce; its assertions hold |
| `BuddyAllocation.BuddyAllocator.AllocThenFree` | kernel/src/pmm/buddy.rs:95-114 | allocating and freeing leaves identical bins |
| `Boot.EarlyFrameAllocator.AllocateN` | kernel/src/bootinfo.rs:131-151 | removes exactly the returned frames from the usable map: the last ones of the first usable entry that is long enough; fails if and only if there is none |
| `Boot.ShrinkEntry` | kernel/src/bootinfo.rs:141-146 | shortening an entry removes exactly the frames at its end from the map |
| `Boot.Pmm.constructor` | kernel/src/pmm/mod.rs:16-28 | afterwards an address is free if and only if a usable entry contains it |
| `Boot.Pmm.Alloc` | kernel/src/pmm/mod.rs:31-33 | the buddy allocator's answer; failure is where the source panics |
| `Boot.Pmm.Free` | kernel/src/pmm/mod.rs:36-38 | precisely the block becomes free |
| `Boot.Machine.AllocateEarly` | kernel/src/bootinfo.rs:131-151 | frames never given before move from the free part to the given part of a partition of all usable frames; fails if and only if no usable entry is long enough |
| `Boot.Machine.StartPmm` | kernel/src/pmm/mod.rs:16-28 | handing over to the buddy allocator keeps the partition |
| `Boot.Machine.Alloc` | kernel/src/pmm/mod.rs:31-33 | allocated frames were held by nobody and are held now; the partition is kept; fails if and only if no aligned free run of the rounded-up size exists |
| `Boot.Machine.Free` | kernel/src/pmm/mod.rs:36-38 | freed frames are held no more; the partition is kept |
| `Boot.Machine.AvailableBytes` | kernel/src/pmm/buddy.rs:85-91 | 4096 times the usable frames that were neither given out early nor are held |
| `PageEntries.ReadBuilt` | lib/hal_x86_64/src/paging.rs:77-101 | for entries this code builds, the tests in software and the processor's reading agree |
| `PageEntries.ReadPage` | lib/hal_x86_64/src/paging.rs:52-60 | the processor reads a page entry as a leaf with exactly the permissions asked for |
| `PageEntries.IndicesAreDigits` | lib/hal_x86_64/src/paging.rs:549-565 | the four indices of an address are its digits: with the offset in the page they give it back |
| `EntryWords.X86PageWord` | lib/hal_x86_64/src/paging.rs:85-101 | the x86_64 word of a page carries the record's flags, gives back its address, and the record's frame is the one of that address |
| `EntryWords.X86TableWord` | lib/hal_x86_64/src/paging.rs:231-231 | the same for the word of a table |
| `EntryWords.RvPageWord` | lib/hal_riscv/src/paging.rs:75-99 | the same for a RISC-V leaf |
| `EntryWords.RvTableWord` | lib/hal_riscv/src/paging.rs:226-226 | the same for a RISC-V pointer to a table |
| `EntryWords.ZeroWord` | lib/hal_x86_64/src/paging.rs:69-101 | the zero word is the unused entry in both formats |
| `PageTrees.WalkReaches` | lib/hal_x86_64/src/paging.rs:202-216 | every table of the tree is reached by the walk of the addresses it translates |
| `PageTrees.WalkOffSlot` | lib/hal_x86_64/src/paging.rs:371-418 | changing one entry does not change the walk of any address that does not pass it |
| `PageTrees.ReplaceWalk` | lib/hal_x86_64/src/paging.rs:385-411 | writing a leaf or clearing it changes the walk of exactly the addresses of its slot |
| `PageTrees.AddTableKeepsTree` | lib/hal_x86_64/src/paging.rs:227-234 | a fresh zeroed table keeps the tree a tree |
| `PageTrees.AddTableWalk` | lib/hal_x86_64/src/paging.rs:227-234 | and changes no translation |
| `MapPlan.NextRunFits` | lib/hal_x86_64/src/paging.rs:453-505 | every turn of the loop makes progress inside the area, aligned for its page size on both sides |
| `MapPlan.PlanTiles` | lib/hal_x86_64/src/paging.rs:433-511 | for all page-aligned inputs the runs cover the area without gap or overlap, each aligned virtually and physically |
| `MapPlan.FewRuns` | lib/hal_x86_64/src/paging.rs:441-507 | in phase and at least 2MiB long, an area takes at most 4 turns and at most 1022 small pages |
| `MapPlan.PlanUsesLargest` | lib/hal_x86_64/src/paging.rs:433-511 | every run of every plan uses the largest pages: no larger page fits anywhere in a run of 4KiB pages, no 1GiB page fits where a run of 2MiB pages starts, and a run of large pages leaves less than one more |
| `MapPlan.GiBPagesUsed` | lib/hal_x86_64/src/paging.rs:458-487 | where a 1GiB page fits somewhere, the plan has 1GiB pages if and only if the first 2MiB boundary of the area is a 1GiB boundary |
| `Blocks.MaskRoundsDown` | lib/mulch/src/math.rs:34-51 | clearing the low `k` bits of a word of any width is rounding down to a multiple of `2^k` |
| `MapPlan.AlignDownIsMask` | lib/mulch/src/math.rs:34-51 | so the source's masking is the rounding the plan uses, for every alignment |
| `MapPlan.AlignUp` | lib/mulch/src/math.rs:62-68 | the least multiple not below the value, and the value itself for alignment 0 |
| `PageTable.HangTable` | lib/hal_x86_64/src/paging.rs:227-234 | creating a table keeps the tree, the pool fresh and every translation |
| `PageTable.WritePage` | lib/hal_x86_64/src/paging.rs:389-410 | writing the leaf maps exactly the page |
| `PageTable.TakenSlot` | lib/hal_x86_64/src/paging.rs:385-408 | a slot is taken if and only if its page is translated or a table sits there |
| `PageTable.TranslateAgrees` | lib/hal_x86_64/src/paging.rs:354-369 | `translate` equals the hardware walk for every address not under a 1GiB page |
| `PageTable.LargePageTakenForTable` | lib/hal_x86_64/src/paging.rs:355-367 | under a 1GiB page `translate`, and under any large page `unmap`, takes the page's own memory for the next table |
| `PageTable.TranslateMissesLargePage` | lib/hal_x86_64/src/paging.rs:354-369 | so under every 1GiB page whose first frame is all zero, `translate` finds nothing where the processor translates |
| `PageTable.TranslateMissesAnInput` | lib/hal_x86_64/src/paging.rs:354-369 | and such tables exist |
| `PageTable.EndIsExactIff` | lib/hal/src/memory/virtual_address.rs:35-45 | the end of an area survives being made canonical if and only if it is not the end of the lower half, where it becomes the start of the upper half |
| `PageTable.ClearPage` | lib/hal_x86_64/src/paging.rs:526-530 | clearing a small leaf unmaps exactly its page |
| `PageTable.UnmappedWhole` | lib/hal_x86_64/src/paging.rs:521-526 | a 4KiB page is translated as a whole or not at all |
| `PageTable.PageTableImpl.constructor` | lib/hal_x86_64/src/paging.rs:265-269 | fresh tables translate nothing |
| `PageTable.PageTableImpl.NextTableCreate` | lib/hal_x86_64/src/paging.rs:218-249 | the next table, created if missing, with every translation unchanged; a large page in the way is reported; at most one frame is taken, and none is left only if there was none |
| `PageTable.PageTableImpl.TableFor` | lib/hal_x86_64/src/paging.rs:378-404 | the chain of such calls keeps every translation and ends at the table for the page, taking at most one frame per level |
| `PageTable.PageTableImpl.Map` | lib/hal_x86_64/src/paging.rs:371-418 | success maps exactly the page, which was untranslated; failure changes no translation; `AlreadyMapped` if and only if the page was translated or a table for smaller pages is in its slot; out of frames only if the allocator had fewer frames than levels above the page |
| `PageTable.PageTableImpl.MapRange` | lib/hal/src/memory/paging.rs:75-91 | the same for a run of pages, also up to the very end of the lower half; stopping part-way only ever adds asked-for translations |
| `PageTable.PageTableImpl.MapArea` | lib/hal_x86_64/src/paging.rs:420-511 | success: every address of the area was untranslated and now translates to its physical counterpart with exactly the flags, no other walk changed; failure: nothing that existed was touched; the runs are those of the plan, which uses the largest pages (`MapPlan.PlanUsesLargest`); out of frames only if the allocator had fewer than the runs can demand |
| `PageTable.PageTableImpl.Unmap` | lib/hal_x86_64/src/paging.rs:513-537 | returns the frame the page was mapped to and removes exactly its translations |
| `PageTable.PageTableImpl.MapThenUnmap` | lib/hal_x86_64/src/paging.rs:371-537 | mapping and unmapping a 4KiB page returns the frame and restores every walk |
| `GinkgoCompile.OpcodeRoundTrip` | ginkgo/src/vm.rs:20-69 | every opcode is read back from its byte |
| `GinkgoCompile.JumpRoundTrip` | ginkgo/src/vm.rs:106-113 | every forward distance of an `i16` is read back from its two bytes |
| `GinkgoCompile.BackRoundTrip` | ginkgo/src/parse.rs:618-625 | every backward distance of an `i16` is read back from its two bytes |
| `GinkgoParse.ParseExpr` | ginkgo/src/parse.rs:245-276 | on any tokens, parsing an expression consumes at least one token and leaves the scope depth as it was |
| `GinkgoParse.ParseStmt` | ginkgo/src/parse.rs:69-183 | on any tokens, parsing a statement consumes at least one token and closes every scope it opens |
| `GinkgoPrint.ExprParses` | ginkgo/src/parse.rs:245-532 | parsing a printed tree, with any redundant parentheses and optional commas, emits exactly the tree's code and continues behind it, at any precedence its outermost operator passes; `GinkgoGrouping` says how bare tokens group |
| `GinkgoPrint.PatchSkips` | ginkgo/src/vm.rs:106-113 | patching turns the placeholder into the distance to the end of the code |
| `GinkgoPrint.ReadTakenBack` | ginkgo/src/parse.rs:498-517 | taking back the read that was emitted for a variable leaves the code before it and tells the instruction that writes it |
| `GinkgoGrouping.GroupsByClass` | ginkgo/src/parse.rs:305-532 | for every tree whose operators nest by class (assignment, logical or, logical and, comparisons, bitwise or, exclusive or, bitwise and, sums, products, unary minus, calls), left operands at least as tight and right operands tighter: its tokens, with no parentheses added, emit exactly its code |
| `GinkgoGrouping.ChainTree` | ginkgo/src/parse.rs:245-276 | every chain of operands and infix operators, of any length, is the tokens of such a tree |
| `GinkgoGrouping.ChainGroups` | ginkgo/src/parse.rs:245-276 | so every chain is compiled as that tree |
| `GinkgoGrouping.TwoOperators` | ginkgo/src/parse.rs:306-496 | `a o1 b o2 c` emits the code of the right-nested tree if and only if `o2` is in a later class, and that of the left-nested tree if and only if it is not, for all operators and all literals and names |
| `GinkgoGrouping.MinusTakesOperand` | ginkgo/src/parse.rs:383-387 | a minus sign before either operand of any operator negates that operand alone |
| `GinkgoGrouping.CallTakesName` | ginkgo/src/parse.rs:522-532 | a call comes before a minus sign and before any operator on either side |
| `GinkgoGrouping.AssignmentTakesAll` | ginkgo/src/parse.rs:498-517 | `x = b o c` assigns the whole, and `x = y = c` assigns to `y` first |
| `GinkgoPrintStmts.ScopeEnds` | ginkgo/src/parse.rs:282-298 | the depth filter counts exactly the locals of the scope, and truncating gives back the outer locals |
| `GinkgoPrintStmts.StmtParses` | ginkgo/src/parse.rs:69-156 | parsing a printed statement emits exactly its code and leaves exactly its locals |
| `GinkgoPrintStmts.WhileParses` | ginkgo/src/parse.rs:120-134 | the same for a loop around any body: condition, exit jump, body and jump back |
| `GinkgoPrintStmts.ProgramParses` | ginkgo/src/parse.rs:58-67 | printing a program and parsing it gives exactly its chunk |
| `GinkgoLayout.StripKeepsAll` | ginkgo/src/parse.rs:388-392 | redundant parentheses and commas make no difference to the code of any statements |
| `GinkgoLayout.LayoutIsIrrelevant` | ginkgo/src/parse.rs:522-532 | two ways to write a program that differ only in them parse to the same chunk |
| `GinkgoParser.Parser.FindLocal` | ginkgo/src/parse.rs:331-337 | the backwards search finds the innermost local of that name |
| `GinkgoParser.Parser.PatchJump` | ginkgo/src/vm.rs:106-113 | the operand is overwritten in place, or the source panics |
| `GinkgoParser.Parser.Expression` | ginkgo/src/parse.rs:245-276 | the loop over infix operators does what `ParseExpr` says, of which `GinkgoGrouping` proves how it groups |
| `GinkgoParser.Parser.PrefixParselet` | ginkgo/src/parse.rs:324-392 | literals, names, minus and parentheses as `ParsePrefix` says |
| `GinkgoParser.Parser.InfixParselet` | ginkgo/src/parse.rs:437-532 | every infix operator as `ParseInfixOp` says |
| `GinkgoParser.Parser.CallArguments` | ginkgo/src/parse.rs:522-532 | the loop over arguments as `ParseArgs` says |
| `GinkgoParser.Parser.End` | ginkgo/src/parse.rs:282-298 | the loop emits one `Pop` for each local of the scope and forgets them |
| `GinkgoParser.Parser.Statement` | ginkgo/src/parse.rs:69-156 | a statement as `ParseStmt` says |
| `GinkgoParser.Parser.Scope` | ginkgo/src/parse.rs:91-95 | the loop up to the closing brace as `ParseScope` says |
| `GinkgoParser.Parser.IfStatement` | ginkgo/src/parse.rs:96-119 | both branches and both patched jumps as `ParseIf` says |
| `GinkgoParser.Parser.WhileStatement` | ginkgo/src/parse.rs:120-134 | condition, body, jump back and patched exit as `ParseWhile` says |
| `GinkgoParser.Parser.Parse` | ginkgo/src/parse.rs:58-67 | the chunk `ParseProgram` gives for the tokens, or failure where it fails |
| `GinkgoSlots.SlotExpr` | ginkgo/src/vm.rs:225-445 | an expression leaves the stack higher by its value and by one value for each assignment to a local on the way |
| `GinkgoSlots.SlotStmt` | ginkgo/src/parse.rs:69-156 | a statement leaves the stack higher by its new locals and by one value for each assignment to a local and each loop that ended, at any depth |
| `GinkgoSlots.MoreRounds` | ginkgo/src/parse.rs:120-134 | the number of rounds allowed is only a bound: once it is enough, more make no difference |
| `GinkgoOperands.OperandsSurvive` | ginkgo/src/vm.rs:326-334 | whatever an expression inserts into the stack, the values that wait there for a larger expression stay in order just below its value |
| `GinkgoOperands.OperatorGetsItsOperand` | ginkgo/src/vm.rs:411-445 | so a binary operator gets the value of its own left operand |
| `GinkgoOperands.CallGetsItsCallee` | ginkgo/src/vm.rs:359-397 | and a call its own callee |
| `GinkgoLexical.ResolveIsLookup` | ginkgo/src/parse.rs:330-346 | the slot a name is compiled to holds the value the innermost binding of that name has |
| `GinkgoLexical.ExprAgrees` | ginkgo/src/vm.rs:225-445 | with the locals at the bottom of the stack and assignments to globals only, an expression by slots is worth what the interpreter says, or stops with its fault |
| `GinkgoExprs.ExprComes` | ginkgo/src/vm.rs:225-445 | the code of every expression, wherever it stands and from any stack, reaches its end with exactly the stack and globals the expression leaves by slots, or stops with exactly its fault |
| `GinkgoStmts.StmtComes` | ginkgo/src/parse.rs:69-156 | the same for the code of every statement; where the loops need more than `n` rounds, the machine is still running after `n` steps |
| `GinkgoStmts.ConditionComes` | ginkgo/src/parse.rs:96-119 | the condition of an `if` selects the branch and is popped on either path |
| `GinkgoStmts.WhileComes` | ginkgo/src/parse.rs:120-134 | the same as `StmtComes` for every loop around whatever body, loops included: round by round the machine keeps in step |
| `GinkgoStmts.ExitComes` | ginkgo/src/vm.rs:349-358 | the exit jump leaves the loop with the condition on the stack, and enters the body without it |
| `GinkgoStmts.PopsCome` | ginkgo/src/parse.rs:282-298 | the pops at the end of a scope remove as many values as the scope has locals |
| `GinkgoStmts.ProgramRuns` | ginkgo/src/vm.rs:225-402 | every compiled program, started on an empty stack with any globals, halts with exactly the stack and globals it leaves by slots, or stops with exactly its fault; the stack at the end holds one value for each left behind |
| `GinkgoStmts.StopsIffRoundsSuffice` | ginkgo/src/vm.rs:229-402 | the machine stops if and only if some number of rounds is enough for the loops |
| `GinkgoJumps.ProgramSound` | ginkgo/src/parse.rs:608-615 | code of every program is a whole number of instructions and every jump leads to the start of one |
| `GinkgoJumps.RunStaysOnStarts` | ginkgo/src/vm.rs:229-358 | on such code the machine is at the start of an instruction after any number of steps |
| `GinkgoVm.Interpreter.Execute` | ginkgo/src/vm.rs:230-398 | one turn of the loop, read byte by byte, is one step of the machine |
| `GinkgoVm.Interpreter.DoBinaryOp` | ginkgo/src/vm.rs:411-445 | both operands are popped in the right order and the operator's result pushed, which is what the laws of `GinkgoOperators` say |
| `GinkgoOperators.AddCounts` | ginkgo/src/vm.rs:426-426 | adding 0 changes nothing and one more gives one more; it stops exactly at the ends of the 64-bit range |
| `GinkgoOperators.SubtractUndoesAdd` | ginkgo/src/vm.rs:427-427 | a difference is the answer if and only if adding it back gives the left operand |
| `GinkgoOperators.NegateAddsToNothing` | ginkgo/src/vm.rs:262-269 | a number is the negation if and only if the two add up to 0 |
| `GinkgoOperators.MultiplyRepeats` | ginkgo/src/vm.rs:428-428 | products are repeated sums and do not depend on the order |
| `GinkgoOperators.MultiplyFits` | ginkgo/src/vm.rs:428-428 | it stops exactly when one operand lies outside the ends of the range divided by the other |
| `GinkgoOperators.DivideRoundsToZero` | ginkgo/src/vm.rs:429-429 | a quotient is the answer if and only if the rest is smaller than the divisor and has the dividend's sign; it stops exactly for 0 and for the one quotient out of range |
| `GinkgoOperators.BitsDecide` | ginkgo/src/vm.rs:430-432 | each of the 64 bits of and, or and exclusive-or is decided by that bit of the operands, and none of them ever stops the program |
| `GinkgoOperators.EqualIsSame` | ginkgo/src/vm.rs:492-501 | values compare equal if and only if they are the same and neither unit nor a function; it stops exactly for a function on the left of an object |
| `GinkgoOperators.NotEqualIsOpposite` | ginkgo/src/vm.rs:438-438 | not-equal is the opposite, or stops with the same fault |
| `GinkgoOperators.LessThanIsBelow` | ginkgo/src/vm.rs:503-512 | a number is less than another if and only if adding something positive leads to it, and `false` than `true`; it stops exactly for two objects |
| `GinkgoOperators.OtherComparisons` | ginkgo/src/vm.rs:439-442 | the other comparisons from this one: opposites on numbers and on truth values; across kinds none holds |
| `GinkgoOperators.OnlyIntegers` | ginkgo/src/vm.rs:423-424 | arithmetic on anything but two integers panics, and negating anything else is an error |
| `GinkgoOperators.LiteralIsItsNumber` | ginkgo/src/parse.rs:347-354 | a literal is the number it spells, or that number modulo 2^64 if it is out of range |
| `GinkgoVm.Interpreter.SetGlobal` | ginkgo/src/vm.rs:308-325 | inserting and, if it was not there, removing again leaves the globals unchanged on failure |
| `GinkgoVm.Interpreter.Interpret` | ginkgo/src/vm.rs:225-402 | for every chunk whose run ends, the loop ends in the same final state or fault |
| `GinkgoPipeline.PrintedProgramRuns` | ginkgo/src/parse.rs:58-67 | parsing, running by slots and jump targets in one statement about every program |
| `GinkgoPipeline.RunTokens` | ginkgo/src/vm.rs:225-402 | the parser object and the machine object together leave the stack and globals of the program by slots, or its fault; for lexical programs these are the interpreter's globals and fault |
| `GinkgoLimits.AssignmentKeepsStackIffGlobal` | ginkgo/src/vm.rs:330-334 | after any assignment statement the stack is what the right-hand side left if and only if the target is a global; for a local, the value has been inserted at its slot |
| `GinkgoInitializers.InitMeans` | ginkgo/src/parse.rs:73-81 | every initializer in a scope, with the locals as the whole stack, is worth exactly what an evaluator says in which the new name reads the first temporary of the initializer itself |
| `GinkgoInitializers.InitAgrees` | ginkgo/src/parse.rs:73-81 | an initializer that does not name its variable is worth what the interpreter says |
| `GinkgoInitializers.LetRuns` | ginkgo/src/parse.rs:69-82 | so the machine makes that value the new local, or stops with that fault |
| `GinkgoInitializers.InitializerNamingItselfPanics` | ginkgo/src/parse.rs:73-81 | `let x = x;` in a scope always panics, whatever an outer `x` holds |
| `GinkgoInitializers.InitializerReadsItsOwnLeftSide` | ginkgo/src/parse.rs:73-81 | `let x = k + x;` in a scope binds `x` to twice `k` without any fault, whatever an outer `x` holds |
| `GinkgoMeaning.StmtAgrees` | ginkgo/src/parse.rs:69-156 | where assignments are to globals, initializers do not name their own variable and no local is declared where a loop may have ended before, a statement by slots and by the interpreter have the same globals, the same locals and the same fault |
| `GinkgoMeaning.ProgramMeans` | ginkgo/src/vm.rs:225-402 | such a program halts on the machine with exactly the interpreter's globals, and with an empty stack if it has no loops, or stops with exactly the interpreter's fault |
| `GinkgoLimits.LoopLeavesCondition` | ginkgo/src/parse.rs:120-134 | a loop with no loop inside leaves exactly the condition that ended it on the stack |
| `GinkgoLimits.NestedLoopFillsStack` | ginkgo/src/parse.rs:120-134 | `while true { while false { } }` is back at its start after any number of rounds with that many more values on the stack |
| `GinkgoLimits.NextLocalReadsCondition` | ginkgo/src/parse.rs:120-134 | a loop, then `let x = ...;`, then any expression in a scope: `x` reads the condition that ended the loop, in its own initializer and from then on, whatever it was given |
| `Scheduling.MovesUp` | kernel/src/scheduler.rs:111-128 | a ready task moves up one place with each switch, whatever is added or blocked meanwhile |
| `Scheduling.RunsOnItsTurn` | kernel/src/scheduler.rs:111-191 | a task at ready position `i` runs after exactly the `(i+1)`-th switch and waits in the queue until then |
| `Scheduling.TasksAreConserved` | kernel/src/scheduler.rs:66-191 | over any run of calls no task is lost or duplicated |
| `Scheduling.AddressSpace.SwitchTo` | kernel/src/object/address_space.rs:115-121 | an inactive address space becomes active; the assertion is the precondition |
| `Scheduling.AddressSpace.SwitchFrom` | kernel/src/object/address_space.rs:123-126 | an active address space becomes inactive; the assertion is the precondition |
| `Scheduling.Scheduler.AddTask` | kernel/src/scheduler.rs:66-75 | a task joins the queue of its state; a running one is refused |
| `Scheduling.Scheduler.StartScheduling` | kernel/src/scheduler.rs:85-95 | the first ready task runs and its address space is the one active |
| `Scheduling.Scheduler.Schedule` | kernel/src/scheduler.rs:111-128 | every task stays in exactly the place its state says, exactly the running task's address space is active, and no assertion on the way fails |
| `Scheduling.Scheduler.SwitchTask` | kernel/src/scheduler.rs:154-191 | the old task goes to the queue of its new state, the next one runs, and activation moves with it, also between tasks that share an address space |
| `MemoryMap.IntersectsIffShared` | lib/mulch/src/ranges.rs:27-29 | nonempty ranges intersect if and only if they share an address |
| `MemoryMap.SplitPartitions` | lib/mulch/src/ranges.rs:40-46 | where two ranges intersect, the three parts are the addresses before, inside and after |
| `MemoryMap.AddingCovers` | seed/seed_riscv/src/memory.rs:122-195 | the new type's coverage gains exactly the region, every other type's loses exactly the region |
| `MemoryMap.AddingClassifies` | seed/seed_riscv/src/memory.rs:122-195 | every address has the type of the last region added that covers it |
| `MemoryMap.TypesAreDisjoint` | seed/seed_riscv/src/memory.rs:146-150 | entries of different types never overlap |
| `MemoryMap.AddingCounts` | seed/seed_riscv/src/memory.rs:125-195 | a region held or touched by an entry of its type leaves the number of entries of that type as it is, any other adds one; an entry of another type leaves at most two |
| `MemoryMap.AddingLength` | seed/seed_riscv/src/memory.rs:125-195 | where no entry of another type overlaps the region, the map grows by one entry, or not at all if the region is held or touched |
| `MemoryMap.AddingAligned` | seed/seed_riscv/src/memory.rs:37-40 | with page-aligned regions the assertion on sizes never fails |
| `MemoryMap.MemoryRegions.AddRegion` | seed/seed_riscv/src/memory.rs:122-195 | keeps that classification, adds an entry of the region's type exactly if none holds or touches the region, and fails if and only if a leftover piece is not whole pages or the 32 entries do not suffice |
| `MemoryMap.MemoryRegions.MergeLoop` | seed/seed_riscv/src/memory.rs:125-144 | each entry of the type absorbs the region if it can, and the flag says whether one holds or touches it |
| `Clock.BitsBracket` | kernel/src/clocksource.rs:18-20 | the bit count brackets the value between powers of two |
| `Clock.NewDefinedIff` | kernel/src/clocksource.rs:27-31 | the conversion exists if and only if the numerator is below 2^63 and the denominator above 0 |
| `Clock.NoOverflow` | kernel/src/clocksource.rs:28-29 | the shifted numerator loses no bit and uses all of 63 bits |
| `Clock.FullPrecision` | kernel/src/clocksource.rs:27-31 | in every conversion the numerator shifted by `shift` has exactly 63 bits, and `scalar` is that divided by the denominator, rounded down |
| `Clock.WideProductFits` | kernel/src/clocksource.rs:37-37 | the 128-bit product does not overflow |
| `Clock.Monotone` | kernel/src/clocksource.rs:36-38 | more ticks never give fewer nanoseconds while the result fits |
| `Clock.Accuracy` | kernel/src/clocksource.rs:36-38 | the result is at most `x*n/d` and short of it by less than `1 + x/2^shift` |
| `Clock.FitsIfExactFits` | kernel/src/clocksource.rs:36-38 | whenever `x*n/d` fits in 64 bits, the result is not cut |
| `Clock.Converts` | kernel/src/clocksource.rs:27-38 | so for all such ticks the result is that accurate and grows with them |

## Left out

Of the queue:

- Memory orderings weaker than sequential consistency.
- `BipQueueObject.Queue.Grant`: asks that `N + length` fit a machine word; beyond that the addition in the source overflows and stops the program.
- `BipQueueObject.Queue.Commit` and the other calls: what the other side does between two accesses is any behaviour that the contracts of the interference methods allow, which is more than it can really do.

Of memory:

- `BuddyAllocation.BuddyAllocator.Free`: is given blocks that are not free, as its callers promise; the assertion in the source catches only some of the others.
- `Boot.Pmm.constructor`: is given a memory map whose usable entries are whole frames and do not overlap, as the boot loader builds it.
- `FrameAllocator` on `Pmm` for other frame sizes, and the locks around the allocator.
- Address ranges of `PAddr` and 64-bit overflow in sums of addresses, here and for page tables.

Of page tables:

- `PageTable.TranslateAgrees`: leaves out addresses under a 1GiB page, which the source marks as not handled; `PageTable.LargePageTakenForTable` says what it does there and `PageTable.TranslateMissesLargePage` that it can be wrong.
- `PageTable.PageTableImpl.Unmap`: leaves out pages under a large page for the same reason; unmapping large pages is not implemented in the source.
- `PageTable.PageTableImpl.MapArea`: is given an area inside one canonical half, and where it uses large pages one that ends before the lower half does (`PageTable.EndIsExactIff`: otherwise the loop takes the whole gap for bytes left); an allocator with no frame left is a result here and a panic in the source.
- `PageTable.PageTableImpl.MapRange`: is given a range inside one canonical half; a `Page` range across the gap has no meaning for the processor.
- That `map_area` succeeds whenever the area is untranslated: an empty table left by earlier mappings also blocks a large page.
- TLB flushes, `from_frame`, and entries written by anyone else. The word lemmas take addresses below 2^52 (x86_64) and 2^56 (RISC-V).

Of Ginkgo:

- `GinkgoStmts.ProgramRuns`: is for programs with jumps an `i16` can hold and at most 256 constants and locals; beyond that the source panics or truncates an index.
- `GinkgoMeaning.ProgramMeans`: is for lexical programs; of the others `GinkgoStmts.ProgramRuns` says what the machine does, and `GinkgoInitializers` and `GinkgoLimits` show for each condition how it comes to differ from what the names say.
- `GinkgoParse.ParseStmt`: a function declaration is an error here; it would need chunks as constants.
- `GinkgoParser.Parser.Statement`: the same.
- `GinkgoVm.Interpreter.Execute`: has no frames of Ginkgo functions, because a call there adds an absolute index to the slot offset; `Return` always ends the run, as it does outside functions.
- `GinkgoVm.Interpreter.Interpret`: is for runs that end, since a method here must; the same frames are missing.
- `GinkgoPrint.ExprParses`: assignment is to a bare name; for anything else the source looks at bytes that need not be an instruction.
- Expressions in statement position without a semicolon and `return` (the parser model has them, the program theorems do not), floating point, classes, character-level lexing and diagnostics.
- Integer overflow is taken as the panic of checked arithmetic. Native functions return a value and have no other effect.

Of the rest:

- `Scheduling.Scheduler.AddTask`: is given tasks it does not have yet, with an address space that is active only if it is the running task's own; the source does not look. Context switches, interrupts and kernel tasklets are not modelled. With no other task ready, `schedule` ignores the requested state; the comment in the source says so.
- Entries of the same type in `MemoryMap` may overlap, because a region that joins two entries is merged into both; the free list built from the map is therefore not modelled.
- `Clock.CeilingLog2`: is the number of bits, as the code computes it; for powers of two that is one more than the name says.
- The serial, framebuffer, PCI, USB, ACPI, device-tree and UEFI code, system calls, the build tools and the network services: input and output.
- Small helpers (`Bitmap`, `InitGuard`, ELF headers, GUIDs): they would only add easy members.
