# Verified models of an operating-system lab kernel

This project models, in Dafny 4.11, the parts of a small operating-system repository
whose correctness spans several functions, and proves properties of the models. It is
checked with

    dafny verify dfyconfig.toml

The files, by component:

| files | what they model |
|---|---|
| `Powers`, `Bits`, `Wrappers` | powers of two, alignment, word operations, an option type |
| `BuddyTree`, `BuddyHeap`, `Buddy` | the buddy allocator for large blocks (`kernel/src/tbma.c`): one tree as a value, all trees as a state machine, and the byte arrays updated in place |
| `Slab`, `Pmm`, `PmmRuns` | the small-block allocator and the glue (`kernel/src/slab.c`, `kernel/src/pmm.c`): page headers, intrusive free lists, per-CPU page chains; the last file drives the whole allocator through any schedule |
| `LcsSpec`, `LcsPartition`, `LcsWorkers` | the longest common subsequence program (`plcs/plcs.c`): the serial table, the division of work, and the workers with their barrier as a transition system |
| `Int64`, `Int64Signed`, `Int64Counts` | 64-bit division and bit counts from 32-bit halves (`abstract-machine/klib/src/int64.c`) |
| `SpinLock`, `Scheduler`, `Semaphore` | the locks, the scheduler and the semaphores (`kernel/src/kmt.c`) as transition systems, one access to shared state at a time |
| `SchedulerRuns`, `SemaphoreRuns`, `SemaphoreCalls` | what is true of their runs, and what whole traps and whole calls do |
| `Irq` | the interrupt handler list and its dispatch (`kernel/src/os.c`) |
| `PageTable`, `AddressSpace` | the multi-level page table (`abstract-machine/am/src/x86/qemu/vme.c`): the tables as a value and the object that grows, writes and tears them down |
| `VmArea`, `VmAreaList` | the sorted list of memory areas of a task (`kernel/src/uproc.c`) |
| `MappedPages` | the list of mapped pages that mirrors the page table (`kernel/src/uproc.c`) |
| `Tty` | the terminal's line discipline (`kernel/src/dev/dev_tty.c`) |

Code that updates state in place is a class or a method with loops, proved against
functions on values; what the code promises is then proved about those functions or
stated in the methods' contracts. Concurrent code is a transition system whose events are
single accesses to shared state, and the theorems quantify over every run.

What the proofs brought to light, each stated precisely by a member below:

- `kmt_sem_wait` re-reads the counter after it has released the lock. When a signaller
  has already raised the counter to 0 but not yet unblocked the only waiter, that waiter
  returns while it is still marked blocked and still listed (`EarlyExactly`). With one
  semaphore this never costs a unit (`AloneBounded`). With several, completed waits stay
  bounded by initial value plus signals as long as no task enters a waiting list while
  another list holds it (`CompletedBounded`), and every run that comes to such an entry
  can be continued until the bound is broken (`SecondEntryBreaksBound`). `LostBlock` is a
  run from the start state that gets there.
- `determine_which_tree` asserts that the address lies strictly above the heap's first
  one, so `bbma_free` refuses the block at that address: a block is released if and only
  if it lies elsewhere (`FreeBlockCorrect`). The first allocation of a fresh heap returns
  exactly that block, and allocating and freeing it stops the kernel (`FirstBlockIsKept`).
  `slab_init` happens to take it for a page that is never given back (`PmmInit`).
- `bbma_alloc` may answer NULL although a block is free, because a partly used ancestor is
  marked 1 (`kernel/src/tbma.c:156-157`). Every request under every set of held locks is
  answered completely if and only if no tree's root is understated (`CompleteIffExact`,
  `SummaryExact`). On a tree of any size from four leaves up, a smallest block and then
  half the tree suffice: no request is served any more, although a quarter of the tree is
  free (`RefusedThoughFree`).
- The exit of a killed task never returns: `destroy_task` takes `vme_lock` twice
  (`kernel/src/uproc.c:583-588`), and a CPU that asks for a lock it holds spins for ever
  with interrupts off (`SelfDeadlock`).
- `bbma_init` does not look at the size of its static array of trees. The constructor of
  `BuddySystem` states that it writes past the array if and only if the heap holds more.
- `fork_copying_vme_pages` passes an area's size through an `int`. `ForkCopyingVmePages`
  states that the copy has the same areas if and only if every size is below 2^31 and
  every area but the first ends inside the user area; `LongestAreaIsNotCopied` is an area
  that `new_vme_node` builds and fork does not copy.
- `pgmap` with a protection that allows no access lists the page and then unmaps it.
  `PgMap` states when the call succeeds, and that list and table then agree if and only if
  some access is allowed; `NoAccessRun` is a run of two calls after which they do not.
- `slab_init` drops the block that each page request returns. `PmmInit` states that
  afterwards one block of every page is live and owned by nobody.

## Model

| member | source | states |
|---|---|---|
| BuddyTree.InvBounds | kernel/src/tbma.c:122-166 | summaries lie in range, and a summary equal to a node's level means that its whole subtree is free |
| BuddyTree.SummarySound | kernel/src/tbma.c:147-161 | a summary never exceeds the largest block that can really be had below the node |
| BuddyTree.LargestMeaning | kernel/src/tbma.c:147-161 | the level summaries are measured against is that of a largest free block, 0 where none is free |
| BuddyTree.SummaryExact | kernel/src/tbma.c:147-161 | a summary is exact if and only if a largest free block can be reached past nodes that are not understated |
| BuddyTree.NothingLiveIsFull | kernel/src/tbma.c:198-216 | a tree has nothing handed out if and only if it is the initial tree |
| BuddyTree.LiveSound | kernel/src/tbma.c:108-120 | the blocks handed out by one tree are inside it, aligned to their size and pairwise disjoint |
| BuddyTree.AllocCorrect | kernel/src/tbma.c:122-166 | a successful search hands out exactly one new block of the requested level and keeps the invariant |
| BuddyTree.AllocLowest | kernel/src/tbma.c:122-166 | the block found has the lowest address among those that summaries lead to |
| BuddyTree.OffersAreAll | kernel/src/tbma.c:122-166 | where no node is understated these are all aligned places in free blocks, so the lowest that fits at all is found |
| BuddyTree.AllocDeparts | kernel/src/tbma.c:147-161 | a request for exactly the level a tree advertises leaves it advertising nothing, a smaller one leaves it advertising what its halves do |
| BuddyTree.FreeCorrect | kernel/src/tbma.c:272-300 | the descent by address finds the allocated node of every live block, its assertions hold, and exactly that block is taken back |
| BuddyTree.AllocFreeIdentity | kernel/src/tbma.c:122-300 | freeing right after a successful allocation restores the tree exactly |
| BuddyTree.OnlyFirstLeft | kernel/src/tbma.c:122-300 | a tree whose only live block is the one at its first address is exactly as after that block's allocation from the initial tree |
| BuddyHeap.LevelFor | kernel/src/tbma.c:54-58 | the level is the least that holds the request, and refusal means that none does |
| BuddyHeap.HeapLiveSound | kernel/src/tbma.c:168-196 | over all trees, live blocks lie in the heap, are aligned and pairwise disjoint |
| BuddyHeap.AllocBlockCorrect | kernel/src/tbma.c:54-98 | NULL exactly when no level holds the request or no lockable tree's summary reaches it, and then nothing changes; otherwise a new aligned block large enough, with nothing else changed |
| BuddyHeap.ServedFirst | kernel/src/tbma.c:54-98 | the block comes from the first tree that can be locked and advertises enough, and is the lowest that summaries lead to there |
| BuddyHeap.ReleasedIsServed | kernel/src/tbma.c:54-321 | right after a block was released, a request that fits it is served whenever its tree can be locked |
| BuddyHeap.CompleteIffExact | kernel/src/tbma.c:54-98 | every request, under every set of held locks, is served exactly when a fitting block is free in a lockable tree, if and only if no root summary is understated |
| BuddyHeap.CompleteUnlessUnderstated | kernel/src/tbma.c:54-98 | for a single request: where NULL is answered although a lockable tree has a fitting block, that tree's root is understated |
| BuddyHeap.RefusedThoughFree | kernel/src/tbma.c:147-161 | for all sizes of tree with at least four leaves, hence for the kernel's: after a smallest block and half a tree, no request is served although a quarter of the tree is free |
| BuddyHeap.FreeBlockCorrect | kernel/src/tbma.c:265-321 | releasing a live block succeeds if and only if it is not the one at the heap's first address, and removes exactly it |
| BuddyHeap.AllocFreeBlockIdentity | kernel/src/tbma.c:54-321 | release of an allocation's result restores every tree, and fails exactly when the result is the heap's first address |
| BuddyHeap.FirstBlockIsKept | kernel/src/tbma.c:265-267 | for every fresh heap and every request that fits, the first allocation returns the first address and its release stops at the assertion |
| BuddyHeap.RunSafe | kernel/src/tbma.c:54-321 | the invariant holds after every legal history of allocations and releases |
| BuddyHeap.RunRestores | kernel/src/tbma.c:198-321 | whatever the history, in whatever order blocks came back, a tree with nothing live is as initialised, and one with only the heap's first block live is as after that block's allocation |
| Buddy.InitializeTree | kernel/src/tbma.c:198-216 | the array's two loops write the wholly free tree |
| Buddy.BuddySystem.constructor | kernel/src/tbma.c:238-263 | as many trees as fit, all free, and the object's invariant; the static array is overrun exactly when the heap holds more trees than it has room for |
| Buddy.BuddySystem.NodeAddr | kernel/src/tbma.c:108-120 | a node's block starts with its left child's, and the right child's begins half a block later |
| Buddy.BuddySystem.MetadataBelowBlocks | kernel/src/tbma.c:238-254 | a tree's array lies below the first block that can be handed out if and only if its number is at most 2^11 (in general, half the smallest block) |
| Buddy.BuddySystem.GetTheFreeSpaceInTree | kernel/src/tbma.c:122-166 | in place on the byte array: the tree function's result and its address, no cell outside the subtree touched |
| Buddy.BuddySystem.FreeTreePtr | kernel/src/tbma.c:272-300 | in place on the byte array: the release function's tree, no cell outside the subtree touched |
| Buddy.BuddySystem.FindAvailableTree | kernel/src/tbma.c:72-98 | the first tree whose lock can be taken and whose array's root advertises enough; every tree before it fails one of the two, and so do all when there is no answer |
| Buddy.BuddySystem.DetermineWhichTree | kernel/src/tbma.c:265-270 | masking a live block's address yields the tree that holds it |
| Buddy.BuddySystem.BbmaAlloc | kernel/src/tbma.c:54-70 | the object's state and answer are those of the allocation function |
| Buddy.BuddySystem.BbmaFree | kernel/src/tbma.c:302-321 | the object's state is that of the release function; NULL changes nothing |
| Slabs.ClassFor | kernel/src/slab.c:7-26 | the least class that holds the request, refusal exactly above 2048 bytes |
| Slabs.BlockFacts | kernel/src/slab.c:175-196 | no slab block is page aligned, masking finds its page, and it lies behind the header inside the page |
| Slabs.PushKeepsPage | kernel/src/slab.c:202-204 | after a release the header counts and chains the old free blocks and the new one: an acyclic list inside the page |
| Slabs.PopKeepsPage | kernel/src/slab.c:118-120 | the block taken is the first free one, not free any more, and the header describes the rest |
| Slabs.PageFrame | kernel/src/slab.c:202-204 | what is written outside the free blocks does not disturb the page |
| Slabs.LiveSound | kernel/src/pmm.c:15-55 | everything handed out is pairwise disjoint, aligned, inside the heap, clear of page headers, and page aligned exactly when it is a large block |
| Slabs.TakeBlock | kernel/src/slab.c:102-130 | taking a free block adds exactly it to what is live |
| Slabs.GiveBlock | kernel/src/slab.c:187-213 | giving a live block back removes exactly it |
| Slabs.UseAsPage | kernel/src/slab.c:159-173 | a large block becomes a page with no live block in it |
| Pmm.InitializeASlabNewPage | kernel/src/slab.c:132-152 | the loop chains exactly the page's blocks, and writes no word outside the page |
| Pmm.HeaderTakesOne | kernel/src/slab.c:136-141 | the header occupies one block of the class and the rest of the page divides into whole blocks |
| Pmm.Allocator.FindTheAvailablePage | kernel/src/slab.c:59-100 | the first page of the chain with a free block; NULL exactly when there is none |
| Pmm.Allocator.FindTheFreeSpace | kernel/src/slab.c:102-130 | the block freed last on the first page with a free one becomes live and nothing else does; NULL, with nothing changed, exactly when the chain is exhausted |
| Pmm.Allocator.AddPage | kernel/src/slab.c:166-171 | the new page heads the CPU's chain with all blocks free, every other chain is kept, and only words of the page are written |
| Pmm.Allocator.RequestASlab | kernel/src/slab.c:159-173 | NULL, with nothing changed, exactly when the buddy system refuses a page; otherwise a new page in front of the CPU's chain and one live block of it; no word inside a block that was live is written |
| Pmm.Allocator.Kalloc | kernel/src/pmm.c:15-19 | NULL, with nothing changed, exactly for a request of nothing, a large one the buddy system refuses, or a small one when the CPU has no free block of the class and the buddy system refuses a page; as long as the CPU has one, no page and no large block is taken; otherwise one new live block large enough and nothing else; no word inside a block that was live is written |
| Pmm.Allocator.SlabFree | kernel/src/slab.c:187-213 | exactly the given block stops being live and is the next its page hands out; no word inside another live block is written |
| Pmm.Allocator.Kfree | kernel/src/pmm.c:38-55 | alignment alone routes every live block to its allocator, the other allocator is left alone, exactly the block stops being live, and no word inside a block that stays live is written |
| Pmm.Allocator.OwnerWrites | kernel/include/slab.h:42-44 | whatever the owner of a live block writes into it, the allocator's invariant stands |
| Pmm.Allocator.InitializeACpuSlabArea | kernel/src/slab.c:215-219 | each of the CPU's seven chains gets one page unless memory is exhausted, other CPUs' chains are kept, the first page taken is the one at the heap's first address, and what is live is only the dropped blocks |
| Pmm.PmmInit | kernel/src/pmm.c:59-65 | start-up succeeds exactly when the static array of trees suffices; then every CPU has one page in each chain unless memory is exhausted, and one dropped block per page is live and nothing else |
| PmmRuns.Session | kernel/src/pmm.c:15-65 | from start-up through any schedule of requests, releases and owners' writes: every request is refused exactly when there is nothing to give and every release gives exactly its block back; every outstanding allocation lies in the heap, is as large as its own request, shares no byte with another and still holds what was written to it; and nothing else is live but at most seven dropped blocks a CPU |
| PmmRuns.Perform | kernel/src/pmm.c:15-55 | one such act is answered as it must be and keeps all of this |
| PmmRuns.OwnedApart | kernel/src/pmm.c:15-55 | what is owned in this sense is pairwise disjoint, by the bytes asked for, and inside the heap |
| LcsSpec.CellIsLcs | plcs/plcs.c:39-57 | the recurrence gives, for all prefixes, the length of a common subsequence than which none is longer |
| LcsSpec.Tworker | plcs/plcs.c:39-57 | the serial loops return the length of a longest common subsequence |
| LcsPartition.PartitionExact | plcs/plcs.c:251-284 | each cell of a diagonal is in exactly one block, and the all-zero entry is never real work for a worker other than the first |
| LcsPartition.PartitionEven | plcs/plcs.c:251-284 | as many workers as possible get work, and no two of them differ by more than one row |
| LcsPartition.FillTodo | plcs/plcs.c:251-284 | the partition loop fills the whole table with those blocks |
| LcsPartition.FillRound | plcs/plcs.c:251-284 | one diagonal's entries, no other row touched |
| LcsWorkers.StepControl | plcs/plcs.c:118-163 | every step of every worker keeps the barrier's invariant |
| LcsWorkers.StepData | plcs/plcs.c:118-147 | every step keeps all written cells right and all others 0 |
| LcsWorkers.Reachable | plcs/plcs.c:118-163 | both invariants hold in every state of every interleaving |
| LcsWorkers.ParallelLcs | plcs/plcs.c:295 | under every interleaving the printed cell is the length of a longest common subsequence |
| LcsWorkers.BarrierSeparatesRounds | plcs/plcs.c:148-162 | no worker computes in one round while another computes in another |
| LcsWorkers.ResetLosesNothing | plcs/plcs.c:150-153 | at the reset all workers have counted themselves and none is about to |
| LcsWorkers.RaisedOncePerRound | plcs/plcs.c:154-158 | a flag is raised only while it is down and its worker waits for it in this round |
| LcsWorkers.NoDeadlock | plcs/plcs.c:118-163 | while some worker has not returned, some worker can move |
| LcsWorkers.BoundedMoves | plcs/plcs.c:118-163 | no schedule holds more than a fixed number of moves |
| Int64.CompareExact | abstract-machine/klib/src/int64.c:626 | the sign-shift mask is the comparison of remainder and divisor whenever their difference fits |
| Int64.StepFits | abstract-machine/klib/src/int64.c:609-630 | the doubled remainder neither overflows nor defeats the sign test, also for divisors with the top bit set |
| Int64.IterateCorrect | abstract-machine/klib/src/int64.c:609-630 | one iteration consumes one bit and keeps the remainder below the divisor |
| Int64.StartCorrect | abstract-machine/klib/src/int64.c:480-606 | each branch's shift count leaves the loop a small first remainder and room for the test |
| Int64.DivideLoop | abstract-machine/klib/src/int64.c:601-634 | the final loop yields quotient and remainder |
| Int64.Udivmoddi4 | abstract-machine/klib/src/int64.c:427-634 | for every numerator and nonzero divisor, on all branches, n = q*d + r with r < d |
| Int64Signed.TruncLaw | abstract-machine/klib/src/int64.c:370-404 | the law of section 6.5.5 of ISO/IEC 9899:2011: a = (a/b)*b + a%b, the remainder smaller than b and of a's sign |
| Int64Signed.QuotientFits | abstract-machine/klib/src/int64.c:370-379 | the quotient is representable except for the most negative number by -1 |
| Int64Signed.Divdi3 | abstract-machine/klib/src/int64.c:370-379 | the truncating quotient, and the numerator itself in the one case that overflows |
| Int64Signed.Moddi3 | abstract-machine/klib/src/int64.c:394-404 | the truncating remainder |
| Int64Signed.Divmoddi4 | abstract-machine/klib/src/int64.c:384-389 | both at once |
| Int64Counts.Clzsi2 | abstract-machine/klib/src/int64.c:640-669 | the number of leading zeros, for every nonzero word |
| Int64Counts.Ctzsi2 | abstract-machine/klib/src/int64.c:675-709 | the number of trailing zeros, for every nonzero word |
| Int64Counts.Ctzdi2 | abstract-machine/klib/src/int64.c:717-723 | the same for double words |
| Int64Counts.Clzdi2 | abstract-machine/klib/src/int64.c:725-731 | leading zeros of double words |
| Int64Counts.TrueCounts | abstract-machine/klib/src/int64.c:640-731 | the counts bound the word between powers of two and give the largest power of two that divides it |
| SpinLock.NextInv | kernel/src/kmt.c:25-86 | every access of every CPU keeps: one owner per locked word, the recorded CPU is the holder, the nesting count is the number of open brackets |
| SpinLock.MutualExclusion | kernel/src/kmt.c:62-86 | in every run no two CPUs own a lock, and a CPU that wants or holds one has interrupts off |
| SpinLock.FreeLockTaken | kernel/src/kmt.c:45-71 | asking for a free lock takes it, with interrupts off and their state noted, by either call |
| SpinLock.TakenLockRefused | kernel/src/kmt.c:45-71 | on a taken lock the exchange changes nothing, and the trial leaves the state as it was |
| SpinLock.UnlockFrees | kernel/src/kmt.c:73-86 | the holder's release frees the lock, and interrupts come back with the last one if they were on |
| SpinLock.LockUnlock | kernel/src/kmt.c:62-86 | taking and giving back undo each other |
| SpinLock.HoldingIsExact | kernel/src/kmt.c:16-23 | the release check, read without the lock, fails exactly when the CPU does not hold it |
| SpinLock.FlagRestored | kernel/src/kmt.c:25-43 | pop_off never panics, and the outermost one restores the interrupt flag |
| SpinLock.SelfDeadlock | kernel/src/uproc.c:583-588 | in every run, a CPU that asks for a lock it holds stays in the spin loop, with interrupts off, in every continuation |
| Scheduler.NextInv | kernel/src/kmt.c:181-262 | every event of every CPU keeps the invariant, and no assertion, panic check or slot access fails |
| Scheduler.Exclusive | kernel/src/kmt.c:181-262 | in every interleaving a task is held by at most one CPU, by exactly one when is_running is set, and no stack is used by two |
| Scheduler.ResumesLatest | kernel/src/kmt.c:181-262 | in every run, whatever is resumed, a task or the CPU's idle task, is not blocked, runs on its own stack, and gets the context of the last trap that saved one of it, or the one boot prepared |
| SchedulerRuns.PickExact | kernel/src/kmt.c:215-241 | a random choice, with the second look, dispatches the task if and only if it is not blocked and no other CPU has it; otherwise nothing changes |
| SchedulerRuns.WholeTrap | kernel/src/kmt.c:181-262 | in every reachable state a trap runs to its end with any such task as its choice: the CPU then runs it from where it was saved last, the task it had before the interrupted one is free, and nobody else notices |
| SchedulerRuns.IdleTrap | kernel/src/kmt.c:181-262 | and with no task to choose it resumes the CPU's idle task, where that was saved last |
| SchedulerRuns.BlockedUntilWoken | kernel/src/kmt.c:100-128 | in every run a task that blocked itself is resumed by no CPU until it is woken |
| SchedulerRuns.NestedTrap | kernel/src/uproc.c:653-702 | a trap inside a system call leaves the outer context slot alone, and leaving the call undoes entering it |
| SchedulerRuns.StepIsLocal | kernel/src/kmt.c:181-262 | a CPU's step touches no other CPU and no task but one it holds or chooses |
| Scheduler.ClaimKept | kernel/src/kmt.c:227-240 | the second look at block never turns a claimed task away |
| Scheduler.NestingBounded | kernel/src/uproc.c:653-702 | for any mix of traps, system calls and switches the nesting counter stays in 0..2 and at most 1 where a context can be saved |
| Semaphore.NextInv | kernel/src/kmt.c:95-129 | every access, early re-reads included, keeps the waiting lists, the counters and the block flags consistent, unless a task enters a list while another holds it |
| SemaphoreRuns.EarlyExactly | kernel/src/kmt.c:110-113 | a re-read is early exactly when a signaller with the lock has raised the counter to 0 and not yet unblocked the only waiter, the reader |
| SemaphoreRuns.LedgerNext | kernel/src/kmt.c:95-129 | initial value plus signals is accounted for across every access, early or not |
| SemaphoreRuns.CompletedBounded | kernel/src/kmt.c:95-129 | in every run, early re-reads included, in which no task enters a list while another holds it, completed waits never exceed initial value plus signals, and the list holds max(0, -resource) tasks when the lock is free |
| SemaphoreRuns.AloneBounded | kernel/src/kmt.c:95-129 | with one semaphore the bound holds in every run |
| SemaphoreRuns.SecondEntryBreaksBound | kernel/src/kmt.c:95-129 | the converse: every run that comes to such an entry can be continued, without a further signal to that semaphore, until the bound is broken |
| SemaphoreRuns.ReturnsReleased | kernel/src/kmt.c:110-129 | in runs without early re-reads a returning task is not blocked and in no list, but for the entry its signaller removes next |
| SemaphoreRuns.BlockedReturnIffEarly | kernel/src/kmt.c:110-113 | in such runs a task returns while marked blocked if and only if it re-reads a counter of 0, as the only waiter, while another task holds the lock between raising the counter and unblocking it |
| SemaphoreRuns.LostBlock | kernel/src/kmt.c:95-129 | a concrete run with one early re-read after which a task is about to enter a second list, and whose continuation completes a wait on a semaphore of value 0 that nobody signalled |
| SemaphoreCalls.WaitTakes | kernel/src/kmt.c:95-115 | a wait with a unit left takes it and returns |
| SemaphoreCalls.WaitBlocks | kernel/src/kmt.c:95-115 | a wait without one lists the task last, blocks it and takes it off its CPU |
| SemaphoreCalls.SignalAdds | kernel/src/kmt.c:117-129 | a signal with nobody waiting adds a unit |
| SemaphoreCalls.SignalWakes | kernel/src/kmt.c:117-129 | a signal with tasks waiting unblocks the one picked and takes exactly it out of the list |
| SemaphoreCalls.WokenReturns | kernel/src/kmt.c:111-115 | an unblocked waiter returns once it is dispatched |
| Irq.InsertOrdered | kernel/src/os.c:252-291 | registration keeps the handler list sorted and adds exactly one handler |
| Irq.Os.OnIrq | kernel/src/os.c:252-291 | the linked list after registration is the sorted insertion before equal numbers |
| Irq.Os.Trap | kernel/src/os.c:293-323 | for a live task, or if the exit of a killed one returns: a system call runs the first handler it reaches and returns the interrupted context; any other event runs all it reaches and returns the answer of the only one that gives one, and panics exactly when none or two do; otherwise no handler runs |
| Irq.DispatchRuns | kernel/src/os.c:305-319 | a trap runs the matching handlers in list order, only the first for a system call and all of them otherwise |
| Irq.DispatchAnswers | kernel/src/os.c:305-322 | for other events than system calls: a context x comes back if and only if exactly one of the handlers reached answers, with x; the two panics happen exactly when none and when two answer |
| Irq.MatchingIs | kernel/src/os.c:306 | the handlers an event reaches are those registered for it or for everything |
| Irq.MatchingInOrder | kernel/src/os.c:305-319 | it reaches them in the order of the list |
| Irq.InsertAt | kernel/src/os.c:252-291 | a handler goes right behind those with smaller numbers |
| Irq.BootOrder | kernel/src/os.c:194-197 | whatever drivers add, the system call handler precedes the context save, which precedes the scheduler, which stays last |
| Irq.SyscallSavesNothing | kernel/src/os.c:308-310 | a system call runs its handler alone and returns the interrupted context |
| PageTable.IndexMeaning | abstract-machine/am/src/x86/qemu/vme.c:49-51 | masking and shifting selects the level's digits of the address |
| PageTable.SameTupleSamePage | abstract-machine/am/src/x86/qemu/vme.c:49-75 | equal index tuples mean equal page numbers |
| PageTable.EntryMeaning | abstract-machine/am/src/x86/qemu/vme.c:53-55 | an entry's page and flags can be read back from it |
| PageTable.WalkIsLookup | abstract-machine/am/src/x86/qemu/vme.c:57-75 | following entries through memory gives the entry of the index tuple |
| PageTable.LeafDecides | abstract-machine/am/src/x86/qemu/vme.c:57-75 | the tables on the way never take a right away: the hardware lets a program read or write exactly where the leaf entry does |
| PageTable.AddTableOk | abstract-machine/am/src/x86/qemu/vme.c:66-68 | linking a zeroed page in keeps the tables a tree without sharing and changes no translation |
| PageTable.SetLeafOk | abstract-machine/am/src/x86/qemu/vme.c:147-154 | writing a leaf changes the translation of one index tuple and no table |
| AddressSpaces.CopyKernelArea | abstract-machine/am/src/x86/qemu/vme.c:124-129 | the loop over addresses, also where it wraps to 0, copies exactly the area's root entries |
| AddressSpaces.CopyKernelAreas | abstract-machine/am/src/x86/qemu/vme.c:120-131 | the root holds the kernel's entries in the kernel's slots and nothing elsewhere |
| AddressSpaces.ConfigurationsApart | abstract-machine/am/src/x86/qemu/vme.c:3-34 | in both configurations the user area avoids the kernel's root slots |
| AddressSpaces.AddressSpace.constructor | abstract-machine/am/src/x86/qemu/vme.c:117-135 | protect builds valid tables from one page, sharing the kernel's entries |
| AddressSpaces.PgAllocZ | abstract-machine/am/src/x86/qemu/vme.c:40-47 | whatever the page held, it is zeroed |
| AddressSpaces.AddressSpace.PtWalk | abstract-machine/am/src/x86/qemu/vme.c:57-75 | the place of the leaf entry; exactly the missing tables of the way are asked for and added, no translation changes, and it fails exactly when one of the answers is NULL |
| AddressSpaces.AddressSpace.Map | abstract-machine/am/src/x86/qemu/vme.c:141-156 | the page's entry is present, for users, at the given frame, and writable exactly when the protection says so, or 0 when it allows nothing; every other page translates as before, and each panic has its exact cause, a missing page included |
| AddressSpaces.HardwareSees | abstract-machine/am/src/x86/qemu/vme.c:57-75 | for user addresses the hardware's walk from the root sees exactly this map, rights included |
| AddressSpaces.KernelEntriesKept | abstract-machine/am/src/x86/qemu/vme.c:120-131 | in every state reached by these operations the root's kernel entries are the shared ones |
| AddressSpaces.AddressSpace.Teardown | abstract-machine/am/src/x86/qemu/vme.c:77-87 | frees the pages of one subtree, each once, and reads none after freeing it |
| AddressSpaces.AddressSpace.Unprotect | abstract-machine/am/src/x86/qemu/vme.c:137-139 | after any sequence of map calls the pages freed are exactly the pages obtained, each once |
| VmAreas.SuitableIsLeast | kernel/src/uproc.c:120-144 | the least address from the hint on whose pages overlap no area, page aligned when the hint is |
| VmAreas.InsertKeepsOrder | kernel/src/uproc.c:162-199 | insertion succeeds exactly when nothing overlaps, and keeps the list sorted and disjoint |
| VmAreas.PlacementNeverFails | kernel/src/uproc.c:146-199 | what placement returns, insertion accepts |
| VmAreas.FindIsComplete | kernel/src/uproc.c:201-220 | the walk finds the covering area if there is one, and there is at most one |
| VmAreas.CopyRound | kernel/src/uproc.c:452-463 | a round of fork copies its area exactly when the size is an int and the end check passes |
| VmAreas.ToIntMeaning | kernel/src/uproc.c:453 | the size is reduced modulo 2^32 into the range of an int |
| VmAreas.LongRoundSpoils | kernel/src/uproc.c:452-463 | a round with a longer area leaves a copy that no later round can make equal |
| VmAreas.LongestAreaIsNotCopied | kernel/src/uproc.c:146-160 | an area of 2^31 bytes can be built and is not copied |
| VmAreaLists.VmList.GetSuitableAddr | kernel/src/uproc.c:120-144 | the list walk computes the placement, and when the assertion on the end holds |
| VmAreaLists.VmList.NewVmeNode | kernel/src/uproc.c:146-160 | a fresh unlinked node for the placed range |
| VmAreaLists.VmList.InsertVmeNode | kernel/src/uproc.c:162-199 | head, tail and both link directions spell the new sequence; on overlap nothing changes |
| VmAreaLists.VmList.FindVmeNode | kernel/src/uproc.c:201-220 | returns a node if and only if it covers the range |
| VmAreaLists.VmList.Mmap | kernel/src/uproc.c:367-372 | the least free range joins the list, which stays sorted; the insertion check never fails |
| VmAreaLists.VmList.ForkCopyingVmePages | kernel/src/uproc.c:441-465 | the call succeeds and the new list has identical ranges, protections and flags if and only if every size is below 2^31 and every later area ends inside the user area |
| MappedPages.FindAfterRemove | kernel/src/uproc.c:236-254 | deleting a page changes what the list says about that page only |
| MappedPages.FindWithout | kernel/src/uproc.c:326-334 | a range removal removes exactly the range |
| MappedPages.MapKeepsImage | kernel/src/uproc.c:311-319 | list and table agree after mapping a page |
| MappedPages.UnmapKeepsImage | kernel/src/uproc.c:321-324 | list and table agree after unmapping a page |
| MappedPages.TaskPages.InsertMapPage | kernel/src/uproc.c:222-234 | a fresh node in front of the list |
| MappedPages.TaskPages.FindMappedPage | kernel/src/uproc.c:256-266 | the node recorded for the page, or NULL exactly when there is none |
| MappedPages.TaskPages.DeleteMapPage | kernel/src/uproc.c:236-254 | the linked list loses exactly the page's node, and the panic happens exactly when there is none |
| MappedPages.TaskPages.PgMap | kernel/src/uproc.c:311-319 | when the call succeeds and when a table page is missing, exactly; afterwards the page has the frame and the user's rights, list and table agree if and only if some access is allowed, and only the page's translation has changed |
| MappedPages.ConvertMeaning | kernel/src/uproc.c:268-280 | the user's read and write bits become the machine's, and nothing else does |
| MappedPages.NoAccessRun | kernel/src/uproc.c:311-319 | two successful calls after which a page is listed twice and translates to nothing |
| MappedPages.TaskPages.PgUnmap | kernel/src/uproc.c:321-324 | the page leaves both, every other page keeps its entry, no table page is taken |
| MappedPages.TaskPages.DeleteMapping | kernel/src/uproc.c:326-334 | exactly the listed pages of the range leave list and table, all other entries are as before |
| Tty.FinishedLinesStay | kernel/src/dev/dev_tty.c:67-85 | backspace never eats into a finished line, whatever is typed later |
| Tty.PlainKeysStay | kernel/src/dev/dev_tty.c:67-85 | without backspaces the text is what was typed, key for key |
| Tty.BackspaceUndoes | kernel/src/dev/dev_tty.c:67-85 | backspace undoes the key before it, unless that ended a line or there is none |
| Tty.OnlyTextMatters | kernel/src/dev/dev_tty.c:67-85 | with these two laws, what is typed next depends on the text alone, which settles every sequence of keys |
| Tty.CutMeaning | kernel/src/dev/dev_tty.c:230-242 | what a reader gets is the longest prefix of at most count bytes |
| Tty.Session | kernel/src/dev/dev_tty.c:226-245 | the device driven by any keys and reads, however interleaved: it fails exactly when a key overfills the ring, and else the k-th read has returned the k-th typed line after its backspaces, cut to count |
| Tty.TtyDevice.constructor | kernel/src/dev/dev_tty.c:217-221 | the empty queue over a zeroed buffer |
| Tty.TtyDevice.Enqueue | kernel/src/dev/dev_tty.c:14-21 | one byte is added across any wrap-around; it panics exactly when the ring is full |
| Tty.TtyDevice.PopBack | kernel/src/dev/dev_tty.c:23-34 | the last byte is taken back unless it ends a line or the ring is empty |
| Tty.TtyDevice.Cook | kernel/src/dev/dev_tty.c:67-85 | the ring holds exactly the unread lines and the current one, every unread line is counted, and a full ring is the only failure |
| Tty.TtyDevice.ReadWait | kernel/src/dev/dev_tty.c:228 | passing the wait keeps every unread line counted |
| Tty.TtyDevice.Dequeue | kernel/src/dev/dev_tty.c:230-242 | the bytes up to the first NUL, cut to count, leave the ring |
| Tty.TtyDevice.ReadLine | kernel/src/dev/dev_tty.c:229-244 | the oldest unread line of all that was typed, with its newline, cut to count |

## Left out

- Copy-on-write fork, page faults, exit, wait, kill and pid recycling of `kernel/src/uproc.c`: the source itself calls that code not debugged, and it has no clean invariant.
- `distribute_tree` and `cpu_trees` of `kernel/src/tbma.c`: the allocator never reads them.
- The TEST canary code, `kernel/test`, `Tworker_cache_para` (not called by `main`), and the zeroing of statically allocated globals, which is the models' start state.
- Buddy.BuddySystem.BbmaAlloc: contention on a tree's lock is the parameter `busy`; the trees' own critical sections are taken as atomic.
- Buddy.BuddySystem.GetTheFreeSpaceInTree: the two branches that return NULL inside the tree are dead under the contract and not written out; the two recursive calls are one call with a chosen child.
- Buddy.BuddySystem.constructor: what memory the source damages when it overruns the static array; the array's size is a parameter of at most half the smallest block (32 against 2048 in the source), which MetadataBelowBlocks shows to be exactly what the layout admits.
- Pmm.Allocator.Kalloc: each page's critical section is taken as atomic, and a new page's lock is taken to be free although the source does not set it; page headers and block words are maps from addresses rather than one byte array.
- Pmm.Allocator.Kfree: the caller passes NULL or a live block, as C requires.
- Interrupt disabling around `kalloc` and `kfree` (`kernel/src/pmm.c:89-102`).
- Int64Signed.Divdi3: signed arithmetic, here as in Moddi3 and Divmoddi4, is taken to wrap around, as compilers for the kernel's machines make it; in standard C `(a ^ s_a) - s_a` overflows for the most negative number.
- PmmRuns.Session: clients release what they hold and write inside it; a byte address stands for one memory cell.
- LcsWorkers.ParallelLcs: atomics are sequentially consistent and 2 <= T < MAX_THREAD, as the program is started.
- Scheduler.NextInv: starts after boot with every CPU on its idle task; the random choice is an arbitrary one; CPU and task records are values of a transition system, so aliasing between records is not modelled.
- Scheduler.ResumesLatest: register contents and stacks are abstract context numbers.
- Semaphore.NextInv: says nothing of the access with which a task enters a second list (SecondEntryBreaksBound does); fewer waiters than the array holds; the semaphore's lock is the one SpinLock describes, taken and released in one access each.
- SpinLock.NextInv: `push_off` and `pop_off` are one access each; a lock taken twice by one CPU spins for ever, which the model allows.
- Irq.Os.Trap: handlers are functions that answer a context or NULL; whether the exit of a killed task returns is a parameter, and what else `kexit` does is not modelled.
- AddressSpaces.AddressSpace.constructor: `pgalloc`'s answer for the root is not NULL, since the panic on NULL comes before any state exists; the kernel's own table, built by `vme_init` or the boot code, is a parameter whose entries carry no user flag.
- AddressSpaces.AddressSpace.Map: `pgalloc` answers with unused, distinct, page-aligned pages or NULL; page contents other than table pages are not modelled.
- VmAreaLists.VmList.Mmap: the unmapping branch of `kmmap`, whose two halves are FindVmeNode and DeleteMapping.
- VmAreas.SuitableIsLeast: addresses are mathematical integers, so wrap-around of `uintptr_t` at the end of the address space is not modelled.
- VmAreaLists.VmList.ForkCopyingVmePages: which other areas a failed copy holds, beyond that they differ; the lock around the walk is not modelled.
- MappedPages.TaskPages.PgMap: the copy-on-write counter is not modelled, and nodes returned to the allocator are simply forgotten.
- Tty.TtyDevice.Cook: the tty task never passes NUL (`kernel/src/dev/dev_tty.c:305`), and the two semaphores around the critical sections are counters.
- Tty.TtyDevice.constructor: the buffer is zeroed, which the source leaves to the memory it is given.
- Screen output, tiles, keymaps and the other devices: no property beyond their loops.
- Registers, assembly, lapic and ioapic, timer, audio and boot code: hardware.
