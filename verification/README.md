# Verification of the ucore lab6 kernel

A Dafny model of the algorithms of ucore lab6, a small teaching kernel for RISC-V, and proofs
about it. The kernel's work is done in intrusive pointer structures and in state kept from one
call to the next; the model keeps both. A pointer structure is a class field that maps addresses
to records (`links`, `mem`, `tables`), every method performs the source's assignments in the
source's order, and its contract ties the new memory to the mathematical object the pointers
denote: a list, a tree, a set of blocks, a mapping.

`dafny verify dfyconfig.toml` checks everything.

## What is modelled

**Processes** (`ProcModel`, `ProcSafety`, `ProcRuns`, `ProcEffects`, `ProcLinks`, `PidHash`, `PidAlloc`,
`ProcKernel`). The kernel runs on one core and is not preempted inside the kernel, so a system
call up to its `schedule()` is one atomic step. `ProcModel` is the state machine of fork, exit,
wait, kill, yield, tick and reschedule; `ProcSafety` its invariant; `ProcRuns` what holds in every
state of every run; `ProcEffects` what each call does to every process, and the way of an exit code
to the parent. `ProcKernel.Kernel` is the implementation with `cptr/optr/yptr`, the pid hash
table and the static variables of `get_pid`; each of its methods is proved to make exactly one step
of the state machine and to keep the pointers in agreement with it. Two history variables are not
in the source: `birth` (the number of forks before a process was linked) and `badWakeups` (the
calls of `wakeup_proc` on a process that was already runnable or dead).

**Scheduling** (`SkewHeap`, `SkewCost`, `SchedOrder`, `RunQueue`, `StrideRuns`, `ListRing`, `RoundRobin`). The
skew heap on parent, left and right pointers for any comparison function, and its amortised cost; the run queue of the
stride, HPF and SJF classes on that heap; the wrap-around comparison of strides against the order
of unbounded strides; fairness over whole runs; the round-robin queue on the circular list.

**Allocators** (`PageRuns`, `PageAlloc`, `Slob`, `Kmalloc`). The first-fit page list and the SLOB ring,
both against the same mathematics: a free set has exactly one decomposition into maximal runs; on
the ring, `kmalloc` and `kfree` with their list of big blocks.

**Page tables** (`Sv39`, `PageTable`, `PageMap`, `PageBudget`, `PageCopy`, `Mmu`, `PageRefs`,
`PageExit`). Three-level Sv39 tables (section 4.4 of the RISC-V Privileged Architecture v1.12) in
physical memory, reference counts, mapping, unmapping and the copying of ranges at fork. `PageMap.Conserved` says of an operation that it neither
leaks a frame nor takes away one that the rest of the kernel holds. `PageBudget` keeps an account of
frames for mapping a sequence of pages: from the memory before the first page it says at which page,
and how, mapping stops for want of frames. `PageExit` is `exit_range` and `put_pgdir`, with an account
(`Accounted`) that also knows of page tables nothing leads to any more.

**Address spaces** (`Vmm`, `Fork`, `LoadImage`, `Loader`). The VMA list with its one-entry cache,
`mm_map`, fork duplication and what undoes it, the user range check, and the segment loops of the
ELF loader.

**Number text** (`NumText`). `printnum` and `strtol`.

`Lists`, `Div` and `Wrappers` hold facts about sequences, facts about division, and the option type.

## Results to read first

- `ProcRuns.DeadlockFree`, `ProcRuns.SleepersHaveWork`, `ProcRuns.QueueMembership`,
  `ProcRuns.AllDescendFromInit`, `ProcRuns.InitAlone`: whole runs of the kernel.
- `ProcEffects.ZombieKeepsCode`, `ProcEffects.ExitReachesWait`, `ProcKernel.Kernel.ResumeWait`: the exit
  code a parent gets is the one its child exited with.
- `PidAlloc.GetPid`: the fast path of `get_pid` is sound and its repeat loop ends.
- `StrideRuns.RunKeepsWindow`, `StrideRuns.ShareByPriority`, `StrideRuns.WaitingBoundedIff`.
- `SkewHeap.Pool.RemoveNode`: removal of an arbitrary node at pointer level. `SkewCost.AllCost`: the
  amortised cost of the heap, which rests on the swap of the children in every merge step.
- `PageAlloc.Pmm.FreePages`: the free list survives if and only if the block is not appended
  behind the last block of a non-empty list.
- `Slob.Heap.Alloc`, `Slob.Heap.Free`, `Slob.CarveIff`, `Kmalloc.KernelHeap.Kfree`, `Kmalloc.BigEnoughIff`.
- `PageRefs.CountsAreMappings`: reference counts over all address spaces.
- `Mmu.AddressSpaces.CopyRange`, `Fork.CopyMm`, `Fork.ExitChild`: fork isolation, its price in frames, and
  its undoing.
- `PageExit.CleanIff`: when the exit of a process gives all its page tables back.
- `Vmm.UserMemCheck`, `Loader.LoadFile`, `NumText.PrintThenParse`.

## Where the code does not meet its description

- *Tail append.* The branch at `kern/mm/default_pmm.c:171-174` has no `break`: the loop body runs
  again on the new block's own link and leaves the block as its own predecessor. Freeing therefore
  keeps a doubly linked list exactly when the list is empty or some free block lies above the freed
  one (`PageAlloc.Pmm.FreePages`, both directions). `PageAlloc.TailRun` is a run of four calls that
  ends so. The broken list can still be walked, and allocation goes on: `PageAlloc.AllocTwice` says exactly
  when two allocations hand out the same pages, and `PageAlloc.TailTwice` is a run that does.
- *Guard of `__kmalloc`.* `kern/mm/kmalloc.c:234` admits sizes that the assertion at
  `kern/mm/kmalloc.c:99` rejects; `Slob.Heap.SmallAlloc` gives the exact bound.
- *A lone SLOB block.* Cutting units from the only block of the ring leaves `slobfree` inside the
  units handed out (`Slob.CarveIff`). Requests of at least one byte never meet that case, because the
  one-unit arena stays on the ring. A request of zero bytes takes the arena exactly when `slobfree`
  stands before it (`Slob.Heap.Alloc`), and `Slob.ArenaTaken` says what is left; on the initial heap
  two such requests get the same pointer (`Slob.ZeroBytesTwice`).
- *Size of a big block.* `find_order` halves and rounds down, and takes an `int`. The pages hold the bytes
  asked for exactly when the size is below 2^31 and for no order k above 0 lies less than 2^k bytes
  above 4096 * 2^k (`Kmalloc.BigEnoughIff`); `kmalloc(8193)` gets 8192 bytes.
- *Overlap in `mm_map`.* An overlapping request is refused with an error only when its first page
  is inside an existing area; an area that begins further up fails an assertion of
  `insert_vma_struct` instead (`Vmm.Mm.Map`, exact conditions; `Vmm.OverlapRun`, two calls that do it).
- *`copy_range` out of memory.* A missing page table gives an error code, a missing page fails an
  assertion. With `need` tables missing on the walk of a page, fewer free frames than `need` give the
  code, exactly `need` the assertion, more succeed (`Mmu.AddressSpaces.CopyPage`). For a range the
  account of frames decides (`Mmu.AddressSpaces.CopyRange`); into an address space that maps nothing it
  comes down to the number of frames (`PageBudget.VerdictFresh`, `Vmm.ForkVerdict`, `Fork.CopyMm`). `Mmu.CopyPanics` is a
  fork of one page that fails the assertion. The error branch after `page_insert` is unreachable.
- *Lost page tables.* `exit_range` keeps a level-0 directory when some word it visits leads to no leaf
  table, and frees it otherwise (`kern/mm/pmm.c:332-363`), where its comment has it free the directory
  once all words are invalid. Leaf tables at words not visited are then lost, and a directory kept
  for good is lost with the root. `PageExit.CleanIff` says exactly when a 1 GB region is given back
  whole; two one-page areas in neighbouring 2 MB regions, both mapped, lose a table
  (`PageExit.SecondTableLost`, and `PageExit.SecondTableLostRun` from an empty memory).
- *Segments whose end wraps.* `mm_map` accepts a header whose `va + memsz` wraps at 64 bits back into the
  page of `va`. The size of the tail at `kern/process/proc.c:719-724` then goes below zero, or nothing
  is zeroed at all. A header that is accepted and loaded is in place exactly when the sum does not
  wrap (`Loader.LoadSegment`, `Loader.AllLoadedInPlace`); `Loader.WrappedTail` and `Loader.WrappedNothing`
  are two such headers. Nor does the loader look at the file's size (`Loader.ImageOfFile`).
- *Starvation.* A priority above `BIG_STRIDE` gives a pass of 0 (`SchedOrder.Pass`). A waiting process
  has a bound on the picks it waits exactly when no other runnable process whose stride is not above
  its own has such a priority (`StrideRuns.WaitingBoundedIff`); behind one of strictly smaller stride it
  is never picked (`StrideRuns.NeverPicked`, `StrideRuns.StarvedInput`). At equal strides the heap breaks
  the tie, and the runs leave it open.

## Assumptions

- Stride runs: an arriving process keeps the true strides less than 2^31 apart. New processes start
  at stride 0 and woken ones keep an old stride, so this is a property of the workload. Bounded
  waiting is about runs of picks: no arrivals, exits or changes of priority in between.
- SLOB: pages from the page allocator lie above the arena and away from blocks in use.
- Page tables: user addresses only, since the boot root holds a 1 GB leaf for the kernel.
- Loader: the header fields are 64-bit words, and memory from the file on can be read.
- `strtol`: signed overflow, undefined in C, is taken to wrap at 64 bits; `NumText.NoOverflow` shows that
  for text printed from a number below 2^63 it does not happen.

Allocation success inside larger operations (`kmalloc` of a `proc_struct` or a `vma_struct`, the
kernel stack) is a parameter. Context switch is "current := next".

## Model

| member | source | states |
|---|---|---|
| PidAlloc.SomeFree | kern/process/proc.c:214-216 | fewer than MAX_PROCESS pids in use leave one free, by counting |
| PidAlloc.Scan | kern/process/proc.c:224-250 | from `inside` on, the loop with its `repeat` jump ends, on the first unused pid in cyclic order, and next_safe bounds a gap above it |
| PidAlloc.GetPid | kern/process/proc.c:211-251 | get_pid returns the cyclically next unused pid, on the fast path too, and its two static variables again bracket a gap |
| PidAlloc.NextFreeUnique | kern/process/proc.c:211-251 | the cyclically next unused pid is unique, so the answer of get_pid is determined by the pids in use and the last one given out |
| PidHash.HashAdd | kern/process/proc.c:292-296 | hashing a new process under hash32 of its pid keeps every bucket equal to the listed processes with that hash |
| PidHash.HashRemove | kern/process/proc.c:299-303 | unhashing a listed process keeps every bucket exact |
| PidHash.FindProc | kern/process/proc.c:306-322 | the bucket scan finds a listed process exactly when its pid is in range and in use |
| ProcLinks.AddEncodes | kern/process/proc.c:177-188 | set_links puts the process in front of its parent's list and leaves every other sibling list spelled by the pointers |
| ProcLinks.MoveEncodes | kern/process/proc.c:586-597 | one reparenting round moves the head of one list to the head of the other, though the next child keeps a stale yptr |
| ProcLinks.CutEncodes | kern/process/proc.c:191-208 | remove_links takes a child out of any place of its parent's list |
| ProcSafety.RunnableBelow | kern/process/proc.c:849-919 | down the chain of waiters below any process that is not a zombie there is a runnable process |
| ProcSafety.ScheduleFindsWork | kern/schedule/sched.c:104-132 | when the current process gives up the CPU, the queue is not empty, so idleproc is not chosen |
| ProcSafety.BootInv | kern/process/proc.c:1023-1058 | the state left by proc_init satisfies the invariant |
| ProcSafety.ForkInv | kern/process/proc.c:453-545 | fork keeps the invariant: tree, pids, queue, sleepers, counts |
| ProcSafety.AdoptAllMid | kern/process/proc.c:584-606 | the whole reparenting loop keeps the invariant up to the childless-zombie clause for the exiting process |
| ProcSafety.ExitBase | kern/process/proc.c:553-610 | exit up to schedule() keeps the invariant, also when zombie children pass to a sleeping initproc |
| ProcSafety.WaitInv | kern/process/proc.c:859-919 | a round of do_wait keeps the invariant, whether it reaps, sleeps or fails |
| ProcSafety.ReapInv | kern/process/proc.c:901-918 | reaping a zombie child keeps the invariant |
| ProcSafety.KillInv | kern/process/proc.c:922-939 | kill keeps the invariant; a sleeper it wakes is not lost |
| ProcSafety.StepInv | kern/process/proc.c:453-939 | every step of the state machine keeps the invariant |
| ProcSafety.RunInv | kern/process/proc.c:453-939 | the invariant holds in every state of every run |
| ProcRuns.DeadlockFree | kern/schedule/sched.c:104-132 | in every state of every run some process other than idleproc is runnable |
| ProcRuns.IdleNeverAgain | kern/schedule/sched.c:104-132 | once idleproc has been left it is never current again |
| ProcRuns.SleepersHaveWork | kern/process/proc.c:862-898 | no lost wakeup: a sleeper has a child its wait matches, and none of those is a zombie |
| ProcRuns.QueueMembership | kern/schedule/sched.c:81-132 | a process is queued exactly once iff it is runnable, not current and not idleproc; every wakeup so far found its target neither runnable nor a zombie |
| ProcRuns.ClimbsToInit | kern/process/proc.c:583-606 | parent links lead from every linked process to initproc |
| ProcRuns.AllDescendFromInit | kern/process/proc.c:583-606 | in every run every process reaches initproc and zombies have no children |
| ProcRuns.InitAlone | kern/process/proc.c:1006-1015 | once initproc has no child, the assertions of init_main hold: two processes, initproc alone on the list and without siblings |
| ProcRuns.AdoptAllKids | kern/process/proc.c:584-606 | initproc ends with the reversed children of the exiting process before its own, and exactly those change parent |
| ProcRuns.ExitKids | kern/process/proc.c:553-606 | the same for do_exit from any reachable state |
| ProcRuns.BootStarts | kern/process/proc.c:1023-1071 | idleproc starts out asking for a reschedule, and whatever the class picks is initproc |
| ProcEffects.ForkEffect | kern/process/proc.c:453-545 | fork field by field: the child runnable and queued once, nobody else changed |
| ProcEffects.KillEffect | kern/process/proc.c:922-939 | kill field by field: a sleeper is marked, runnable and queued once, any other process marked only |
| ProcEffects.AdoptAllEffect | kern/process/proc.c:584-606 | the reparenting loop, process by process: exactly the children change parent, and initproc wakes exactly when it slept and one of them is a zombie |
| ProcEffects.ExitEffect | kern/process/proc.c:553-610 | exit field by field: the code stored, the children handed over, exactly the sleepers concerned woken |
| ProcEffects.WaitOutcome | kern/process/proc.c:859-898 | which of the three outcomes a wait has is told from the states and pids of the children |
| ProcEffects.ReapEffect | kern/process/proc.c:901-918 | the zombie reaped is the youngest that matches, and it alone is gone |
| ProcEffects.StepCodes | kern/process/proc.c:453-939 | only exit makes a zombie or sets a code, and only a matching wait of the parent takes a zombie away |
| ProcEffects.RunIsTrace | kern/process/proc.c:453-939 | every run is the run of a sequence of events |
| ProcEffects.ZombieKeepsCode | kern/process/proc.c:575-576 | in every run a zombie has an exit in its past, with its own code or -E_KILLED, and has kept that code ever since |
| ProcEffects.ExitReachesWait | kern/process/proc.c:901-918 | from its exit on a process stays a zombie with that code, up to a wait of its parent for its pid or for any child |
| ProcKernel.Kernel.constructor | kern/process/proc.c:1023-1058 | the tables after proc_init implement the boot state |
| ProcKernel.Kernel.WakeupProc | kern/schedule/sched.c:81-102 | a process that is not runnable becomes runnable with wait_state 0 and is queued unless it is current; a runnable one and everybody else stay as they are |
| ProcKernel.Kernel.Schedule | kern/schedule/sched.c:104-132 | need_resched of current is cleared, current goes back to the queue if runnable, and one process leaves the queue for the CPU, idleproc only when there is none |
| ProcKernel.Kernel.DoFork | kern/process/proc.c:453-545 | error codes at the process limit and without memory, with nothing changed; otherwise a runnable child of current with the cyclically next pid, the youngest of its list and queued once, and nobody else changed |
| ProcKernel.Kernel.AdoptChildren | kern/process/proc.c:584-606 | the loop over cptr ends and has moved every child |
| ProcKernel.Kernel.DoExit | kern/process/proc.c:553-610 | panics exactly for idleproc and initproc; otherwise current is a zombie with the code given, its children belong to initproc, a sleeping parent and an initproc that is handed a zombie wake up, and nothing else of any process changes |
| ProcKernel.Kernel.FindZombieChild | kern/process/proc.c:860-888 | the search by pid (hash) or over optr finds the first matching zombie, and haskid says whether any child matches |
| ProcKernel.Kernel.WaitFrom | kern/process/proc.c:859-919 | from `repeat`: reaps exactly when a matching child is a zombie, which is gone then and whose exit code is the result; sleeps exactly when a child matches and none is a zombie; E_BAD_PROC exactly when none matches |
| ProcKernel.Kernel.DoWait | kern/process/proc.c:849-919 | E_INVAL for a bad code_store with nothing changed; otherwise exit code, sleep or E_BAD_PROC, each exactly when the children say so |
| ProcKernel.Kernel.ResumeWait | kern/process/proc.c:889-898 | a waiter that was killed exits with -E_KILLED; any other reaps the exit code, sleeps again or fails with E_BAD_PROC, each exactly when its children say so |
| ProcKernel.Kernel.DoKill | kern/process/proc.c:922-939 | E_INVAL exactly when no listed process has the pid, E_KILLED with nothing changed exactly when it was marked before; otherwise it is marked, woken and queued once if it slept, left in its state if not, and nobody else changes |
| ProcKernel.Kernel.NeedResched | kern/process/proc.c:837-842 | yield and an expired tick set need_resched of current and nothing else |
| ProcKernel.Kernel.ReschedIfAsked | kern/process/proc.c:1060-1071 | the idle loop reschedules exactly when asked to and then no longer is; otherwise nothing changes |
| ProcKernel.Kernel.TrapReturn | kern/trap/trap.c:275-285 | the return to user mode: a marked process becomes a zombie with code -E_KILLED, any other reschedules exactly when asked to; a panic exactly for a marked idleproc or initproc |
| SkewHeap.RootIsFirst | libs/skew_heap.h:41-73 | in an ordered heap nothing goes before the root |
| SkewHeap.MergeNodes | libs/skew_heap.h:41-73 | a merge holds exactly the nodes of both heaps |
| SkewHeap.MergeOrdered | libs/skew_heap.h:41-73 | a merge of ordered heaps is ordered for any total preorder |
| SkewHeap.RemoveNodes | libs/skew_heap.h:83-100 | a removal loses exactly the node, whichever it is |
| SkewHeap.RemoveOrdered | libs/skew_heap.h:83-100 | a removal keeps heap order |
| SkewHeap.SpellsUnique | libs/skew_heap.h:16-18 | the pointers denote one tree only |
| SkewHeap.Pool.MergeHeaps | libs/skew_heap.h:41-73 | the recursive pointer merge spells the merged tree with right parent links and touches nothing else; the root is the first heap's exactly when that goes before the other, and the calls are counted |
| SkewHeap.Pool.Insert | libs/skew_heap.h:75-81 | insertion of a new node, root parent null |
| SkewHeap.Pool.RemoveNode | libs/skew_heap.h:83-100 | removal of any node through its parent pointer leaves a heap, root parent null, and no other memory changed |
| SkewCost.SpinesAreShort | libs/skew_heap.h:41-73 | the right-heavy nodes on the left spine and the others on the right spine are at most log2 of the size |
| SkewCost.MergeSpines | libs/skew_heap.h:41-73 | the calls of a merge are paid for by the right-heavy nodes that swapping the children removes, up to those on three spines |
| SkewCost.MergeCost | libs/skew_heap.h:41-73 | amortised, a merge makes at most 3 log2(n + 1) + 1 calls |
| SkewCost.AllCost | libs/skew_heap.h:75-100 | any m insertions and removals of the first node make at most m * (3 log2(n + m + 1) + 1) calls beyond the credit of the n nodes they start from, which is 0 for an empty heap |
| SchedOrder.ToInt32 | kern/schedule/default_sched_stride.c:40-47 | the signed reading of a 32-bit difference is congruent to it and in range |
| SchedOrder.WrapAgrees | kern/schedule/default_sched_stride.c:30-48 | the wrap-around comparison is the true order iff the difference fits 32 signed bits |
| SchedOrder.Pass | kern/schedule/default_sched_stride.c:207-217 | the pass is the quotient: pass * priority <= BIG_STRIDE < (pass + 1) * priority; it is 0 exactly above BIG_STRIDE |
| SchedOrder.StaticPreorder | kern/schedule/default_sched_hpf.c:20-38 | the HPF and SJF comparisons are total preorders on any set of processes |
| SchedOrder.StaticPickUnique | kern/schedule/default_sched_sjf.c:23-41 | with distinct pids the HPF and SJF pick is the unique extreme by (priority, pid) |
| SchedOrder.StrideIsTrueOrder | kern/schedule/default_sched_stride.c:30-48 | within a spread below 2^31 the comparison orders any set as the unbounded strides do |
| SchedOrder.PickKeepsWindow | kern/schedule/default_sched_stride.c:178-218 | advancing a minimal process keeps the spread below 2^31 |
| RunQueue.RunQueue.Enqueue | kern/schedule/default_sched_stride.c:100-126 | enqueue of an unqueued process keeps the heap valid, adds it, and refills its slice, at amortised logarithmic cost |
| RunQueue.RunQueue.PickNext | kern/schedule/default_sched_stride.c:178-218 | the pick goes before every queued process or ties; its changed stride disturbs the order at the root only |
| RunQueue.RunQueue.Dequeue | kern/schedule/default_sched_stride.c:140-156 | dequeue of any process, also of the disturbed root, restores heap order; of the root at amortised logarithmic cost |
| RunQueue.RunQueue.Schedule | kern/schedule/sched.c:104-132 | put back, pick and dequeue together take a first process among all candidates and move only its key, at amortised logarithmic cost |
| RunQueue.RunQueue.SetPriority | kern/process/proc.c:1073-1082 | changing the running process's priority leaves the heap ordered |
| RunQueue.RunQueue.ProcTick | kern/schedule/default_sched_stride.c:232-245 | a tick counts the slice down and asks for a reschedule at 0, keys untouched |
| RunQueue.ScheduleIsTrueMinimum | kern/schedule/default_sched_stride.c:178-218 | under the stride policy schedule() takes a process of truly minimal stride and keeps the spread |
| StrideRuns.RunKeepsWindow | kern/schedule/default_sched_stride.c:178-218 | over every run, strides stay less than 2^31 apart and every pick is of truly minimal stride |
| StrideRuns.ProportionalShare | kern/schedule/default_sched_stride.c:207-217 | two processes runnable throughout from equal strides get picks inversely to their passes, within one pass |
| StrideRuns.ShareByPriority | kern/schedule/default_sched_stride.c:207-217 | the same in priorities: ni * pj and nj * pi differ by one pick and the rounding of the passes at most, and a higher priority never gets fewer picks but for one |
| StrideRuns.PassAntitone | kern/schedule/default_sched_stride.c:207-217 | a higher priority never has the larger pass |
| StrideRuns.BoundedWaiting | kern/schedule/sched.c:113-120 | while no other process that is not ahead of x has a priority above BIG_STRIDE, x is picked within the sum of stride gap / pass + 1 over those processes |
| StrideRuns.WaitingBoundedIff | kern/schedule/default_sched_stride.c:207-217 | waiting of x is bounded iff no other runnable process with a stride not above that of x has a priority above BIG_STRIDE |
| StrideRuns.Starve | kern/schedule/default_sched_stride.c:207-217 | otherwise there are runs of any length without a pick of x |
| StrideRuns.NeverPicked | kern/schedule/default_sched_stride.c:207-217 | behind such a process of strictly smaller stride, no run at all picks x |
| StrideRuns.StarvedInput | kern/process/proc.c:1073-1082 | the same for two processes after set_priority(0x40000001): every pick is of the first |
| StrideRuns.ScheduleIsPick | kern/schedule/sched.c:104-132 | what schedule() does to the run queue is the step Pick of the runs, with the low words still those of the true strides |
| StrideRuns.ScheduleStep | kern/schedule/sched.c:104-132 | the run queue class takes that step from any queue inside the window |
| ListRing.EmptyIff | libs/list.h:112-115 | list_empty is true exactly for the empty list; next and prev of the head are its ends |
| ListRing.AddAt | libs/list.h:141-146 | __list_add between neighbours inserts at that position |
| ListRing.AddFirstLast | libs/list.h:66-82 | adding after and before the head gives the first and last element |
| ListRing.DelAt | libs/list.h:154-158 | __list_del removes exactly that element |
| RoundRobin.RrQueue.Enqueue | kern/schedule/default_sched.c:72-99 | RR_enqueue appends, its assertion holds, the slice is refilled when out of range |
| RoundRobin.RrQueue.PickNext | kern/schedule/default_sched.c:149-177 | RR_pick_next reads the head of the queue, nothing when empty |
| RoundRobin.RrQueue.Dequeue | kern/schedule/default_sched.c:113-133 | RR_dequeue removes the process from any place and empties its link |
| RoundRobin.RrQueue.Schedule | kern/schedule/sched.c:104-132 | schedule() over the queue class is the step Next of the runs: current to the tail if runnable, head out, need_resched cleared |
| RoundRobin.RrQueue.Wake | kern/schedule/sched.c:81-102 | wakeup_proc over the queue class is the step Wake of the runs |
| RoundRobin.RunsAfterItsTurn | kern/schedule/default_sched.c:149-177 | the process at position k runs after exactly k + 1 switches, whatever wakes up meanwhile |
| PageRuns.CanonicalUnique | kern/mm/default_pmm.c:142-202 | a set of free pages has one list of maximal runs |
| PageRuns.TotalIsSize | kern/mm/default_pmm.c:205-208 | nr_free, the sum of block sizes, is the number of free pages |
| PageRuns.TakePages | kern/mm/default_pmm.c:122-137 | splitting a block removes exactly its first n pages from the free set |
| PageRuns.TakeCanonical | kern/mm/default_pmm.c:122-137 | splitting keeps the runs maximal |
| PageRuns.FirstFitIsLowest | kern/mm/default_pmm.c:115-121 | no n free pages lie below the block first fit takes |
| PageRuns.CoalesceCanonical | kern/mm/default_pmm.c:177-201 | freeing with both merges keeps the runs maximal |
| PageRuns.CoalescePages | kern/mm/default_pmm.c:142-202 | freeing adds exactly the pages given back |
| PageRuns.FreeAfterAlloc | kern/mm/default_pmm.c:105-202 | free undoes alloc: the very same list |
| PageAlloc.TailNoRing | kern/mm/default_pmm.c:171-174 | after a tail append the links form no doubly linked list of any content |
| PageAlloc.TailBlockStaysListed | kern/mm/default_pmm.c:122-137 | unlinking that block later leaves it reachable from its neighbour |
| PageAlloc.Pmm.constructor | kern/mm/default_pmm.c:61-66 | default_init gives the empty free list |
| PageAlloc.Pmm.AllocPages | kern/mm/default_pmm.c:105-139 | on any list that can be walked, broken ones too: NULL exactly beyond nr_free or when no block on the walk is large enough, otherwise the first that is, with the exact links, sizes, flags and total after; from a well-formed list the maximal runs result |
| PageAlloc.TakeKeeps | kern/mm/default_pmm.c:122-137 | unlink, split and relink keep sizes, head flags and nr_free in agreement |
| PageAlloc.Pmm.InsertLink | kern/mm/default_pmm.c:80-102 | the insertion loop sorts the block in, except at the tail of a non-empty list, where the exact wrong links result |
| PageAlloc.Pmm.MergeAround | kern/mm/default_pmm.c:177-201 | the two merges turn the list with the block inserted into the coalesced one |
| PageAlloc.Pmm.FreePages | kern/mm/default_pmm.c:141-202 | the list is a well-formed list iff the block is not tail-appended, and then the maximal runs with the pages added; nr_free grows either way; after a tail append the exact broken list |
| PageAlloc.Pmm.InitMemmap | kern/mm/default_pmm.c:68-103 | the new block stands at its place in address order with sizes, head flags and links in agreement, unless it is tail-appended; well formed iff not; the first region gives the one-block list |
| PageAlloc.TailRun | kern/mm/default_pmm.c:141-175 | two pages taken one by one and given back in address order leave links that spell no list |
| PageAlloc.TailWalks | kern/mm/default_pmm.c:171-174 | after a tail append next still leads through all blocks, the new one last |
| PageAlloc.TailTaken | kern/mm/default_pmm.c:124-137 | unlinking the tail block through its own prev leaves it on the walk, with its rest behind it |
| PageAlloc.AllocTwice | kern/mm/default_pmm.c:105-139 | two allocations after a tail append both hand out the tail block iff no block before it is large enough for either, it is for each, and nr_free admits both |
| PageAlloc.TailTwice | kern/mm/default_pmm.c:105-175 | from the constructor: six pages, three frees, and pages 4 and 5 are handed out twice |
| Slob.CarveIff | kern/mm/kmalloc.c:120-136 | cutting units leaves a coalesced ring that slobfree points into iff the ring had another block |
| Slob.LinkInRing | kern/mm/kmalloc.c:176-190 | linking and merging gives the ring of the coalesced blocks |
| Slob.Heap.constructor | kern/mm/kmalloc.c:76-77 | the static initialisers form the one-block ring |
| Slob.Heap.Search | kern/mm/kmalloc.c:106-155 | one turn from slobfree finds the first block with room on the way exactly when there is one, and it is the arena only for one unit with slobfree just before it |
| Slob.Heap.Release | kern/mm/kmalloc.c:158-194 | slob_free keeps the ring circular, sorted and fully coalesced, and slobfree stands before the block freed |
| Slob.Heap.Alloc | kern/mm/kmalloc.c:97-156 | fails iff nothing fits and no page came; asks for at most one page, only when nothing fits; takes the next fit from slobfree on and leaves slobfree before it; units are conserved and disjoint from all free and used ones, unless it hands out the arena, which is exactly characterised |
| Slob.Heap.Free | kern/mm/kmalloc.c:158-194 | a block handed out becomes free units again, joined to its neighbours, and nothing else changes |
| Slob.Heap.Give | kern/mm/kmalloc.c:158-194 | slob_free with a size: memory without a header becomes exactly its units of the ring |
| Slob.Heap.SmallAlloc | kern/mm/kmalloc.c:228-238 | block large enough for the request, units conserved; panics exactly from PAGE_SIZE - 2 * SLOB_UNIT on; zero bytes may take the arena, exactly when slobfree is before it |
| Slob.OneUnit | kern/mm/kmalloc.c:65 | only a request of zero bytes asks for one unit |
| Slob.ArenaTaken | kern/mm/kmalloc.c:120-136 | after the arena is handed out the list is well formed iff it had another block; without one the unit handed out is still the only free block |
| Slob.ZeroBytesTwice | kern/mm/kmalloc.c:228-238 | on the initial heap two calls of kmalloc(0) return the same pointer |
| Kmalloc.FindOrder | kern/mm/kmalloc.c:220-226 | the halving loop computes the order function |
| Kmalloc.OrderRange | kern/mm/kmalloc.c:220-226 | order k is given to sizes from 4097 * 2^(k-1) up to one byte below 4097 * 2^k |
| Kmalloc.BigEnoughIff | kern/mm/kmalloc.c:240-257 | the pages of a big block hold the bytes asked for iff the size fits an int and is not less than 2^k bytes above 4096 * 2^k for any k above 0 |
| Kmalloc.OneByteShort | kern/mm/kmalloc.c:220-226 | kmalloc(8193) gets 8192 bytes |
| Kmalloc.PushBig | kern/mm/kmalloc.c:247-252 | a new record goes to the head of the list of big blocks, and the memory held grows by the record and its pages |
| Kmalloc.PopBig | kern/mm/kmalloc.c:276-284 | unlinking through `last` takes exactly that record out, at the head or behind another |
| Kmalloc.KernelHeap.Kmalloc | kern/mm/kmalloc.c:228-258 | both branches of __kmalloc: which one, when it fails, what it hands out, and which units of the heap it takes |
| Kmalloc.KernelHeap.BigAlloc | kern/mm/kmalloc.c:240-257 | a big block is a record on the heap and pages of the order computed; without pages the record goes back |
| Kmalloc.KernelHeap.FindBig | kern/mm/kmalloc.c:278-280 | the list walk finds the first record of these pages and the one before it |
| Kmalloc.KernelHeap.Kfree | kern/mm/kmalloc.c:266-294 | null does nothing; the pages go back exactly if a record names them, with the record to the heap; any other pointer gives back the block in front of it |
| Kmalloc.SmallIsNotBig | kern/mm/kmalloc.c:273-291 | a small object of at least one byte is never taken for a big block |
| Kmalloc.KernelHeap.RoundTrip | kern/mm/kmalloc.c:228-294 | kmalloc and then kfree restore the blocks handed out, the list of big blocks and the free units, but for a page the heap grew by |
| Sv39.IndexBits | kern/mm/mmu.h:38-54 | on 64-bit words the index macros are division and remainder |
| Sv39.PgaddrBits | kern/mm/mmu.h:38-54 | putting the three indices and the offset together gives the address back |
| Sv39.PteBits | kern/mm/pmm.h:169-173 | pte_create packs frame number and flags without loss, and PTE_ADDR recovers the address |
| Sv39.PteCreate | kern/mm/pmm.h:169-173 | frame number, flags and the valid bit are read back from the word |
| Sv39.SameIndices | kern/mm/mmu.h:38-54 | equal indices mean the same page |
| Sv39.NextTableBounds | kern/mm/pmm.c:296-300 | the 2 MB step goes up and stays under one page table |
| PageTable.WalksSeparate | kern/mm/pmm.c:221-251 | different roots or pages never share a leaf slot |
| PageTable.SkipIsSafe | kern/mm/pmm.c:296-300 | where the walk finds no table, the skipped 2 MB map nothing |
| PageTable.NewTable | kern/mm/pmm.c:224-249 | making a table keeps structure and counts and moves no mapping of any root |
| PageTable.NewRoot | kern/process/proc.c:359-372 | a copy of the boot root maps nothing for the user |
| PageTable.KernelWindow | kern/init/entry.S:58-63 | through the last word of the boot root, a 1 GB leaf closed to the user, every kernel address reaches the physical memory it stands for |
| PageTable.StartOk | kern/mm/pmm.c:221-251 | memory without tables satisfies the invariant |
| PageMap.NamersMoved | kern/mm/pmm.c:467-490 | writing a leaf word changes the number of names of each frame by exactly its old and new name |
| PageMap.RemoveOk | kern/mm/pmm.c:271-286 | removing an entry keeps counts equal to names and frees the frame exactly with its last name |
| PageMap.InsertEffect | kern/mm/pmm.c:474-489 | what inserting does to counts and free frames, also when the page was already mapped there |
| PageMap.WrittenWalks | kern/mm/pmm.c:467-490 | a leaf write moves the mapping of one page of one root only |
| PageMap.NoNamers | kern/mm/pmm.c:271-286 | no valid entry names a free frame |
| PageMap.SoleNamer | kern/mm/pmm.h:138-162 | a frame with one reference is named from one place |
| PageBudget.LedgerStep | kern/mm/pmm.c:395-442 | the account of frames: after one more page is mapped, missing tables, mappings and counts are those it predicts |
| PageBudget.VerdictNext | kern/mm/pmm.c:395-442 | its next verdict is decided by the free frames against the tables missing on the walk: fewer, as many, or more |
| PageBudget.VerdictConcat | kern/mm/pmm.c:391-446 | the verdict on two stretches of pages is that on the first, or that on the second after it |
| PageBudget.VerdictBlank | kern/mm/pmm.c:391-446 | where nothing was mapped: success iff there are as many frames as pages and tables, and the failed assertion iff some page is one frame short of itself |
| PageBudget.TablesFresh | kern/mm/pmm.c:221-251 | under a fresh root the tables made are one for each 2 MB region and one for each 1 GB region touched |
| PageBudget.VerdictFresh | kern/mm/pmm.c:391-446 | under a fresh root mapping pages succeeds iff the free frames are at least pages, 2 MB regions and 1 GB regions together, and fails the assertion iff they are one short of that for some first pages |
| PageMap.PageOf | kern/mm/pmm.c:254-266 | a valid user entry names a frame that is counted, not free and no table |
| PageMap.SoleOwner | kern/mm/pmm.h:138-162 | a count of one means one page of one address space |
| Mmu.AddressSpaces.SetupPgdir | kern/process/proc.c:359-372 | fails iff no frame is free; a new root holds the kernel's word of the boot root and zeros, maps nothing for the user, has no tables, takes one frame and moves no mapping |
| Mmu.AddressSpaces.MakeTable | kern/mm/pmm.c:224-235 | fails iff no frame is free; otherwise exactly a zeroed table with a count of 1, linked at the slot by a valid user word without permissions |
| Mmu.AddressSpaces.GetPte | kern/mm/pmm.c:221-251 | returns the slot of the walk; with create it fails iff the free frames are fewer than the missing tables, and takes exactly those; never moves a mapping, even when it fails half-way |
| Mmu.AddressSpaces.PageRemove | kern/mm/pmm.c:450-457 | unmaps one page of one root and frees its frame exactly with the last reference |
| Mmu.AddressSpaces.PageInsert | kern/mm/pmm.c:467-490 | maps the frame at one page only, with exact counts and free set; fails iff the free frames are fewer than the missing tables; no frame leaks |
| Mmu.AddressSpaces.PgdirAllocPage | kern/mm/pmm.c:502-522 | a fresh frame with one reference, the assertion holds; fails iff the free frames are fewer than the page and the missing tables, and then no mapping moves and the frame is returned |
| Mmu.AddressSpaces.UnmapRange | kern/mm/pmm.c:288-307 | no page of the range stays mapped, no other mapping moves, exactly the frames left without a name are freed, none leaks |
| Mmu.AddressSpaces.CopyPage | kern/mm/pmm.c:395-442 | one page copied: same user bits and bytes on a frame nobody else names; error code, failed assertion or success iff the free frames are fewer than, as many as, or more than the missing tables |
| Mmu.AddressSpaces.CopyRange | kern/mm/pmm.c:378-446 | on success every page mapped in the range has a private copy, the rest of the child is kept; no other address space changes and no frame leaks at any outcome; the outcome is the verdict of the account of frames on the pages mapped in the range |
| Mmu.CopyPanics | kern/mm/pmm.c:406-408 | with seven frames, a parent of one page and a new child, copy_range fails its assertion |
| PageRefs.LeafIsReached | kern/mm/pmm.c:221-251 | every slot of every leaf table is the slot of some user page, so no table is out of reach |
| PageRefs.CountsAreMappings | kern/mm/pmm.c:271-286 | a frame's reference count is the number of user pages over all address spaces mapped to it, none for a free frame |
| Vmm.LookupUnique | kern/mm/vmm.c:77-108 | a cached area that holds the address is the one the search would find |
| Vmm.SortedUnique | kern/mm/vmm.c:119-153 | a sorted list is fixed by its areas |
| Vmm.ApartFromNeighbours | kern/mm/vmm.c:138-147 | two neighbours leave room iff the area is apart from every area |
| Vmm.MapAreaHolds | kern/mm/vmm.c:173 | without wrapping, the rounded range is the least run of pages around the request |
| Vmm.MapSpelled | kern/mm/vmm.c:170-203 | range and outcome of mm_map in plain arithmetic: refused for no user range or a first page inside an area, out of memory otherwise without room, a failed assertion where an area begins inside |
| Vmm.OverlapAhead | kern/mm/vmm.c:184-187 | an overlap mm_map does not notice begins inside the new range |
| Vmm.Mm.constructor | kern/mm/vmm.c:40-59 | mm_create gives an empty list and cache |
| Vmm.Mm.FindVma | kern/mm/vmm.c:77-108 | find_vma with its cache equals the linear search without it |
| Vmm.Mm.InsertVma | kern/mm/vmm.c:119-153 | the assertions hold iff the area is not empty and apart from all; then it is added and the list is sorted |
| Vmm.Mm.Map | kern/mm/vmm.c:170-203 | mm_map is refused, out of memory, stopped by a failed assertion or mapped, each spelled out on the 64-bit sums and the areas; when mapped the list gains the rounded range with the flags asked for |
| Vmm.MappedIff | kern/mm/vmm.c:170-203 | mapped iff the range is a user range apart from every area and there is memory |
| Vmm.OverlapRun | kern/mm/vmm.c:184-198 | two calls of mm_map, the second from below into the area of the first, end in the failed assertion |
| Vmm.UserMemCheck | kern/mm/vmm.c:352-384 | true iff the range is a non-empty user range and every byte lies in an area with the permission and, for writes, not in a stack area's first page; kernel range without an mm |
| Vmm.DupMmap | kern/mm/vmm.c:205-228 | the child gets the parent's areas and private copies of what they map; other address spaces never change; into an empty mm the outcome is the verdict of the account on the areas there are vma_structs for, last to first, and the error code when an area is left; after the error code the child maps nothing outside its areas |
| Vmm.AreaMember | kern/mm/vmm.c:205-228 | the pages a fork copies are those the parent maps inside its areas |
| Vmm.ForkVerdict | kern/mm/vmm.c:205-228 | into a new address space that outcome depends on the free frames alone: done, failed assertion or error code, each in closed form |
| Vmm.ExitMmap | kern/mm/vmm.c:230-239 | the first loop: every page of the areas is unmapped, other address spaces keep theirs, exactly the frames left without a name are freed, none leaks, and no directory changes |
| PageExit.CutAccounted | kern/mm/pmm.c:348-363 | freeing a table and clearing the word that leads to it keeps structure and counts; the tables below it, and only they, are lost |
| PageExit.CutKeeps | kern/mm/pmm.c:348-363 | no other address space notices |
| PageExit.ScanTable | kern/mm/pmm.c:340-346 | the scan says whether a leaf table has no valid word |
| PageExit.ScanDir | kern/mm/pmm.c:332-357 | the inner loop frees exactly the leaf tables of the words it visits, and keeps the directory unless each of them led to one |
| PageExit.ExitRange | kern/mm/pmm.c:309-368 | exit_range over an address space that maps nothing frees and loses, of each 1 GB region, exactly what ExitRegion says |
| PageExit.ExitTables | kern/mm/vmm.c:240-244 | the second loop of exit_mmap does this area by area |
| PageExit.ExitAreasIs | kern/mm/pmm.c:332-363 | the directory goes with the first area that finds a leaf table at every word it visits, and what that area leaves behind is lost |
| PageExit.CleanIff | kern/mm/pmm.c:332-363 | the tables of a region are all freed iff some area finds a leaf table at every word it visits and the first to do so leaves none behind |
| PageExit.OneTableClean | kern/mm/pmm.c:332-363 | so it is when one 2 MB region is in use and the first area of the 1 GB region lies in it |
| PageExit.SecondTableLost | kern/mm/pmm.c:332-363 | two areas in neighbouring 2 MB regions lose the second leaf table |
| PageExit.TwoTables | kern/mm/pmm.c:221-251 | two pages in neighbouring 2 MB regions under a fresh root give one directory with these two leaf tables |
| PageExit.FreeSpace | kern/process/proc.c:376-379 | with put_pgdir, all tables of the address space are freed and the account is whole iff both regions are clean |
| PageExit.ExitSpace | kern/mm/vmm.c:230-245 | exit_mmap as a whole and put_pgdir: other address spaces keep their pages, exactly the frames left without a name are freed, tables iff clean |
| PageExit.SecondTableLostRun | kern/mm/vmm.c:230-245 | from a memory of seven frames: two pages mapped in two areas, exit_mmap and put_pgdir, and a table is lost |
| Fork.CopyMm | kern/process/proc.c:383-430 | kernel threads and CLONE_VM share; otherwise fork isolation: the child maps private copies of the parent's pages and nothing else, and no existing address space changes; the outcome is ForkOutcome of the memory before; after the error code all frames are as before but for tables lost |
| Fork.ForkDoneIff | kern/process/proc.c:398-417 | success iff there are an mm_struct, vma_structs for the areas, and frames for the root, the pages and their tables |
| Fork.WasFree | kern/mm/pmm.c:224-235 | a frame that serves as a table after a fork was free before |
| Fork.TablesBack | kern/mm/vmm.c:230-245 | unmapping the child and freeing its tables restores counts and the free list, but for tables lost |
| Fork.ExitChild | kern/mm/vmm.c:205-245 | fork and then exit of the child: counts and free list as before the fork but for tables lost; none is lost iff the regions are clean |
| Fork.GiveUp | kern/process/proc.c:423-427 | the same after a copy that failed half-way |
| Loader.Perm | kern/process/proc.c:668-681 | the leaf bits follow the header's flags, user and valid always set, never writable without readable |
| Loader.VmFlags | kern/process/proc.c:668-674 | the area flags are read, write and execute as the header says, and nothing else |
| Loader.FillPage | kern/process/proc.c:697-707 | one page mapped and filled extends the image in place and disturbs nothing before it; fails iff the free frames are fewer than the page and the missing tables |
| Loader.CopyFile | kern/process/proc.c:686-708 | after the first loop the file bytes are at their addresses; out of memory iff the account of frames says so, out of user space iff the end lies above it; the end is a 64-bit sum |
| Loader.ZeroTail | kern/process/proc.c:712-727 | the rest of the last file page is zeroed and the assertion at line 726 holds, unless the end of the segment wraps, and then memset overruns the page |
| Loader.ZeroBss | kern/process/proc.c:710-741 | out of memory, overrun or done, each exactly; done, the whole image is in place unless its end wraps, and nothing outside the segment's pages moved |
| Loader.LoadSegment | kern/process/proc.c:651-742 | how a header's turn ends, exactly: skipped, E_INVAL_ELF, the verdict of mm_map, out of memory, overrun, loaded; loaded, the image is in place with its permissions iff its end does not wrap, and then user_mem_check allows writing and reading each byte exactly as the header's flags say |
| Loader.InPlaceAccess | kern/process/proc.c:668-684 | every byte of a segment in place may be written, read and executed exactly as its header says |
| Loader.StaysInPlace | kern/process/proc.c:651-742 | loading a segment does not disturb one already in place whose area its pages do not reach |
| LoadImage.ProgressAdd | kern/process/proc.c:693-707 | one more page with the next stretch of the image keeps everything placed before |
| LoadImage.ProgressPatch | kern/process/proc.c:720-725 | writing on in the last page keeps everything placed before |
| Loader.ImageOfFile | kern/process/proc.c:682-706 | the image is made of the file alone iff offset + filesz lies within its size, which the code never checks |
| Loader.OverrunsIff | kern/process/proc.c:709-725 | a segment overruns in the copy iff its file part ends above user space, in the tail iff it wraps and its file part ends inside a page |
| Loader.LoadsSnoc | kern/process/proc.c:651-742 | headers load iff all but the last load and its own turn succeeds |
| Loader.LoadsIff | kern/process/proc.c:651-742 | into a fresh address space headers that do not wrap load iff acceptable, apart, and with frames for all pages and tables |
| Loader.LoadFile | kern/process/proc.c:639-742 | success iff the magic number is right, headers are acceptable one by one, areas apart, vma_structs and frames enough; then every segment is in memory at once but those that wrap or are mapped over by one that does; other address spaces are unchanged; a failure is that of the first header whose turn fails |
| Loader.AllLoadedInPlace | kern/process/proc.c:651-742 | loaded segments are all in place iff none of them wraps |
| Loader.AllFollowHeaders | kern/process/proc.c:651-742 | so it is for every byte of every loaded segment where none wraps |
| Loader.WrappedTail | kern/process/proc.c:719-725 | a header at 0x200800 with one file byte and memory size 2^64 - 1 is accepted by mm_map, and memset overruns |
| Loader.WrappedNothing | kern/process/proc.c:709-741 | the same without file bytes is reported as loaded with nothing in place |
| NumText.DigitsValue | libs/printfmt.c:39-54 | the digits printed stand for the number, without leading zeros |
| NumText.PrintedShape | libs/printfmt.c:39-54 | the output is the digits right-aligned by padding to the width |
| NumText.Sink.PrintNum | libs/printfmt.c:39-61 | the recursion with its padding loop emits exactly that text |
| NumText.ReadDigits | libs/string.c:232-253 | the digit loop stops at the first character that is no digit of the base, with the value of the run reduced to a 64-bit long |
| NumText.Strtol | libs/string.c:203-259 | blanks, sign, prefix and digits: the number, as a 64-bit long, and where it ends |
| NumText.ParsedText | libs/string.c:203-259 | on blanks, a sign, a prefix and digits strtol stops behind the digits with their value in the base of the prefix (0x 16, 0 8, otherwise 10 for base 0), negative after a minus sign |
| NumText.LongStep | libs/string.c:251 | reducing the value at every digit, or at the final sign, gives the same long as reducing once |
| NumText.LeadingZeros | libs/string.c:232-253 | zero padding does not change the value |
| NumText.PrintThenParse | libs/string.c:203-259 | strtol of what printnum emits stops exactly at its end and returns the number iff that fits a long, in bases 8, 10 and 16, any width, blank or zero padding |
| NumText.NoOverflow | libs/string.c:251-252 | parsing a printed number below 2^63 never leaves the range of a long |

## Left out

- Process data outside the life cycle: `runs`, names, kernel stacks, trap frames, `do_execve` beyond the loader, lock and interrupt handling.
- ProcKernel.Kernel.Schedule: the scheduling class is any choice among the queued processes, so that the life-cycle results hold for all of them; the classes themselves are `RunQueue` and `RoundRobin`.
- ProcKernel.Kernel.ResumeWait: `do_wait` blocked in `schedule()` is continued by a separate method, with the pid argument kept in the process record.
- The process list and the hash buckets are sequences, not pointer chains; the same list code is proved at pointer level for the page list and the round-robin queue.
- The VMA list is a sequence, and a cached area is compared by value, which identifies it because areas never change.
- RoundRobin.RunsAfterItsTurn: yields, blocks and wakeups; a process on the queue cannot leave it otherwise, since kills take effect when it runs.
- The FIFO class: the queue of round robin with an empty tick.
- Slob.Heap.Alloc: the aligned variant (callers always pass alignment 0) and the branch for requests of exactly one page, which the assertion before it rules out.
- Kmalloc.KernelHeap.Kfree: the pointer of a zero-byte object may be that of somebody's pages; then the big block is given back, as the contract says.
- `ksize`, and `kmalloc` of zero bytes beyond the call that takes the arena.
- Sv39.PteCreate: stated on natural numbers; `Sv39.PteBits` states the same packing on 64-bit words.
- Mmu.AddressSpaces.CopyRange: what a failed copy has already mapped in the child inside the range is not described.
- PageExit.ExitRange: address spaces that still map something; `exit_mmap` unmaps everything first, provided the areas cover what is mapped.
- PageExit.ScanDir: directories below which something is still mapped, for the same reason.
- Fork.CopyMm: `mm_destroy`, the counting of sharers, and which tables a copy that failed half-way had made.
- Loader.CopyFile: past the end of user space the source goes on mapping kernel addresses; the model stops there with Overrun, since page tables are modelled for user addresses.
- Loader.LoadFile: the user stack, the trap frame and the clean-up after a failure.
- Assembly, CSRs, SBI calls, TLB flushes, the device tree scan, console, monitor and clock input and output, `vprintfmt`, `rand`, string helpers, and the user programs.
