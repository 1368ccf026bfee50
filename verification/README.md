# ShompOS: heap, scheduler, file system and loader

A Dafny model of the kernel services of ShompOS, a small 32-bit operating system, with proofs of
what they keep, return and guarantee over whole runs. `dafny verify dfyconfig.toml` checks it all.

**The heap** (`heap.c`) is a buddy allocator. `HeapState` defines the abstract heap: the blocks that
tile it, the order of every free list, and the invariant that joins them (the tiling is exact and
aligned, the lists hold exactly the free blocks, no two buddies are both free). `HeapTransitions` proves that the
six primitive steps keep it, `HeapOperations` composes them into `allocate`, `free`, `brk` and `sbrk`
as functions, and `HeapManager` is the allocator itself: a class whose header words (`next`, `prev`,
`scale`, `is_free`) are rewritten in place by the loops of the C code, and whose every method is
proved to represent the abstract result and to write nothing but headers. On the abstract operations
stand `HeapRoundTrip` (free undoes allocate), `HeapRegions` (maximal coalescing), `HeapLive` and
`HeapRuns` (conservation, isolation of payloads, full recovery, over any run of a client), and
`HeapBreak` (where `brk`, `sbrk` and `free` leave the break, and what they return).

**The scheduler** (`process.c`) is a table of eight slots under spawn, kill and tick.
`SchedulerState` defines the machine, `SchedulerInvariant` proves what each step keeps,
`SchedulerFairness` proves the theorems about runs (nobody starves; a fixed set of processes converges
to round robin), and `Scheduler` is the table in memory, updated by the loops of the C code, with the
heap that the stacks come from. `ContextSwitch` is a register and stack machine for
`context_switch.S`, run instruction by instruction, and the frames it saves and restores. `Processes`
joins table, heap and stacks: over whole runs every live process owns a stack that shares no byte with another or with a header.
`StalePids` exhibits the one way in which a selected process does not run.

**The file system** (`ramfs.c`, `ramfs_executables.c`, `string.c`): `CStrings` has the C string
functions on buffers, with the stateful `strtok`; `Directories` finds directories by path and proves
that printed paths lead back; `Commands` prints paths backwards into a buffer, makes directories
and files and removes files; `FileDescriptors` specifies descriptors as cursors into byte sequences and
`FdTable` is the descriptor table and the growable buffers in memory; `OpenPaths` says which files
`ramfs_open` finds.

**The ELF loader** (`elf.c`): `ElfLoader` has the loop that computes how much memory a program's
segments need, in 32-bit arithmetic, and the loop that copies and zeroes them.

Where the code and its comments differ the model follows the code:

- The free lists are taken and filled at the head (last in, first out), although a comment calls
  them FIFO (`heap.c:7-8`, `heap.c:73-74`, `heap.c:129-134`).
- When `allocate` has to grow the heap it hands out the new block whole, without splitting it
  (`heap.c:223-228`), so a small request can get 32 KiB; `HeapLive.AllocateUses` says exactly when.
- `ramfs_pwd` never writes the first byte of its buffer (`ramfs_executables.c:25-39`): the path is
  what stands from the second byte on.
- `ramfs_open` calls the slash it splits at `last_slash`, but finds the first
  (`ramfs.c:247`): files are found by their paths only in the root and in its own subdirectories, in the
  latter only without a leading slash (`OpenPaths.OpenByPath`, `OpenPaths.OpenByAbsolutePath`).
- Both loops of the loader skip a header only when it is not loadable AND not empty
  (`elf.c:36`, `elf.c:66`), although the comment says "If LOAD": an empty header of any type is kept.
  `ElfLoader.EmptySegmentStretches` shows an empty one widening the extent, and
  `ElfLoader.ExtentIsHullIff` says exactly when the extent is the hull.

## Model

| member | source | states |
|---|---|---|
| PowersOfTwo.BitLengthIsLeast | ShompOS/src/memory/heap.c:20-27 | the number of significant bits (32 minus the leading zeros) is the least k with x < 2^k |
| PowersOfTwo.AlignedIsMod | ShompOS/src/memory/heap.c:166-168 | the recursive notion of alignment used in the invariant is the code's test of the remainder by 2^k |
| HeapState.BuddyProperties | ShompOS/src/memory/heap.c:166-169 | the buddy relation is an involution without fixed points, and the lower of two buddies is aligned to twice their size and followed by the upper |
| HeapState.BuddyIsBlock | ShompOS/src/memory/heap.c:163-190 | below scale 15 the buddy address computed by coalescing is always the header of a real block, of the same scale or smaller, so the header read there is never garbage |
| HeapTransitions.CleaveInv | ShompOS/src/memory/heap.c:144-155 | cutting a used block in two keeps the tiling, the lists and maximal coalescing |
| HeapTransitions.FuseInv | ShompOS/src/memory/heap.c:177-183 | joining a used block with its used buddy keeps the tiling, the lists and maximal coalescing |
| HeapTransitions.PushInv | ShompOS/src/memory/heap.c:46-76 | putting a block on its free list keeps the invariant provided its buddy is not free at the same scale |
| HeapTransitions.TakeInv | ShompOS/src/memory/heap.c:81-108 | taking any block off its free list keeps the invariant |
| HeapTransitions.ExtendInv | ShompOS/src/memory/heap.c:270-280 | a block of the largest scale added at the break keeps the invariant, and no header stood there |
| HeapTransitions.DropInv | ShompOS/src/memory/heap.c:285-294 | giving up a used block of the largest scale just below the break keeps the invariant |
| HeapOperations.FitAfterGrow | ShompOS/src/memory/heap.c:223-228 | after the heap has grown the second search always succeeds, with the new block itself |
| HeapRoundTrip.CoalesceSplit | ShompOS/src/memory/heap.c:144-190 | coalescing undoes any number of rounds of splitting, with the free lists and their order |
| HeapRoundTrip.AllocateFreeRoundTrip | ShompOS/src/memory/heap.c:210-257 | for every heap and every legal size, freeing what `allocate` returned succeeds and restores the break, the tiling and every free list with its order, on the split path and the growth path; only a request carved from a wholly free last block drops exactly that block |
| HeapRoundTrip.FirstRoundTrip | ShompOS/src/memory/heap.c:194-257 | the exception occurs: on the heap that `init_heap` leaves every legal request is carved from the last block, and freeing it leaves no block at all |
| HeapRegions.FreeRegionInOneBlock | ShompOS/src/memory/heap.c:163-190 | any aligned region of size 2^k made only of free bytes lies inside one free block |
| HeapRegions.NotBothFree | ShompOS/src/memory/heap.c:163-190 | two buddies of one scale below 15 are never both free |
| HeapRegions.FitIffFreeRegion | ShompOS/src/memory/heap.c:113-138 | the search over the free lists succeeds exactly when some aligned region of the request's scale is free |
| HeapRegions.AllocateGrowsIff | ShompOS/src/memory/heap.c:210-232 | `allocate` raises the break exactly when no free aligned region of the request's scale exists |
| HeapLive.RequestScaleIsLeast | ShompOS/src/memory/heap.c:210-216 | the scale chosen is the least, from 4 up, whose blocks hold the nine-byte header and the request |
| HeapLive.AllocateUses | ShompOS/src/memory/heap.c:210-232 | `allocate` puts exactly one new block in use: of the request's scale and cut from the smallest sufficient free scale if there was one, else the whole block by which the heap grew; all other blocks in use keep place and scale |
| HeapLive.AllocatableIff | ShompOS/src/memory/heap.c:210-232 | in every heap `allocate` returns NULL exactly for size 0 and sizes above 32759 |
| HeapLive.UsedRelease | ShompOS/src/memory/heap.c:239-258 | freeing takes exactly the freed block out of use, whatever merges and shrinks |
| HeapLive.UsedBrk | ShompOS/src/memory/heap.c:267-297 | moving the break, either way, touches no block in use |
| HeapRuns.Conservation | ShompOS/src/memory/heap.c:144-190 | stepping header by header from the lower bound reaches the break, and free plus used sizes are exactly the heap's size |
| HeapRuns.ShrinkRemoves | ShompOS/src/memory/heap.c:282-296 | lowering the break removes only trailing wholly free blocks, as few as reach the address, and returns -1 exactly when it stops at a last block that is not wholly free before reaching it |
| HeapRuns.GrowAdds | ShompOS/src/memory/heap.c:267-281 | raising the break adds wholly free blocks only, as few as reach the address, and leaves all blocks below |
| HeapRuns.StepKeepsInv | ShompOS/src/memory/heap.c:210-305 | every `allocate`, `free` of an owned pointer, `brk` and `sbrk` keeps the invariant and the correspondence between owned pointers and blocks in use; requests fail only for size 0 or above 32759; freeing an owned pointer succeeds, freeing NULL returns 1 |
| HeapRuns.PayloadsApart | ShompOS/src/memory/heap.c:210-232 | in every reachable state each owned payload, of at least the size asked for, lies inside the heap, apart from every other owned payload and from every header |
| HeapRuns.OwnedKept | ShompOS/src/memory/heap.c:210-305 | what a client owns before and after an operation is where it was, in a block of the same size |
| HeapRuns.PayloadUntouched | ShompOS/src/memory/heap.c:210-305 | no byte of a payload owned across an operation lies in a header of the heap before or after, which is all that the operations write |
| HeapRuns.AllFree | ShompOS/src/memory/heap.c:163-190 | a heap in which nothing is in use consists of free blocks of scale 15 |
| HeapRuns.FullRecovery | ShompOS/src/memory/heap.c:194-305 | after any run from boot in which everything handed out has been freed, in any order, every remaining block is a free block of scale 15 |
| HeapBreak.AllocatableIs | ShompOS/src/memory/heap.c:210-213 | a request is met exactly when it is not empty and fits with its header into a block of the largest scale |
| HeapBreak.InitialHeapIs | ShompOS/src/memory/heap.c:194-205 | `init_heap` leaves one free block of scale 15 at the lower bound, alone on its list, and the break behind it |
| HeapBreak.BrkRaises | ShompOS/src/memory/heap.c:267-281 | `brk` to an address at or above the break returns 0 with the break at or above the address, by wholly free blocks added, as few as reach it, and all blocks below left |
| HeapBreak.BrkLowers | ShompOS/src/memory/heap.c:282-296 | `brk` to an address at or below the break removes trailing wholly free blocks only, as few as reach it, and returns -1 exactly when another last block stops it before |
| HeapBreak.SbrkMoves | ShompOS/src/memory/heap.c:302-305 | `sbrk` of 0 fails without effect; of a positive number of blocks it succeeds; whenever it succeeds the break moves by exactly that many |
| HeapBreak.FreeEffect | ShompOS/src/memory/heap.c:239-258 | NULL and a block already free are refused with 1 and no change; a block in use, and only that, goes out of use with code 0 |
| HeapBreak.ReleaseBreak | ShompOS/src/memory/heap.c:249-256 | `free` lowers the break by 32 KiB exactly when the last 32 KiB hold nothing in use but the freed block, and otherwise leaves it, whatever merges |
| FreeLists.ChainPush | ShompOS/src/memory/heap.c:46-76 | the header writes of a push turn a doubly linked chain into the chain with the block in front |
| FreeLists.ChainRemove | ShompOS/src/memory/heap.c:81-108 | the header writes of a removal, at the head, in the middle or at the end, turn a chain into the chain without that block |
| FreeLists.LinkedPush | ShompOS/src/memory/heap.c:46-76 | after a push following `next` from every list head visits exactly that list's blocks up to the self-loop, `prev` is the inverse, and every used block is linked to itself |
| FreeLists.LinkedTake | ShompOS/src/memory/heap.c:81-108 | the same after the removal of any free block, which is then linked to itself |
| HeapManager.Manager.InitHeap | ShompOS/src/memory/heap.c:194-205 | from memory of any content, the lists are empty but for one block of scale 15 |
| HeapManager.Manager.AddToFreeList | ShompOS/src/memory/heap.c:46-76 | the block is free at the head of its list, the rest of the heap and all memory but headers is as before |
| HeapManager.Manager.RemoveFromFreeList | ShompOS/src/memory/heap.c:81-108 | the block is off its list and used, the rest of the heap and all memory but headers is as before |
| HeapManager.Manager.FindFit | ShompOS/src/memory/heap.c:113-138 | takes the head of the first non-empty list from the request's scale up, or returns NULL and changes nothing when all are empty |
| HeapManager.Manager.SplitBlock | ShompOS/src/memory/heap.c:144-155 | the lower half stays used, the upper half goes on the list below; NULL and blocks of scale 4 are left alone |
| HeapManager.Manager.BuddyOf | ShompOS/src/memory/heap.c:166-169 | the signed offset computed from the remainder leads to the buddy |
| HeapManager.Manager.CoalesceBlock | ShompOS/src/memory/heap.c:163-190 | the loop over headers merges exactly while the buddy is free and of the same scale, and returns the joined block |
| HeapManager.Manager.Brk | ShompOS/src/memory/heap.c:267-297 | both loops give the abstract heap and return code of `brk`, writing headers only |
| HeapManager.Manager.Sbrk | ShompOS/src/memory/heap.c:302-305 | -1 and no change for 0, else `brk` of the break moved by that many 32 KiB blocks |
| HeapManager.Manager.Allocate | ShompOS/src/memory/heap.c:210-232 | the memory represents the abstract heap after `allocate`, the pointer is its result, only headers are written |
| HeapManager.Manager.Free | ShompOS/src/memory/heap.c:239-258 | NULL and blocks already free are refused with 1 and no change; else the abstract release, only headers written |
| HeapManager.Manager.LinkTest | ShompOS/src/memory/heap.c:243-247 | the corruption test, a block linked to itself both ways, holds exactly for blocks in use |
| HeapManager.AbsorbTest | ShompOS/src/memory/heap.c:172-173 | the three header reads of the coalescing loop hold exactly when the buddy is a free block of the same scale below 15 |
| HeapManager.PayloadWritesAreHarmless | ShompOS/src/memory/heap.c:230-231 | whatever clients write outside the headers, the memory still represents the heap |
| SchedulerState.NextPidUnique | ShompOS/src/process/process.c:43-58 | at most one PID is the next one in cyclic order that no live process holds |
| SchedulerState.PassOne | ShompOS/src/process/process.c:53-56 | each recursive call steps over a live PID not stepped over before, also across the wrap at MAX_PID |
| SchedulerState.NextPidExists | ShompOS/src/process/process.c:48-58 | from any table and any counter that has been issued, 0 to MAX_PID, there is a next PID |
| SchedulerInvariant.SelectedLongest | ShompOS/src/process/process.c:150-161 | a tick selects the first of the contenders that have waited longest, and the backstop when there is none |
| SchedulerInvariant.TickEffect | ShompOS/src/process/process.c:150-166 | a tick keeps every PID and who is live, restarts the selected process's wait, adds one to every other contender's and leaves the rest |
| SchedulerInvariant.TickStatus | ShompOS/src/process/process.c:133-166 | after a tick the selected process is ACTIVE, one that was ACTIVE is WAITING, and no other status, context or entry point changes |
| SchedulerInvariant.TickActive | ShompOS/src/process/process.c:133-166 | after a tick `active_pid` is the PID of the selected slot, and only a process with that PID is ACTIVE |
| SchedulerInvariant.TickFair | ShompOS/src/process/process.c:150-166 | a tick keeps the bound that for each j in 1 to 7 at most 7-j contenders have waited j ticks |
| SchedulerInvariant.FairNoWrap | ShompOS/src/process/process.c:153-159 | so no contender waits more than 6 ticks, and the counter never wraps |
| SchedulerInvariant.TickInv | ShompOS/src/process/process.c:150-166 | a tick keeps the whole invariant: distinct PIDs, one active process, the backstop alive, the bound on waiting |
| SchedulerInvariant.NextPidFresh | ShompOS/src/process/process.c:43-58 | a new PID is held by no live process, is at most MAX_PID, and is 0 exactly on the first call |
| SchedulerInvariant.NextPidIs | ShompOS/src/process/process.c:48-58 | the next PID is the successor of the last, 1 after MAX_PID, unless a live process has that one |
| SchedulerInvariant.SpawnInv | ShompOS/src/process/process.c:81-129 | spawning into a free slot keeps the whole invariant |
| SchedulerInvariant.SpawnEffect | ShompOS/src/process/process.c:81-129 | the first stopped slot, and no other, becomes a SPAWNED process with the next PID, its context, its entry point and no wait |
| SchedulerInvariant.KillInv | ShompOS/src/process/process.c:63-71 | a kill keeps the whole invariant exactly when it does not kill the backstop |
| SchedulerInvariant.KillEffect | ShompOS/src/process/process.c:63-71 | the process of this PID is stopped, no live process has it any more, and nothing else in the table changes |
| SchedulerInvariant.FirstSpawn | ShompOS/src/process/process.c:81-129 | the first process spawned after boot gets PID 0 and slot 0 and establishes the invariant; whoever `active_pid` names is then running |
| SchedulerInvariant.SelectedIsActive | ShompOS/src/process/process.c:133-166 | the slot a tick selects is ACTIVE after it exactly when its PID was not `active_pid` or it was ACTIVE already |
| SchedulerInvariant.SpawnRunning | ShompOS/src/process/process.c:43-58 | a spawn breaks the agreement of `active_pid` with the status of the process it names exactly when it hands out a stale `active_pid` |
| StalePids.StalePidReached | ShompOS/src/process/process.c:43-71 | from the state after the first spawn there is a run, one process that runs and ends and then pairs of spawn and kill until the counter comes round, to where `active_pid` is about to be handed out again |
| StalePids.SpawnIsStale | ShompOS/src/process/process.c:48-58 | there the next spawn does hand it out, and the new process is named by `active_pid` without having been switched to |
| StalePids.NeverRuns | ShompOS/src/process/process.c:150-166 | from then on every tick selects that process and, taking it for the running one, never switches to it |
| SchedulerFairness.NoStarvation | ShompOS/src/process/process.c:150-166 | over any run of spawns, kills and ticks, a process that lives through seven ticks is selected in one of them |
| SchedulerFairness.SelectedRuns | ShompOS/src/process/process.c:133-166 | over any run in which no spawn hands out a stale `active_pid`, whoever is selected runs |
| SchedulerFairness.NoStarvationRuns | ShompOS/src/process/process.c:133-166 | over any such run, a process that lives through seven ticks is the one running after one of them |
| SchedulerFairness.OneActive | ShompOS/src/process/process.c:133-146 | after any run at most one process is ACTIVE |
| SchedulerFairness.ConvergesToRanked | ShompOS/src/process/process.c:150-166 | for a fixed set of n contenders, from any wait times, after n ticks the waits are a permutation of 0 to n-1 |
| SchedulerFairness.RoundRobin | ShompOS/src/process/process.c:150-166 | from then on, after any m ticks every wait has turned by m modulo n and the next tick selects a process exactly when its wait is n-1: one fixed cyclic order |
| SchedulerFairness.OncePerRound | ShompOS/src/process/process.c:150-166 | in any n consecutive ticks each of the n contenders is selected exactly once |
| SchedulerFairness.BackstopOnlyWhenAlone | ShompOS/src/process/process.c:6-8 | a tick selects the backstop exactly when nobody contends |
| Scheduler.ProcessManager.ReserveProcTableSlot | ShompOS/src/process/process.c:14-25 | the first stopped slot, or none |
| Scheduler.ProcessManager.GetProcess | ShompOS/src/process/process.c:30-41 | the first live slot with the PID, or none |
| Scheduler.ProcessManager.GetNextPid | ShompOS/src/process/process.c:48-58 | the recursion ends after at most one call more than there are live processes, with the first PID in cyclic order that none of them holds |
| Scheduler.ProcessManager.LayFrame | ShompOS/src/process/process.c:94-114 | the fourteen word writes amount to the first frame of the process |
| Scheduler.ProcessManager.InitProcess | ShompOS/src/process/process.c:81-129 | the table has the new process in the first free slot with the next PID, and its stack holds the first frame at the top of the block |
| Scheduler.ProcessManager.KillProcess | ShompOS/src/process/process.c:63-71 | the process is stopped and its stack is freed; an unknown PID changes nothing |
| Scheduler.ProcessManager.SwitchProcess | ShompOS/src/process/process.c:133-146 | the old process is downgraded only from ACTIVE, the new one is ACTIVE and named by `active_pid`; tells between which slots the context is switched |
| Scheduler.ProcessManager.SwitchProcessFromQueue | ShompOS/src/process/process.c:150-166 | the scan that ages and compares in one pass makes the same choice as a comparison of the aged table, and leaves the state of a tick |
| Scheduler.StackFits | ShompOS/src/process/process.c:90-114 | the fourteen words end at the top of the stack's own block, inside the heap, and lie above its header exactly when the block has at least 128 bytes |
| Scheduler.StackFromAllocate | ShompOS/src/memory/heap.c:20-39 | every stack from `allocate(n)` with n at least 56 has that room |
| Processes.FirstProcess | ShompOS/src/process/process.c:81-129 | the first spawn after boot, with a stack from `allocate` of at least 56 bytes, puts the system of table and heap in order |
| Processes.StepKeepsInv | ShompOS/src/process/process.c:63-166 | starting with such a stack, ending, ticking and any other use of the heap keep it so: scheduler and heap invariants, and for each live process a stack block of its own with room for a first frame |
| Processes.StacksOverRuns | ShompOS/src/process/process.c:63-129 | after any run each live process has such a stack, no two share one, and a kill frees it with code 0 |
| Processes.KillFrees | ShompOS/src/process/process.c:63-71 | the stack of any live process is a pointer that `free` accepts, and freeing it succeeds |
| Processes.StacksApart | ShompOS/src/process/process.c:90-114 | the bytes of a live process's stack lie inside the heap, apart from every other live process's stack and from every header |
| Processes.FirstSwitchInSystem | ShompOS/src/process/process.c:90-146 | when a process on its own stack switches to one that has not run yet, through its saved stack pointer and with its frame in place, it enters the entry point and leaves the ending words; that the stacks do not meet follows from the heap |
| ContextSwitch.Cpu.ContextSwitch | ShompOS/src/process/context_switch.S:2-25 | the instruction sequence saves one frame and restores another |
| ContextSwitch.SaveEncodes | ShompOS/src/process/context_switch.S:4-14 | the old context points at a frame that resumes the caller after its call, the new context's stack pointer is loaded, and only ten words below the return address and the saved stack pointer are written |
| ContextSwitch.RestoreDecodes | ShompOS/src/process/context_switch.S:16-25 | restoring a frame resumes exactly the registers, flags, stack pointer and address it encodes, and writes nothing |
| ContextSwitch.SwitchResumes | ShompOS/src/process/context_switch.S:2-25 | a switch resumes exactly the view encoded by the frame the next context points at, provided the switch itself does not write there, and writes only its own ten words and saved stack pointer |
| ContextSwitch.SwitchAwayAndBack | ShompOS/src/process/context_switch.S:2-25 | switching from A and, whatever happens between, later back to A resumes after A's call with the same registers, flags and stack pointer, provided A's frame and saved stack pointer were left alone |
| ContextSwitch.InitialFrameExtent | ShompOS/src/process/process.c:94-114 | building the first frame writes only the fourteen words from the top down |
| ContextSwitch.InitialFrameIs | ShompOS/src/process/process.c:94-118 | the fourteen words laid down hold a frame that starts the process at its entry point, and above it the three words it ends by |
| ContextSwitch.FirstSwitch | ShompOS/src/process/process.c:94-118 | the first switch to such a process, made by any process on a stack of its own, enters the entry point with exactly the registers of the frame, and leaves the three ending words |
| ContextSwitch.EntryPointReturns | ShompOS/src/process/process.c:94-99 | whenever the entry point returns, with the stack pointer it was entered with and the ending words intact, `kill_process` starts with the PID as argument and `switch_process_from_queue` as return address |
| ContextSwitch.KillReturns | ShompOS/src/process/process.c:94-99 | whenever `kill_process` then returns, `switch_process_from_queue` starts |
| ContextSwitch.LifeOfProcess | ShompOS/src/process/process.c:90-120 | from the words laid down, through a first switch, to the two returns, whatever runs in between outside the words named: entry point, `kill_process`, `switch_process_from_queue` |
| CStrings.StrLen | ShompOS/src/fake_libc/string.c:5-11 | the length of the string at an address of a buffer |
| CStrings.StrCmp | ShompOS/src/fake_libc/string.c:14-20 | 0 exactly for equal strings, else the difference of the characters at the first place they differ |
| CStrings.StrChr | ShompOS/src/fake_libc/string.c:151-162 | the first occurrence, the terminator for NUL, or NULL exactly when there is none |
| CStrings.MemCpy | ShompOS/src/fake_libc/string.c:32-39 | exactly the given stretch is overwritten by the source's bytes |
| CStrings.MemMove | ShompOS/src/fake_libc/string.c:53-69 | the destination receives what the source held before, however the two overlap, and nothing else changes |
| CStrings.TokensJoin | ShompOS/src/fake_libc/string.c:115-148 | a delimiter between two strings keeps their tokens apart |
| CStrings.OwnToken | ShompOS/src/fake_libc/string.c:115-148 | a string is its own single token exactly when it is not empty and has no delimiter |
| CStrings.TokensClean | ShompOS/src/fake_libc/string.c:115-148 | no token contains a delimiter |
| CStrings.Tokenizer.StrTok | ShompOS/src/fake_libc/string.c:115-148 | one call yields the first token of the string given or left, remembers the rest, and writes the one byte that ends the token; NULL exactly without tokens |
| CStrings.Enumerate | ShompOS/src/fake_libc/string.c:115-148 | a first call and calls with NULL yield, in order, exactly the maximal delimiter-free runs of the original string, then NULL |
| Directories.StrDup | ShompOS/src/fake_libc/string.c:71-94 | a fresh terminated copy, or NULL exactly when the heap refuses the size |
| Directories.FirstNamed | ShompOS/src/fs/ramfs.c:176-183 | the first subdirectory whose name equals the token, or none |
| Directories.FindDir | ShompOS/src/fs/ramfs.c:158-199 | the token loop is the recursive first-match walk over the path's non-empty components |
| Directories.FindIff | ShompOS/src/fs/ramfs.c:158-199 | a path leads to a directory exactly when its tokens are the names from the root down to it, each directory on the way the first of its name among its siblings; to NULL exactly when there is no such directory, or the path is too long to copy |
| Directories.PathIsPrinted | ShompOS/src/fs/ramfs_executables.c:29-39 | the printed path is the names from the root down to the directory, with the slashes put between |
| Directories.WalkAppend | ShompOS/src/fs/ramfs.c:171-194 | walking two lists of names one after the other is walking their concatenation |
| Directories.ResolvesIff | ShompOS/src/fs/ramfs.c:171-194 | below a directory whose printed path leads back, a directory's does exactly when its name is a single token that no earlier sibling bears |
| Directories.PathRoundTrip | ShompOS/src/fs/ramfs_executables.c:29-39 | for any tree of any depth, the printed path of every directory leads back to it exactly when all names are non-empty and slash-free and siblings' names differ |
| Directories.PrintedPathIsFound | ShompOS/src/fs/ramfs.c:158-199 | with such names `ramfs_find_dir` maps every path that `ramfs_pwd` can allocate back to its directory |
| Commands.PathLength | ShompOS/src/fs/ramfs_executables.c:16-22 | the first loop counts one byte more than the printed path has |
| Commands.FillPath | ShompOS/src/fs/ramfs_executables.c:29-39 | the second loop fills backwards exactly the bytes of the printed path, and no others |
| Commands.Pwd | ShompOS/src/fs/ramfs_executables.c:13-45 | the path fills exactly `path[1..length)` and is terminated; NULL exactly when the buffer cannot be allocated |
| Commands.CreateDir | ShompOS/src/fs/ramfs.c:26-61 | a new empty directory at the end of the parent's, or no change exactly when the longer array cannot be allocated |
| Commands.MkDir | ShompOS/src/fs/ramfs_executables.c:47-72 | refuses a name that is taken; else a new empty directory with its parent at the end of the list; the tree stays a tree, and good names stay good exactly when the new name is non-empty and slash-free |
| Commands.CreateFile | ShompOS/src/fs/ramfs.c:64-103 | a new file at the end with its own copy of the data, or no change exactly when an allocation fails |
| Commands.FileFitsIs | ShompOS/src/fs/ramfs.c:64-92 | its allocations succeed exactly for names up to 32758 bytes, contents up to 32759 and directories of fewer than 8189 files |
| Commands.Touch | ShompOS/src/fs/ramfs_executables.c:147-175 | a file of one NUL byte in a buffer of its own under the name without leading spaces, unless that is empty or taken; distinct names stay distinct |
| Commands.TrimmedIs | ShompOS/src/fs/ramfs_executables.c:150-151 | trimming drops the leading spaces, all of them and nothing else |
| Commands.DeleteFile | ShompOS/src/fs/ramfs.c:108-155 | exactly the first file of the name is gone, the others keep their order; where names are distinct none of that name is left |
| FileDescriptors.StepInBounds | ShompOS/src/fs/ramfs.c:64-442 | every operation, creating files and deleting files that are not open included, keeps every cursor at most at the end of its file; no file shrinks, and none disappears but a deleted one |
| FileDescriptors.OpenEffect | ShompOS/src/fs/ramfs.c:278-308 | an open takes the first closed slot for just that file, those flags and a cursor at 0, and fails exactly when no slot is closed; nothing else changes |
| FileDescriptors.OpenThenRead | ShompOS/src/fs/ramfs.c:278-337 | a descriptor but the first, just opened with one of the two low flag bits, reads its file from the beginning |
| FileDescriptors.ReadEffect | ShompOS/src/fs/ramfs.c:313-337 | the bytes from the cursor, as many as asked for or left, and the cursor behind them; without an open descriptor but the first, with one of the two low flag bits, -1 and no change |
| FileDescriptors.PlainWrite | ShompOS/src/fs/ramfs.c:341-390 | without bit 2 of the flags a successful write replaces the bytes from the old cursor on, keeps all others, and leaves the cursor behind what it wrote |
| FileDescriptors.AppendWrite | ShompOS/src/fs/ramfs.c:362-390 | with bit 2 it adds the bytes at the end of the file, wherever the cursor was, and leaves the cursor there |
| FileDescriptors.TerminalWrite | ShompOS/src/fs/ramfs.c:346-350 | writes through 1 and 2 change nothing and report all their bytes |
| FileDescriptors.SeekEffect | ShompOS/src/fs/ramfs.c:395-426 | the cursor goes to the offset from the start, the cursor or the end; -1 and no change exactly for a negative target, an unknown origin or a closed slot |
| FileDescriptors.CloseEffect | ShompOS/src/fs/ramfs.c:429-442 | the slot, and only that, is closed with code 0, or -1 when it was closed |
| FileDescriptors.SeekStaysIff | ShompOS/src/fs/ramfs.c:395-426 | a seek keeps that exactly when it does not go past the end, which the code does not check |
| FileDescriptors.SeekPastEnd | ShompOS/src/fs/ramfs.c:395-426 | a descriptor and a seek that does go past the end |
| FileDescriptors.CursorKept | ShompOS/src/fs/ramfs.c:64-442 | over any run of operations through other descriptors, on the same file or not, a cursor stays where it is |
| FileDescriptors.BytesKept | ShompOS/src/fs/ramfs.c:341-390 | over any run, the bytes of a file that no successful write of the run overlaps stay what they are |
| FileDescriptors.WriteSeekRead | ShompOS/src/fs/ramfs.c:313-426 | after a write and any run that neither writes over its bytes nor deletes the file, a seek to where it began and a read through any usable descriptor then open on the file return the data, with or without O_APPEND |
| FileDescriptors.FailedWrite | ShompOS/src/fs/ramfs.c:341-390 | a write fails exactly without an open usable descriptor or when the longer buffer is refused, and then no file's contents change |
| FileDescriptors.SharedFile | ShompOS/src/fs/ramfs.c:313-390 | a read through one descriptor sees the bytes spliced by a write through another on the same file |
| FdTable.FdSystem.constructor | ShompOS/src/fs/ramfs.c:221-228 | all slots are closed and none is counted |
| FdTable.FdSystem.Adopt | ShompOS/src/fs/ramfs.c:64-103 | the table goes on being valid with a file created after it was set up; the state is that of the creation step |
| FdTable.FdSystem.CreateFile | ShompOS/src/fs/ramfs.c:64-103 | a file created anywhere in the tree while the table is in use; the tree, the table and all descriptors stay in order |
| FdTable.FdSystem.MkDir | ShompOS/src/fs/ramfs_executables.c:47-72 | a directory made anywhere in the tree while the table is in use; no descriptor or file changes, and the grown tree can be opened in |
| FdTable.FdSystem.Touch | ShompOS/src/fs/ramfs_executables.c:147-175 | a file made by `touch` while the table is in use, as a creation step |
| FdTable.FdSystem.Disown | ShompOS/src/fs/ramfs.c:108-155 | a file that is not open can be given up; the state is that of the deletion step |
| FdTable.FdSystem.DeleteFile | ShompOS/src/fs/ramfs.c:108-155 | a file that is not open is deleted while the table is in use; the tree, the table and all descriptors stay in order |
| FdTable.FdSystem.Open | ShompOS/src/fs/ramfs.c:230-309 | the special names give 0, 1 and 2, a found file gets the first closed slot with its cursor at 0, everything else gives -1 and no change |
| FdTable.SpecialIs | ShompOS/src/fs/ramfs.c:235-238 | exactly the three standard names stand for 0, 1 and 2 |
| FdTable.FdSystem.Locate | ShompOS/src/fs/ramfs.c:240-276 | the file named after the first slash in the directory named before it, or none |
| FdTable.FdSystem.Read | ShompOS/src/fs/ramfs.c:313-337 | the bytes from the cursor, at most to the end of the file, arrive at the start of the caller's buffer and nowhere else; the cursor moves by their number |
| FdTable.FdSystem.Write | ShompOS/src/fs/ramfs.c:341-390 | the file's buffer holds the splice at the cursor or, appending, at the end, through a longer buffer where needed; other files are untouched |
| FdTable.FdSystem.Seek | ShompOS/src/fs/ramfs.c:395-426 | the cursor is at the offset from the start, the cursor or the end, also past the end; a negative target or unknown origin gives -1 and no change; the cursors stay inside their files exactly for a target inside the file |
| FdTable.FdSystem.Close | ShompOS/src/fs/ramfs.c:429-442 | the slot is closed, or -1 for a slot that is not open |
| OpenPaths.NestedPathNotFound | ShompOS/src/fs/ramfs.c:246-271 | a path with a second slash never finds a file, where file names have no slashes |
| OpenPaths.OpenByPath | ShompOS/src/fs/ramfs.c:246-276 | by the path of its directory joined with its name a file is found exactly when the directory is the root or one of its own subdirectories |
| OpenPaths.OpenByAbsolutePath | ShompOS/src/fs/ramfs.c:246-276 | with a leading slash it is found exactly when the directory is the root |
| OpenPaths.OpenByPrintedPath | ShompOS/src/fs/ramfs.c:246-276 | by the path that `ramfs_pwd` prints for the directory it is never found |
| OpenPaths.NestedFileIsLost | ShompOS/src/fs/ramfs.c:246-276 | a tree with a file `a/b/f` that this path does not open |
| OpenPaths.CreateThenOpen | ShompOS/src/fs/ramfs.c:64-309 | a file created in the root after the table was set up is opened by its name: a closed slot now has that file, those flags and a cursor at 0, and else only the new contents are added; -1 exactly when no slot is closed |
| OpenPaths.LocatedIs | ShompOS/src/fs/ramfs.c:246-276 | for every path that can be copied: without a slash or with nothing before the first one it names a file of the root; else a file of the directory the part before leads to, or NULL when that leads nowhere |
| OpenPaths.FilePathTokens | ShompOS/src/fs/ramfs.c:246-276 | the path of a file used above has as its components the names from the root down to it |
| ElfLoader.WidenIs | ShompOS/src/elf/elf.c:36-52 | where nothing wraps a round is minimum and maximum, except that an empty extent forgets where it ended |
| ElfLoader.ExtentSpans | ShompOS/src/elf/elf.c:24-53 | the extent starts at the lowest kept header, covers every kept segment that is not empty, and ends where some kept one ends |
| ElfLoader.ComputeExtent | ShompOS/src/elf/elf.c:24-53 | the loop computes, in 32-bit arithmetic and for any headers, the folded extent, which has those properties where no segment wraps |
| ElfLoader.ExtentEnds | ShompOS/src/elf/elf.c:31-53 | the extent ends at the farthest end of all kept headers except leading empty ones at addresses that never rise |
| ElfLoader.ExtentIsHullIff | ShompOS/src/elf/elf.c:24-53 | the extent is the exact hull of the non-empty kept segments exactly when there is one, no empty one lies below them all, and one above them all is among the leading ones |
| ElfLoader.EmptySegmentStretches | ShompOS/src/elf/elf.c:36-52 | two headers for which the extent is not the exact hull |
| ElfLoader.WritesStayInside | ShompOS/src/elf/elf.c:55-76 | every byte copied or zeroed stays inside the allocated span exactly when the allocation is refused, so that nothing is written, or no kept segment has more bytes in the file than in memory |
| ElfLoader.FilePartOverruns | ShompOS/src/elf/elf.c:55-76 | a header for which the space is allocated and overrun |
| ElfLoader.NoSpaceNoWrites | ShompOS/src/elf/elf.c:55-59 | a header with more bytes in the file than in memory that does no harm, since a size of 0 is refused |
| ElfLoader.CopySegments | ShompOS/src/elf/elf.c:61-76 | every byte is as the last kept header says that reaches it: the file's byte at the header's offset within its file part, 0 in the rest of its memory part; where none reaches it is unchanged |
| ElfLoader.ImageOfAll | ShompOS/src/elf/elf.c:61-76 | the same of the loads one after the other, as a function |
| ElfLoader.NotLoadableCounts | ShompOS/src/elf/elf.c:36-52 | a header that is not loadable counts for the extent exactly when it is empty |
| ElfLoader.LoadImage | ShompOS/src/elf/elf.c:24-76 | extent, allocation and copying together: NULL exactly when the space is refused, else a space of that size whose every byte is as the last kept header says that reaches it |

## Left out

- HeapManager.Manager.Brk: never fails for lack of memory, as in the code, which has only a TODO there (`heap.c:271`); addresses are unbounded, so the end of the 32-bit address space is not modelled.
- HeapManager.Manager.Sbrk: requires that the new break is not below the lower bound of the heap; the code does not check.
- HeapManager.Manager.Free: requires NULL or the address just past a current block header; for any other pointer the code reads two words that are not a header.
- HeapManager.Manager.InitHeap: requires the fixed lower bound 0x4000000, the address `kernel.c:799` passes; block addresses relative to another base would not be buddies.
- HeapManager.Manager: the header is modelled field by field as four maps over addresses, total because any address can be read; headers are 16 bytes apart, so no two overlap. The bytes of a header and the bit fields are not modelled.
- Scheduler.ProcessManager.SwitchProcessFromQueue: ends with the table and leaves the context switch to its caller, like Scheduler.ProcessManager.SwitchProcess.
- Scheduler.ProcessManager.SwitchProcess: requires a live process with the target PID; for any other PID the code reads and writes through NULL. With no live old process (the first switch, or after the active process was killed) the code reads and writes through NULL; the model skips the downgrade and reports slot 8. The call of `context_switch` itself is not made by the table class: it returns between which slots to switch.
- Scheduler.ProcessManager.InitProcess: requires a free slot, since a full table is an unhandled TODO (`process.c:85-88`), and a stack block of at least 128 bytes.
- Scheduler.ProcessManager.KillProcess: requires that the stack's block still has its header, as `free` does; over runs it always has (Processes.StacksOverRuns).
- SchedulerFairness.NoStarvation: the runs never kill the backstop; nothing in the code prevents it (SchedulerInvariant.KillInv), and the scheduler then reads through NULL.
- SchedulerInvariant.SpawnInv: requires a free slot, as Scheduler.ProcessManager.InitProcess does.
- ContextSwitch.CallOk: the stack pointers and contexts of a switch are aligned to words; how words overlap at other addresses is not modelled.
- ContextSwitch.Cpu.ContextSwitch: addresses do not wrap at 2^32, and `popfl` loads all flag bits, as at the most privileged level.
- Interrupts: a tick that interrupts a heap or file system operation. The code takes no locks; every operation is atomic here.
- Directories.StrDup: the memory of copies and buffers is allocated in the sense that the heap's size limit decides between success and NULL; the file system's blocks are not traced through the heap model, and neither are its calls of `free`.
- Commands.CreateDir: requires that the name's copy can be allocated; the code stores a NULL name otherwise (`ramfs.c:34`).
- Commands.MkDir: the same.
- Commands.DeleteFile: the array of files is a sequence, so its reallocation to one entry less is not modelled.
- FdTable.FdSystem.DeleteFile: requires that no descriptor is open on the file and that it is listed once; the code then leaves descriptors or lists pointing at freed memory.
- FdTable.FdSystem.Seek: after a target past the end, which it admits, nothing more is claimed (FileDescriptors.SeekStaysIff): from there `ramfs_read` computes a negative number of bytes and `ramfs_write` leaves a gap of whatever the buffer held.
- FdTable.FdSystem.Read: requires cursors inside their files, as does FdTable.FdSystem.Write (see FdTable.FdSystem.Seek).
- FdTable.FdSystem.Open: descriptor entries are always allocated, being far below the size limit.
- FdTable.FdSystem.Close: frees the table slot only; the code passes `free` the address of a local variable (`ramfs.c:436`), so the entry is lost, which is not modelled.
- The terminal: reading the keyboard through descriptor 0 is the -1 the code returns; writing to the terminal through 1 and 2 has no effect but its return value.
- FdTable.FdSystem.Write: sizes and positions do not wrap at 2^32. The flag masks are those of the code, which let any descriptor with one of the two low bits both read and write; nothing is claimed about permissions.
- ElfLoader.ComputeExtent: for segments that wrap around the address space it computes what the code does, but nothing is claimed about it.
- ElfLoader.LoadImage: requires the same as ElfLoader.CopySegments, and segments that do not wrap.
- ElfLoader.CopySegments: requires that the file has the bytes the headers promise and that no kept header's file part exceeds its memory part (ElfLoader.WritesStayInside says why); all segments are copied to the same base (`elf.c:71`), so nothing is claimed about the layout of images with several segments.
- The rest of `init_elf`: reading the ELF header, `is_readable`, the stack, the entry point.
- `strncmp` and `strcpy`, the printing of the heap and of addresses, `ls` and `cat`, which only print.
- The kernel's terminal, keyboard, command line, interrupt tables, timer and boot code.
