# Verified model of the ShapeQuake core

This project models the concurrent and memory-handling core of ShapeQuake and the language core of
its shell in Dafny, and proves what they guarantee:

- the block-chain arena allocator of `src/allocator.c`, as values (`ArenaModel`, `ArenaTheorems`) and
  as linked objects updated in place (`ArenaObject`);
- the worker pool of `src/reactor.c` as a transition system in which any number of workers, any
  callers of `enqueue` and one `destroy_workers` interleave freely (`QueueLayout`, `Reactor`,
  `Delivery`, `Shutdown`, `Termination`, `Events`, with the drain's own loops in `DrainLoop`);
- the fixed-size heap tracker of `src/heap.c` and the pool constructors and destructors that live on
  it (`Tracker`, `TrackerObject`, `PoolLifecycle`, `PoolObject`);
- the shell's tokenizer, command joiner, redirection pass, pipeline builder and output translator
  (`Tokenizer`, `TokenizerObject`, `Parser`, `Redirection`, `Pipeline`, `Output`).

Code that works by changing things step by step is modelled by classes and by methods with loops, each
proved against a specification function; what the code promises is then proved about that function.
The reactor's threads are a state machine with one program counter per worker and one for the closer.
`dafny verify dfyconfig.toml` checks everything.

## How the code falls short, and what is proved instead

- A block marked wiped is never unmarked, and workers step over wiped blocks. So a task put into a block
  that was there at an earlier reset is never run. `ReusedBlocksAreSkipped` says exactly how many tasks
  a reset queue drops, and `TasksRunByEvents` says exactly, for every run, which tasks were run.
- An allocation makes three additions that can wrap around for requests close to 2^64: rounding up,
  adding to the offset, and adding the header of a new block. `AllocSoundIff` and `AllocSeparatedIff` give
  the exact condition, `HugeRequestOverlaps` and `HeaderWraps` what follows when it fails, and
  `LiveRangesSeparated` the exact condition over whole runs; requests that a block can hold at all meet
  it (`ModerateRunSeparated`). The fragmentation bound, on the capacities the blocks record, holds even
  with wrap-around. The queues of the reactor are taken to have blocks and tasks of such sizes
  (`MAX_REQUEST`: the C library refuses larger ones, and running out of memory is outside this model).
- The tracker stores a new pointer in the slot numbered by the count of live blocks, which need not be
  free. `StoreLoses` says exactly when a live block is dropped from the table; `heap_free` of it then
  fails. `SweepLeavesNothing` says exactly when `heap_free_all` forgets blocks.
- The tracker's byte counter is exact modulo 2^64 only. `tracking_health` is fatal exactly when blocks are
  live and their rounded sizes add up to a multiple of 2^64 (`FatalIff`), and a listed block that the
  counter does not cover cannot be freed (`ReleaseConserves`). That takes a request within 31 bytes of
  2^64, for which rounding or adding the 16-byte header wraps around (`FirstAllocationHealth`,
  `CounterWraps`); without one it cannot happen (`RegularHistoryHealthy`).
- A pool with jobs but without epoll keeps its job blocks when destroyed. `PoolObject.DestroyPool` has
  the if-and-only-if for one pool and `PoolObject.RunProgram` for whole programs, with a condition
  (`Leaks`) on the program and the number of live blocks it starts with. Both speak of a clean table
  (`Clean`): no slot at or past the live count is occupied, and no live block is one of those whose
  header wrapped. `StoreLoses` and `CounterWraps` say what goes wrong otherwise.
- The command buffer of the parser is filled without a length check. `CreatePayload` says exactly which
  lines overrun it, and `LinesThatFit` that 512 is the largest line length for which none does; the shell
  accepts longer lines.
- The comment on `arena_shred` speaks of any negative id; the code treats only -1 and -2 specially and
  cuts every other id to 16 bits. The model follows the code.

## Model

| member | source | states |
|---|---|---|
| ArenaModel.Align | include/allocator.h:9-11 | rounding yields the next multiple of 16, and 0 when the addition wraps |
| ArenaModel.AdvanceShape | src/allocator.c:101-118 | the search ends on a block that passes the size test, and either leaves every block as it was or appends exactly one; moving on never discards an offset |
| ArenaModel.AdvanceFirstFit | src/allocator.c:101-118 | the search passes over no block that could take the request |
| ArenaModel.AllocShape | src/allocator.c:98-125 | an allocation moves one offset by the rounded size or appends one block, and touches nothing else |
| ArenaModel.AllocKeepsInv | src/allocator.c:98-125 | every allocation of any size keeps offsets within capacities, ids equal to chain positions modulo 65536, and blocks past the current one empty |
| ArenaModel.Run | src/allocator.c:56-69 | that invariant holds after every run of allocations, resets and shreds |
| ArenaModel.NewArenaServes | src/allocator.c:74-96 | a new arena serves every request up to its size from its first block and needs a second one for a request 16 bytes larger; size 0 means 1024 |
| ArenaModel.ResetFlagTells | src/allocator.c:122-187 | after every run the reset flag tells whether the arena has been reset since its latest allocation |
| ArenaModel.ShredWipes | src/allocator.c:46-69 | id -2 wipes every block, -1 the current one, any other id the block at that place modulo 65536, and no request touches a block it does not name |
| ArenaModel.InitHoused | src/allocator.c:26-44 | a new arena has memory behind its block exactly if header and data do not add up to 2^64, or rounding wraps to an empty block |
| ArenaModel.AllocSoundIff | src/allocator.c:98-125 | in an arena with memory behind all its blocks, the range handed out holds the request in memory that is there, and the offset moves past it, exactly when neither the rounding, nor the first comparison, nor the header of a grown block wraps around |
| ArenaModel.AllocKeepsHoused | src/allocator.c:26-44 | and then there is still memory behind all blocks |
| ArenaModel.HeaderWraps | src/allocator.c:26-30 | after arena_init(1024) a request of 2^64 - 64 passes the other two additions and is handed a block for which the C library is asked for nothing |
| ArenaModel.LookupFindsById | src/allocator.c:13-24 | with at most 65536 blocks, looking up id i finds the i-th block, and nothing beyond the last |
| ArenaModel.Lookup | src/allocator.c:13-24 | the lookup answers the first block carrying the id |
| ArenaTheorems.AllocSeparatedIff | src/allocator.c:98-125 | an allocation of any size keeps the live ranges in memory and separate exactly when none of its three additions wraps around |
| ArenaTheorems.LiveRangesSeparated | src/allocator.c:26-125 | over every run with requests of any size, the ranges handed out since their block's offset was last reset stay inside the memory of their block, 16-aligned and pairwise disjoint exactly when no allocation of the run wraps around |
| ArenaTheorems.HandedOutOnce | src/allocator.c:98-125 | told by the operations of a run: until the offset of its block is reset, a range handed out lies inside the block's memory and overlaps none handed out later |
| ArenaTheorems.ModerateNeverWraps | src/allocator.c:98-125 | no allocation of a run wraps around if its requests are such that a block can hold them at all |
| ArenaTheorems.ModerateRunSeparated | src/allocator.c:46-125 | so every run of such requests from a new arena keeps its live ranges separate |
| ArenaTheorems.HugeRequestOverlaps | src/allocator.c:98-125 | a request whose rounded size wraps past the offset makes the next one reuse bytes already handed out |
| ArenaTheorems.ReplayFrom | src/allocator.c:98-125 | an arena that has all blocks another run will need gives the same addresses and keeps its blocks |
| ArenaTheorems.ResetReplays | src/allocator.c:180-189 | any list of requests on a reset arena, repeated after another reset, gets the same addresses and makes no block |
| ArenaTheorems.RunKeepsPacked | src/allocator.c:101-121 | without resets, the offsets add up to the rounded bytes requested exactly when no first comparison wraps, and then adjacent blocks satisfy offset(k) + offset(k+1) > capacity(k) |
| ArenaTheorems.AllocCharges | src/allocator.c:98-125 | on the bytes handed out of each block the inequality between adjacent blocks survives every allocation, wrapping or not |
| ArenaTheorems.FragmentationBound | src/allocator.c:101-121 | for every block size and every list of requests, the capacities recorded in the blocks before the last add up to at most twice the rounded bytes requested, to strictly less when there is more than one block |
| ArenaObject.ArenaList.constructor | src/allocator.c:74-96 | a new arena is one empty linked block of the rounded size, as NewArenaServes says |
| ArenaObject.ArenaList.MoveOn | src/allocator.c:102-104 | moving to the next block zeroes an offset that is zero already |
| ArenaObject.ArenaList.Search | src/allocator.c:101-118 | the pointer loop does what the specification's search does, and terminates |
| ArenaObject.ArenaList.Allocate | src/allocator.c:98-125 | the linked allocator returns the specification's address and keeps the list doubly linked and acyclic |
| ArenaObject.ArenaList.ResetAll | src/allocator.c:180-189 | reset wipes and empties every block of the list and returns to the head |
| ArenaObject.ArenaList.Shred | src/allocator.c:56-69 | shredding the entire chain, the current block or one block by id changes just those blocks, and reports whether there is one |
| ArenaObject.ArenaList.Find | src/allocator.c:13-24 | the pointer walk finds the first block with the id or null |
| ArenaObject.ArenaList.AmountCapacity | src/allocator.c:191-205 | the sum of capacities modulo 2^32, or the largest size if a block has none |
| ArenaObject.ArenaList.Destroy | src/allocator.c:218-240 | refused exactly while resources are held and it is not forced; otherwise frees each block once, in chain order |
| DrainLoop.DrainWalk | src/reactor.c:47-93 | the worker's two nested loops visit exactly the specified cursor positions |
| QueueLayout.WalkIsUnwipedSlots | src/reactor.c:51-93 | the cursor visits, in order, exactly the slots of the blocks that are not wiped |
| QueueLayout.DrainVisitsReservations | src/reactor.c:47-94 | for any task size, block size and number of tasks, the walk lands in reservation order on exactly the slots reserved in unwiped blocks |
| QueueLayout.FirstDrainVisitsAll | src/reactor.c:47-94 | on a never-reset queue with no enqueue beside it a drain visits every task |
| QueueLayout.TaskTakesRoom | src/allocator.c:98-125 | a task goes into the first m blocks exactly while they have room left for one, and takes one place |
| QueueLayout.ReusedBlocksAreSkipped | src/allocator.c:46-54 | of any number of tasks put into a reset queue the walk skips exactly the first, as many as the blocks that were there hold in all; it visits every one exactly if each of those blocks is too small for a task |
| Delivery.VisitPassesOne | src/reactor.c:58-90 | one cursor move passes the slot it was on and no other |
| Delivery.WorkKeeps | src/reactor.c:35-98 | every action of a worker keeps the delivery invariant |
| Delivery.ReserveKeeps | src/reactor.c:541-546 | reserving a slot at any moment of a drain keeps the delivery invariant |
| Delivery.WriteKeeps | src/reactor.c:559-565 | writing a task at any moment, even after a reset made its slot stale, keeps the delivery invariant |
| Shutdown.AckedBound | src/reactor.c:613-616 | all acknowledgements are in exactly when every worker has finished |
| Shutdown.StepKeeps | src/reactor.c:35-98 | every step of every actor keeps the whole pool's invariant |
| Shutdown.ShutdownSafety | src/reactor.c:597-644 | in every interleaving, no queue is destroyed and no record freed before all workers have left their loop, no later worker step exists, and acks taken plus acks pending equal the workers that posted |
| Shutdown.DeliverySafety | src/reactor.c:47-94 | in every interleaving and across resets, the tasks run are an increasing list of reservation numbers; a task from before the last reset ran exactly if its block was not wiped earlier, it was not reserved behind the cursor and not visited before its write |
| Shutdown.UndisturbedDrainRunsAll | src/reactor.c:47-94 | a drain with no wiped block, late reservation or late write has run every task reserved since the last reset |
| Shutdown.NoLostWakeUp | src/reactor.c:39-44 | while a worker sleeps without a wake-up, no post has been made for a task reserved since its last reset |
| Shutdown.QuietDelivers | src/reactor.c:35-94 | in a pool at rest every unfinished worker sleeps, and every notified task was run exactly if it was not in an earlier wiped block, not reserved behind the cursor and not visited before its write |
| Events.TasksRunByEvents | src/reactor.c:47-94 | told by the steps of any run: a task was run exactly if the cursor came to its slot after its write; and once its queue has been reset, exactly if it was never reserved behind the cursor, never visited before its write and never in a block wiped before |
| Events.NoticePromised | src/reactor.c:565-569 | posts made or still owed by callers are for exactly the tasks enqueued with notice |
| Events.NoticesDelivered | src/reactor.c:541-569 | in a pool at rest, every task enqueued with notice to an unfinished worker has been dealt with, and was run exactly under the condition above |
| Events.SemaphoreBalance | src/reactor.c:35-45 | in every run a worker's semaphore holds exactly the posts made by callers and closer less those the worker has taken |
| Events.QueueHoldsReservations | src/reactor.c:541-546 | in every run, each enqueue has reserved one slot, and the positions a cursor can visit are exactly the slots reserved since the latest reset, in order |
| Events.ResetLeavesNothing | src/allocator.c:46-48 | in every run a queue's memory holds a task only if its caller has written it since the latest reset |
| Shutdown.LeavingRunsNothing | src/reactor.c:35-45 | a worker told to stop while not draining runs nothing more, whatever is queued |
| Termination.ShutdownProgress | src/reactor.c:603-636 | until the closer is through some step other than an enqueue is enabled; a join never blocks |
| Termination.MeasureDrops | src/reactor.c:35-98 | every step of a worker, of the closer or of a caller that already has its slot lowers the measure |
| Termination.ShutdownBounded | src/reactor.c:597-644 | a run in which no new enqueue begins is no longer than the measure of where it starts, though those already begun may still write and post at any moment |
| Termination.StuckMeansClosed | src/reactor.c:597-644 | such a run can go no further exactly when every worker is joined, every queue destroyed and every record freed |
| Tracker.StoreConserves | src/heap.c:7-26 | an allocation of any size records the request rounded up to 16, or 0 where rounding wraps, in the header and in the byte counter, lists the block at the live count, and keeps the block counter equal to the live blocks and the byte counter equal to their sizes modulo 2^64 |
| Tracker.ReleaseConserves | src/heap.c:78-117 | freeing a live block succeeds exactly when the table still lists it and the byte counter covers it, and then clears just its slot; else nothing changes, and the status tells which of the two failed |
| Tracker.TrackerConservation | src/heap.c:7-117 | after every history of allocations of any size and frees of live blocks each live block carries the rounded size of its request, the counters are exact, bytes modulo 2^64, listed pointers are distinct and live, a free succeeds as above, and health is fatal exactly when blocks are live and the byte counter is 0 |
| Tracker.RegularHistoryHealthy | src/heap.c:32-42 | if no request exceeds 2^64 - 32, and the C heap's blocks do not overlap, the byte counter is exact, a free succeeds exactly for a listed block and health is never fatal |
| Tracker.CounterWraps | src/heap.c:11-23 | requests of 2^64 - 16 and 16, for the first of which nothing is asked, bring the byte counter to 0: health is fatal and the first block, though listed, cannot be freed |
| Tracker.FatalCases | src/heap.c:37-41 | on any table health is fatal exactly when one counter is 0 and the other is not |
| Tracker.FatalIff | src/heap.c:37-41 | on a consistent table that is when blocks are live and their rounded sizes add up to a multiple of 2^64 |
| Tracker.FirstAllocationHealth | src/heap.c:7-26 | the first allocation makes health fatal exactly when rounding its size wraps |
| Tracker.StoreLoses | src/heap.c:20-23 | an allocation drops a listed block exactly when that block sits in the slot numbered by the live count, and freeing it then fails |
| Tracker.SweepFreesBelow | src/heap.c:59-76 | freeing all frees and clears just the slots below the live count |
| Tracker.SweepLeavesNothing | src/heap.c:59-76 | freeing all leaves no block exactly when every live block sits below the live count |
| TrackerObject.HeapTracker.Alloc | src/heap.c:51-57 | the in-place allocation records the rounded size and stores as specified, for any size, and fails only on a zero request, 20 live blocks or a refusal by the C heap, which sees only what it is asked for |
| TrackerObject.HeapTracker.Free | src/heap.c:78-117 | the in-place free with its slot search releases as specified |
| TrackerObject.HeapTracker.Healthy | src/heap.c:32-42 | health reports fatal exactly when blocks are live and their rounded sizes add up to a multiple of 2^64 |
| TrackerObject.HeapTracker.FreeAll | src/heap.c:59-76 | the loop frees exactly the slots below the live count and zeroes the counters |
| PoolLifecycle.StoreAbove | src/heap.c:20-23 | with no occupied slot at or past the live count an allocation overwrites nothing |
| PoolLifecycle.ReleaseAbove | src/heap.c:94-113 | a pool's own block is freed without touching another, in whatever order, and on a clean table always found |
| PoolObject.TakeEach | src/reactor.c:350-353 | the constructor loop fills exactly the entries for which slots remain and leaves the others null |
| PoolObject.InitThreading | src/reactor.c:296-355 | on any tracker, a thread pool is made exactly when its arguments are in range, the tracker is healthy and two slots are free; each of its blocks is as large as what is kept in it, the byte counter grows by just these; a failed init loses no block, and on a clean table changes nothing |
| PoolObject.InitMixed | src/reactor.c:392-441 | the same for a pool with jobs, with three slots, and exactly which jobs and workers get a block and how large |
| PoolObject.DestroyJobs | src/reactor.c:646-699 | gives back the job blocks with epoll, and nothing without |
| PoolObject.DestroyWorkers | src/reactor.c:620-643 | gives back every worker block and the array of workers |
| PoolObject.DestroyPool | src/reactor.c:701-712 | restores a clean table exactly when the pool uses epoll or has no job blocks, and on any tracker loses no block of others |
| PoolObject.RunInside | src/reactor.c:701-712 | whatever ran inside a pool, its destruction leaves behind the pool's job blocks if it has no epoll, and what was left behind inside |
| PoolObject.RunProgram | src/reactor.c:296-355 | every properly nested program of pools of every mode, with any constructor failing, loses no live block; with epoll on all pools with jobs it leaves a clean table as it was; without refusals it does so exactly unless it comes to make a pool with jobs and without epoll |
| Tokenizer.BetweenLetters | shell/src/core/tokenizer.c:67-80 | between two letters, each of the six whitespace characters separates, a pipe is a token of its own, and any other character joins |
| Tokenizer.TokensCharacterised | shell/src/core/tokenizer.c:67-80 | the tokens are the text of the one list of spans that are pipes or maximal words, in order, leaving out only whitespace |
| Tokenizer.TokensWellFormed | shell/src/core/tokenizer.c:67-80 | tokens are non-empty, free of whitespace and either a pipe or pipe-free, and concatenate to the input without whitespace |
| Tokenizer.JoinSnoc | shell/src/core/parser.c:33-37 | one more token adds a single space and itself to the join |
| Tokenizer.JoinInverts | shell/src/core/parser.c:31-37 | tokenizing the space-joined form of well-formed tokens gives them back |
| Tokenizer.RoundTrip | shell/src/core/parser.c:31-46 | joining a line's tokens from any position on and tokenizing again gives exactly those tokens |
| Tokenizer.JoinLength | shell/src/core/parser.c:33-37 | the join of a line of length n is at most 2n-1 long, reached by n pipes, and at most n without pipes |
| TokenizerObject.TokenList.Add | shell/src/core/tokenizer.c:13-33 | appends a non-empty token unless its copy or a needed enlargement cannot be had, and always keeps room for the null |
| TokenizerObject.Trim | shell/src/core/tokenizer.c:36-46 | the view leaves out only whitespace and has none at its ends |
| TokenizerObject.NextToken | shell/src/core/tokenizer.c:67-80 | one turn of the scan over the trimmed view takes the next token of the untrimmed line |
| TokenizerObject.Tokenize | shell/src/core/tokenizer.c:48-97 | null exactly for a blank line or when the list cannot be had; all tokens if memory suffices, some of them in order otherwise; always null-terminated within capacity |
| Parser.Strcat | shell/src/core/parser.c:33-37 | appends in place and leaves a terminated string |
| Parser.TailOfSubsequence | shell/src/core/parser.c:31-37 | tokens lost to failed allocations cannot make the command longer |
| Parser.PrefixIsDropped | shell/src/core/parser.c:21-28 | the line subnode or subnode-Iv followed by another makes the command of that other line, and a line without such a prefix keeps all its tokens |
| Parser.LinesThatFit | shell/src/core/parser.c:30-39 | the command made from a line of length n fits its buffer for every such line exactly if n is at most 512 |
| Parser.JoinInto | shell/src/core/parser.c:33-37 | the two appends for each token stay inside the buffer exactly if the whole command does, and then build it |
| Parser.CreatePayload | shell/src/core/parser.c:13-54 | the buffer is overrun exactly by a command of 1024 or more characters; otherwise the payload's command is the join of the tokens after the prefix - those of the line, or where memory fails some of them in order - tokenizes back to them, and carries the flags and shape of the prefix |
| Redirection.Operators | shell/src/core/module/common/redirect.c:26-40 | a word redirects if it begins with > or is <, and opens for appending, truncating or reading as its first two characters say |
| Redirection.StripIsFilter | shell/src/core/module/common/redirect.c:19-64 | the pass keeps exactly the words that neither redirect nor are operands, and asks for exactly the files named behind those that redirect, position by position |
| Redirection.StripSettles | shell/src/core/module/common/redirect.c:19-64 | a remaining operator is the last argument, a second pass changes nothing, and a pass changes nothing exactly if no operator had an operand |
| Redirection.LastOpenedWins | shell/src/core/module/common/redirect.c:26-49 | each standard stream ends at the last successfully opened redirection of its kind, and is unchanged without one |
| Redirection.ShiftOut | shell/src/core/module/common/redirect.c:54-59 | the inner loop removes the first two entries and terminates |
| Redirection.HandleRedirection | shell/src/core/module/common/redirect.c:19-64 | in place, leaves the arguments without their redirections and performs the requests in order |
| Pipeline.SegmentsUnsplit | shell/src/core/module/common/pipe.c:24-31 | segments are free of bars and give the arguments back when joined by bars |
| Pipeline.EachEndHeldOnce | shell/src/core/module/common/pipe.c:39-50 | each pipe's write end is held by one child and its read end by the next, as standard streams, and by no one else |
| Pipeline.ChildSide | shell/src/core/module/common/pipe.c:41-50 | the child's closes and duplications leave its standard streams on its pipe ends, the outer ones where the shell's are, and every other descriptor as it was |
| Pipeline.Fork | shell/src/core/module/common/pipe.c:32-71 | the parent keeps only the read end for the next child, and nothing after the last |
| Pipeline.ChildArgs | shell/src/core/module/common/pipe.c:41-53 | a child sees its segment, executes it without its redirections, and has its standard streams decided by those that were granted |
| Pipeline.ExtractPipe | shell/src/core/module/common/pipe.c:19-76 | one child per segment, seeing exactly that segment and executing what its redirections leave of it; the first reads and the last writes where the shell does, the pipes join the others, and no other descriptor differs; the parent's arguments and descriptors end as they began |
| Output.TranslateSettles | shell/src/ui/ui.c:38-46 | the translation leaves no bare line feed, changes nothing exactly when there is none, and is idempotent |
| Output.TranslateLength | shell/src/ui/ui.c:38-46 | the translation adds one byte for each line feed that does not follow a carriage return |
| Output.TranslateAddsReturns | shell/src/ui/ui.c:38-46 | the translation adds nothing but carriage returns |
| Output.Translator.Dispatch | shell/src/ui/ui.c:38-52 | written plus buffered bytes stay equal to the direct translation, the index stays below 1008, and the buffer is written out at a line feed or when it is full, and not before |
| Output.Translator.Flush | shell/src/ui/ui.c:54-59 | after a flush everything dispatched has been written |
| Output.RunCalls | shell/src/ui/ui.c:38-59 | every interleaving of bytes and flushes writes the direct translation |

## Left out

- The bytes stored in arena blocks, the mutexes, and the paths that run out of memory in the allocator or return with a mutex held in the tracker.
- The greatest value of a semaphore, weak memory orders, failing thread creation, and the exit of a worker with a negative id; a worker in the model is one whose thread started, and null worker entries, which all loops of the closer skip, are not listed.
- The fields `is_sleeping` and `is_done_queues`, the callbacks around a task's execution, and what a task does; a task that enqueues is the same as another caller enqueuing right after it.
- Calls of `enqueue` on a pool whose queue has been destroyed: callers must have stopped by then.
- An exactly-once guarantee for all tasks: the code does not give one (see above).
- `init_mode_processing` and the shared memory zones of `src/vma.c`; processes and signals of jobs, of which only the blocks they occupy are kept.
- PoolObject.RunProgram: pools that are not properly nested are covered only through StoreLoses, which says when an allocation overwrites a live slot; and a free that no longer finds its block is taken to return, though the program then keeps its mutex.
- Parser.CreatePayload: what the program does once it has written past its buffer.
- Pipeline.ExtractPipe: failing `fork` or `pipe`, waiting for children, path lookup and `execve`; standard descriptors 0 to 2 are open when it is called.
- Redirection.HandleRedirection: descriptors above 2, which are closed again after duplication; heredocs in the same file.
- Short writes and write errors of the output translator; the prompt functions beside it.
- Server, storage, terminal, X11, packet and status code: input and output plumbing or simple record handling.
