# xv6 in Dafny: what the kernel keeps

A model of the xv6 teaching kernel with its reworked scheduler, of mkfs, and of three of its user programs, with
proofs of what they keep.  Code that updates memory in place is a class or a method proved against a
specification; code run by several processes at once is a state machine whose runs are all interleavings of
its critical sections.

| module | models | main results |
|---|---|---|
| CrashSafeLog | log.c over memide.c | all-or-nothing transactions under any series of crashes, also inside recovery |
| LogOps | begin_op, log_write, end_op | the log is the history of its operations, and never overflows while they keep to their budgets; no lost wakeup; when the budget of an operation is honest |
| SleepLock | sleeplock.c over sleep and wakeup | one holder, no lost wakeup, calls end with and without the lock, every waiter can get it, what holdingsleep tells |
| BufferCache | bio.c | the cache shows the last bytes stored; least recently released replacement; when a commit gets its buffers |
| Policies, ProcTable, ProcLife | proc.c | no zombie is forgotten, each exit is reaped once, the state diagram of a process |
| FifoFairness, Accounting | scheduler, trap.c, nice | bounded waiting; when charged time is fair; what strategy 3 does |
| Malloc | umalloc.c | ring structure, conservation, disjoint blocks, termination |
| Pipe | pipe.c | bytes in order across counter wrap; calls write and read what they should; nobody left asleep |
| Grep, Shell, ShellGrammar | grep.c, sh.c | matching is what it should be; a text parses to a command exactly when it is a line that stands for it |
| FileLayout, Extents, FileSystem, FileCalls, Mkfs | fs.c, file.c, mkfs.c | files are byte sequences, blocks have one owner, which blocks are taken and logged, the first image |
| Links | sysfile.c, directories of fs.c | link counts count names; no named inode is freed; directories are maps from names to inodes |
| Vm | vm.c, kalloc.c | copies are private and equal; frames are conserved |
| Counting | | the pigeonhole principle |

A result `ok == false` of a method is a panic of the source; such results are characterised wherever a caller could
foresee them.  Sizes are those of param.h, fs.h, mmu.h and memlayout.h.

Where the source does not do what it sets out to do, the model follows the source and the exact condition is
proved:

- The log area that mkfs reserves has LOGSIZE blocks, one of them the header, so an operation within its budget can
  still panic; and begin_op reserves MAXOPBLOCKS for chunks of filewrite that log up to 17
  (`LogOps.BudgetIsHonestIff`, `FileCalls.ReservationIsKeptIff`, `FileCalls.AppendChunk`).
- A commit of NBUF blocks would find no buffer; the log area of mkfs is one block too small for it
  (`BufferCache.CommitHasABuffer`).
- holdingsleep does not look at the owner (`SleepLock.HoldingSleepIsRightIff`).
- exec restarts ctime but not rtime, and a second processor charges time that the clock does not see
  (`Accounting.AccountingIsFairIff`, `Accounting.UnfairAfterLateExec`, `Accounting.UnfairWithTwoProcessors`).
- Strategy 3 divides integers, so the share of the processor it means to guarantee is 0 for every process that has
  waited (`Accounting.GuaranteedIsTableOrder`).
- malloc's rounding and morecore's request can wrap around (`Malloc.LargeEnoughIff`, `Malloc.CoreIsAskedForIff`).
- A killed writer leaves pipewrite without waking readers (`Pipe.NeverForgottenIff`).
- mkfs can leave the root directory with a hole (`Mkfs.Image.FixRoot`), and fileread opens no transaction, so that
  listing the root then panics (`FileCalls.ListEmptyFiles`).
- iupdate is called only when writei makes a file grow, so a slot of the inode that readi or writei fills below the
  size is not recorded on disk (`FileSystem.FileSys.Readi`, `FileSystem.WriteInodes`), as when a name is looked up in
  a root directory with a hole (`FileCalls.LookUpAmongEmptyFiles`).
- Names entered into a removed directory are counted and lost (`Links.StepIff`).
- setupkvm and copyuvm keep frames when a page table cannot be had (`Vm.LeaksIff`).
- deallocuvm can skip pages of an address space with gaps (`Vm.ScanMisses`), but not of one without
  (`Vm.ScanOfContiguous`), and growproc and fork make no gaps unless a process gives all its memory back
  (`Vm.Memory.Growproc`, `Vm.Memory.ShrinkAndFork`).

`dafny verify dfyconfig.toml` checks the whole project.

## Model

| member | source | states |
|---|---|---|
| `CrashSafeLog.CrashAtomicity` | log.c:190-200 | After a crash at any block write of commit, and any series of crashes inside later recoveries, the first complete recovery shows the whole transaction if the first header write was reached and none of it otherwise, in every home block |
| `CrashSafeLog.ReplayIsIdempotent` | log.c:115-122 | However often and wherever recovery is interrupted, the first one that completes leaves the same home blocks |
| `CrashSafeLog.Run` | log.c:53-67 | Any run of transactions, each commit and each recovery of which may crash, ends idle and shows exactly the transactions whose header write was reached, whole and in order |
| `CrashSafeLog.After` | log.c:190-200 | One transaction with its crashes leaves the disk idle with the outcome that its write count decides |
| `CrashSafeLog.CommitImages` | log.c:190-200 | Every image a commit passes through is idle with the old contents, committed, or idle with the new contents, according to the number of blocks written |
| `CrashSafeLog.CommitTraceAt` | log.c:175-200 | The w-th image on the recorded trace of commit is the image after w+1 block writes, and there are 2n+2 of them, or none for an empty header |
| `CrashSafeLog.RecoverTraceAt` | log.c:115-122 | The same for the n+1 images of a recovery |
| `CrashSafeLog.LoggedContents` | log.c:175-188 | write_log puts the cached block of entry i into log block i and touches nothing else |
| `CrashSafeLog.InstalledAt` | log.c:69-82 | install_trans gives the first k named blocks their logged contents and leaves all others |
| `CrashSafeLog.InstalledContents` | log.c:69-82 | A partial install keeps the transaction committed; a full one gives all home blocks their new contents |
| `CrashSafeLog.ClearedIsIdle` | log.c:190-200 | Erasing the header of an installed transaction leaves an idle disk with the new contents |
| `CrashSafeLog.RecoverImageRecoverable` | log.c:115-122 | An interrupted recovery leaves a header that can be replayed |
| `CrashSafeLog.CommittedRecovery` | log.c:115-122 | Recovering a committed transaction yields its contents, from every intermediate image too |
| `CrashSafeLog.IdleRecovery` | log.c:115-122 | Recovering an idle disk changes no home block |
| `CrashSafeLog.InstalledKeepsLog` | log.c:69-82 | Installing never writes into the log area |
| `CrashSafeLog.Log.Initlog` | log.c:53-67 | After boot the disk is the recovered one, reached through exactly the images of RecoverTrace, and the log is empty |
| `CrashSafeLog.Log.Bread` | bio.c:96-106 | Reading a block gives the bytes last stored in it and changes none |
| `CrashSafeLog.Log.Bwrite` | bio.c:109-116 | One block reaches the disk, and the image is recorded |
| `CrashSafeLog.Log.LogWrite` | log.c:211-231 | A block is entered once, keeps its place when it is entered again, and is refused exactly when the header or the log area is full or no operation is under way |
| `CrashSafeLog.Log.WriteLog` | log.c:175-188 | The loop leaves the images of Logged, one per block, and no home block changes |
| `CrashSafeLog.Log.WriteHead` | log.c:101-113 | The header block holds the count and the block numbers |
| `CrashSafeLog.Log.InstallTrans` | log.c:69-82 | The loop leaves the images of Installed, one per block, and the cache agrees with the disk |
| `CrashSafeLog.Log.ReadHead` | log.c:85-96 | The in-memory header is what the header block says |
| `CrashSafeLog.Log.RecoverFromLog` | log.c:115-122 | The disk becomes the recovered one through exactly the images of RecoverTrace |
| `CrashSafeLog.Log.Commit` | log.c:190-200 | The cached contents of the logged blocks become the home blocks through exactly the images of CommitTrace, and no process sees a block change |
| `LogOps.LogFitsInEveryRun` | log.c:125-172 | If no operation logs more than begin_op reserves for it, then in every interleaving logged entries plus all unspent budgets are at most LOGSIZE, entries are distinct, and a commit runs only when no operation is in progress |
| `LogOps.InvStep` | log.c:125-172 | Every critical section keeps that |
| `LogOps.InvInit` | log.c:53-67 | It holds at boot |
| `LogOps.AppendInBounds` | log.c:216-230 | While operations keep to their budgets, the entry stored after the unlocked size test is never past the end of the header, whatever others appended meanwhile |
| `LogOps.AppendsStayInBoundsIff` | log.c:216-230 | With more than LOGSIZE blocks in the log area and two processes or more, that holds in every run if and only if the budget is the MAXOPBLOCKS that begin_op reserves |
| `LogOps.EndOpNeverPanics` | log.c:149-152 | end_op never finds a commit running |
| `LogOps.NoneLeftAsleepInAnyRun` | log.c:125-172 | In every interleaving, whatever operations log, a process asleep in begin_op is one that has to wait: the wakeups of end_op are enough |
| `LogOps.AsleepStep` | log.c:125-172 | Every critical section keeps that |
| `LogOps.WaitersHaveAWaker` | log.c:128-134 | begin_op waits only while a commit or another operation is under way, whose end wakes it |
| `LogOps.BudgetIsHonestIff` | log.c:216-217 | With two processes or more, an operation within a budget of at least MAXOPBLOCKS can never reach the size panic if and only if the log area has more than LOGSIZE blocks and the budget is MAXOPBLOCKS; mkfs reserves LOGSIZE blocks |
| `LogOps.TwoOperationsPanic` | log.c:125-138 | Two operations that may log 16 blocks each reach the size panic, whatever the size of the log area |
| `LogOps.FillingRun` | mkfs.c:25 | Two processes can fill the log up to any k entries, for every budget of MAXOPBLOCKS or more |
| `LogOps.NoPanicWithRoom` | log.c:216-217 | With more than LOGSIZE blocks no process with budget left meets the panic |
| `LogOps.LogIsItsHistory` | log.c:125-231 | After every run, whatever the budgets, the header is exactly the blocks logged since it was last cleared, each once and in order; outstanding counts the operations begun and not ended; and a commit is under way exactly from the end of the last operation to its own end |
| `LogOps.PlacesAreHistory` | log.c:125-172 | After every run a process sleeps in begin_op exactly if it went to sleep there and no wakeup has come since, and has an operation under way exactly if it has begun one and not ended it |
| `LogOps.LoggedUntilCleared` | log.c:202-231 | In every run a block that log_write has entered is in the header until the header is cleared |
| `LogOps.LastEndOpCommits` | log.c:146-172 | In every run outstanding comes to 0 only by an end_op that sets committing and leaves the header as it is; with no operation under way a non-empty header means a commit; only a commit clears the header, and it ends only with an empty one |
| `LogOps.EveryRunCanFinish` | log.c:125-172 | While operations keep to their budgets, every run can go on until all operations have ended, the header has been committed and cleared, and nobody waits in begin_op |
| `LogOps.AllCanFinish` | log.c:125-172 | The same from every state with the invariant, by a run that is built |
| `SleepLock.MutualExclusion` | sleeplock.c:22-42 | In every interleaving a sleep lock has at most one holder, the recorded one, and is locked exactly when it has one |
| `SleepLock.NoLostWakeup` | proc.c:688-745 | In every interleaving, whenever both spinlocks are free, nobody sleeps on an unlocked sleep lock |
| `SleepLock.InvStep` | sleeplock.c:22-42 | Every step keeps who holds which lock, who owns the sleep lock, and that waiters have a waker |
| `SleepLock.InvRun` | sleeplock.c:22-42 | So does every run |
| `SleepLock.WaitersAreSafeContinue` | proc.c:688-721 | No step on the way into sleep or out of wakeup leaves a waiter without a waker |
| `SleepLock.AcquireEndsWithTheLock` | sleeplock.c:22-32 | In every interleaving a process that has called acquiresleep is inside it until a state in which it holds the lock, which is locked and records it as its owner |
| `SleepLock.ReleaseEndsWithoutTheLock` | sleeplock.c:34-42 | A process that has called releasesleep held the lock then, and leaves the call at a state in which it is not the owner |
| `SleepLock.CallStep` | sleeplock.c:22-42 | The same for one step; and who holds the lock holds it until it calls releasesleep |
| `SleepLock.EveryWaiterCanGetTheLock` | sleeplock.c:22-42 | From every reachable state every process inside acquiresleep can still get the lock: a run is built that gives it to the process |
| `SleepLock.GoToSleep` | sleeplock.c:25-28 | On a locked lock acquiresleep ends up asleep on it, with both spinlocks free and the lock with its owner |
| `SleepLock.GiveUp` | sleeplock.c:34-42 | releasesleep unlocks the lock, wakes exactly those who sleep on it, and gives up both spinlocks |
| `SleepLock.SleepsUntilWoken` | proc.c:688-770 | A process sleeps on the lock from sleep on until a wakeup of releasesleep or a kill, and not longer |
| `SleepLock.SleepsElsewhereIff` | proc.c:688-770 | In every run a process sleeps on another channel exactly if it went to sleep there and neither a wakeup on it nor a kill has come since |
| `SleepLock.HoldingSleepIsRightIff` | sleeplock.c:44-53 | holdingsleep tells a process rightly whether it holds the lock if and only if the lock is free or records the process as its owner |
| `SleepLock.HoldingSleepMisleads` | sleeplock.c:44-53 | A run in which it tells a process that it holds another's lock |
| `BufferCache.Bcache.constructor` | bio.c:38-56 | The list holds all buffers, none in use, and the cache shows the disk |
| `BufferCache.Bcache.Bget` | bio.c:61-93 | No block is cached twice; a buffer in use or pinned is never recycled; the victim is the least recently released eligible one; the panic comes exactly when the block is absent and nothing is eligible |
| `BufferCache.CommitHasABuffer` | log.c:175-188 | With no buffer in use and the logged blocks pinned, write_log gets a buffer for a block of the log area if and only if fewer than NBUF blocks are logged |
| `BufferCache.Bcache.Lookup` | bio.c:68-76 | The forward scan finds the block if any buffer has it |
| `BufferCache.Bcache.Victim` | bio.c:81-91 | The backward scan finds the eligible buffer released longest ago, if there is any |
| `BufferCache.Bcache.LockAndRead` | bio.c:96-106 | The holder sees the bytes last stored in the block, and nothing else of the buffer has changed; it panics exactly when the block is not on the disk |
| `BufferCache.Bcache.Store` | log.c:202-210 | A store under the lock changes what the block holds and nothing else |
| `BufferCache.Bcache.Pin` | log.c:211-231 | A pinned buffer counts as written and cannot be recycled |
| `BufferCache.Bcache.Bwrite` | memide.c:37-59 | The disk gets the bytes and the buffer becomes clean |
| `BufferCache.Bcache.Unlock` | bio.c:120-127 | Giving up the lock keeps the cache coherent if every store was followed by log_write or bwrite |
| `BufferCache.Bcache.Unref` | bio.c:127-140 | The last reference moves the buffer to the front, as released last |
| `BufferCache.Bcache.MoveToFront` | bio.c:130-137 | The list stays a permutation of the buffers in the order of their releases |
| `BufferCache.UnlinkKeepsLinks` | bio.c:131-132 | Two stores take a buffer out of the doubly linked list |
| `BufferCache.PushFrontKeepsLinks` | bio.c:133-136 | Four stores put it in front |
| `BufferCache.MovedIsByRelease` | bio.c:130-137 | Moving a buffer to the front keeps the list in the order of release |
| `BufferCache.OrderHas` | bio.c:38-56 | The list holds every buffer |
| `BufferCache.RecycleIsCoherent` | bio.c:81-91 | Recycling an eligible buffer loses no stored byte |
| `BufferCache.ReplaceIsCoherent` | bio.c:96-116 | A change to one buffer that agrees with what the block holds keeps the cache coherent |
| `Policies.Pick` | proc.c:436-468 | The scan returns the first RUNNABLE process with the least score below the bound, or none exactly when there is none |
| `Policies.Wakeup1` | proc.c:726-736 | Exactly the processes asleep on the channel become RUNNABLE, stamped with the tick |
| `Policies.KillPid` | proc.c:750-770 | The first process with the pid is killed and woken; failure means there is none |
| `Policies.PickFromQueues` | proc.c:498-580 | Strategy 4 takes the best of the highest queue, or else of the second, or else the first process of the lowest; it finds none only if no process may be dispatched |
| `Policies.ExitProc` | proc.c:332-352 | Children go to init, init is woken for zombies among them, and the process is a zombie with its exit time |
| `Policies.WaitScan` | proc.c:365-389 | The scan returns the first zombie child, and otherwise whether there are children |
| `ProcTable.NoZombieIsForgotten` | proc.c:309-397 | In every run, whenever ptable.lock is free, no process asleep in wait has a zombie child, and every process past fork except init has a live parent |
| `ProcTable.EachExitIsReapedOnce` | proc.c:96-142 | In every run wait returns no pid twice and only pids that exited; an exited pid that was not returned belongs to exactly one zombie |
| `ProcTable.InvStep` | proc.c:263-397 | Every critical section keeps the family, pid, reaping and waiting invariants |
| `ProcTable.InvRun` | proc.c:263-397 | So does every run |
| `ProcTable.FamilyExit` | proc.c:337-344 | exit leaves nobody with a dead parent |
| `ProcTable.FamilyStep` | proc.c:263-304 | Every other step keeps parents alive |
| `ProcTable.PidStep` | proc.c:38-65 | Pids in use are distinct and below the next one |
| `ProcTable.ReapExit` | proc.c:309-354 | An exit adds one pid that has not been returned |
| `ProcTable.ReapWait` | proc.c:358-397 | A wait returns the pid of a zombie that was not returned before |
| `ProcTable.WaitStep` | proc.c:358-397 | No step puts a process to sleep in wait past a zombie child, or makes a zombie under a sleeper |
| `ProcTable.WaitWait` | proc.c:365-394 | wait goes to sleep only when it has found no zombie |
| `ProcTable.WaitExit` | proc.c:332-352 | exit wakes the parent, and init when it inherits a zombie |
| `ProcLife.StateDiagram` | proc.c:263-770 | Every critical section moves every process along the state diagram: from each of the six states just the named steps lead on, to the named state, and all others leave it |
| `ProcLife.Identity` | proc.c:263-770 | The pid, the parent, the killed flag and the channel of a process change with the named steps only, and then as stated |
| `ProcLife.KillEffect` | proc.c:750-770 | After a kill the first process with the pid is killed and not SLEEPING, a sleeper being RUNNABLE and stamped with the tick; nobody else has changed |
| `ProcLife.WakeupEffect` | proc.c:726-745 | After a wakeup nobody sleeps on the channel, who did is RUNNABLE and stamped with the tick, and nobody else has changed |
| `ProcLife.ExitEffect` | proc.c:331-352 | After an exit the process is a zombie with the tick as its etime, its children are init's, its parent and, if it left a zombie, init do not sleep in wait, and nothing else has changed |
| `ProcLife.WaitReturns` | proc.c:358-397 | wait returns the pid of the first zombie child of its caller, if there is one; only wait and exit add to the pids returned and exited, only fork takes a pid, and only cpu 0 moves ticks |
| `ProcLife.PidsInOrder` | proc.c:39-75 | In every run the pids given out are 2, 3, 4 and so on, a process keeps that of its fork, and ticks counts the timer interrupts of cpu 0 |
| `ProcLife.QuantumIsHistory` | trap.c:50-63 | In every run the quantum of a running process is the number of timer interrupts that found it running since it was last picked |
| `ProcLife.ForkThenWait` | proc.c:263-397 | Under round robin on several processors, a running process that is not killed and has no zombie child can fork into a free slot, wait for the child, and is given its pid after the child's exit: the run is built |
| `ProcLife.RunningMay` | proc.c:263-770 | Which steps a running process can take |
| `FifoFairness.FifoBoundedWaiting` | proc.c:436-468 | Once the tick has passed the one at which a process was enqueued, every other slot is dispatched at most once before it, in every run, so at most NPROC-1 dispatches come first |
| `FifoFairness.ServedOnlyOnce` | proc.c:436-468 | No slot served since is served again before it |
| `FifoFairness.OvertakenStep` | proc.c:436-468 | Every step keeps the served processes behind the waiting one |
| `FifoFairness.StepStamps` | proc.c:654-663 | Every step that makes a process RUNNABLE stamps it with the current tick, and none else changes a stamp |
| `FifoFairness.FifoNeverIdles` | proc.c:436-468 | While such a process waits the scan finds someone |
| `Accounting.AccountingIsFairIff` | exec.c:99 | In every run, on any number of processors, no process is ever charged more ticks than it has lived if and only if every exec comes before the first charged tick and no processor but the first charges a process that has run all its life |
| `Accounting.OneProcessorIsFairIff` | exec.c:99 | On one processor that is exactly when every exec comes before the first charged tick |
| `Accounting.UnfairAfterLateExec` | exec.c:99 | A run on one processor in which exec after a charged tick makes the charge exceed the life |
| `Accounting.FairStep` | trap.c:50-62 | One step keeps charges within lifetimes exactly when it is neither such an exec nor such a charge |
| `Accounting.FairRun` | trap.c:50-62 | The same for whole runs |
| `Accounting.ChargedByClock` | trap.c:50-62 | Over one step a process is charged no more than the clock moves, and times are set only by allocproc, exec and exit |
| `Accounting.OneRunningRun` | proc.c:407-580 | On one processor at most one process runs, in every run |
| `Accounting.TimesAddUp` | proc.c:96-142 | Waiting and running time of a reaped process add up to its life exactly when its charge is fair |
| `Accounting.TimesAreHistory` | trap.c:50-63 | In every run rtime is exactly the number of timer interrupts, on any processor, that found the process running since its fork, ctime the tick of its fork or last exec, and etime that of its exit |
| `Accounting.NiceClosesTheBooks` | sysproc.c:66-85 | nice moves a process down one queue, unless it is in the lowest, and then all that it has run and lived is recorded for the queues it has left |
| `Accounting.UnfairWithTwoProcessors` | trap.c:50-62 | A run on two processors that charges a process more than the clock of processor 0 moved |
| `Accounting.QueueTimesAreFairIff` | sysproc.c:66-85 | In every run the times recorded per queue, and those left for the present queue, stay consistent if and only if every exec comes before the process has run or spent a tick in a queue it left, and no processor but the first charges it for more than its time in the queue |
| `Accounting.NiceTimesNeverExceedTotals` | sysproc.c:66-85 | Then the times nice records per queue are within the time spent there and add up to no more than the totals |
| `Accounting.QueueTimesStep` | sysproc.c:66-85 | One step keeps that exactly when it is no such exec or charge |
| `Accounting.OnlyNiceRecords` | sysproc.c:66-85 | Nothing else changes the recorded times |
| `Accounting.GuaranteedIsTableOrder` | proc.c:469-499 | With fair charges strategy 3 picks exactly the first RUNNABLE process in the table that has waited at all |
| `Accounting.GuaranteedIgnoresShares` | proc.c:469-499 | So it prefers a process that ran nearly all its life to one that never ran |
| `Malloc.Allocator.Malloc` | umalloc.c:63-90 | It returns a block of the rounded size that overlaps nothing live, keeps the list circular, ordered and fully merged, conserves units, and fails only when no free block is large enough and sbrk fails; both searches end |
| `Malloc.Allocator.Free` | umalloc.c:24-44 | The block leaves the live ones, its units become free, and the list stays circular, ordered and fully merged |
| `Malloc.Allocator.FindPlace` | umalloc.c:30-32 | The search stops at the block that the freed one belongs after, from any starting point |
| `Malloc.Allocator.MergeInto` | umalloc.c:33-43 | The two tests of free |
| `Malloc.Allocator.Search` | umalloc.c:74-89 | One round finds a block large enough with its predecessor, or has seen that there is none |
| `Malloc.Allocator.Morecore` | umalloc.c:46-61 | The new units join the free ones, and then there is a block large enough |
| `Malloc.Allocator.StartList` | umalloc.c:70-73 | The first call makes a list of the base header alone |
| `Malloc.Allocator.Unlink` | umalloc.c:76-77 | A block that fits exactly leaves the list |
| `Malloc.Allocator.CutOff` | umalloc.c:78-82 | The upper end of a larger block is handed out |
| `Malloc.FreeKeepsRing` | umalloc.c:33-43 | Linking a block in and merging both neighbours keeps the ring and adds exactly its units |
| `Malloc.InsertStep` | umalloc.c:38-39 | Linking a block in, before merging |
| `Malloc.MergeStep` | umalloc.c:33-37 | Absorbing an adjacent block keeps order, circularity and every covered unit |
| `Malloc.RemoveStep` | umalloc.c:76-77 | Taking a block out of the list removes exactly its units |
| `Malloc.CutStep` | umalloc.c:78-82 | Shrinking a block removes exactly the units cut off |
| `Malloc.GiveBack` | umalloc.c:24-44 | Freed units move from live to free, and nothing is lost |
| `Malloc.Take` | umalloc.c:63-90 | Allocated units move from free to live, overlapping no live block |
| `Malloc.Grow` | umalloc.c:46-61 | Units from sbrk are added to those owned |
| `Malloc.LargeEnoughIff` | umalloc.c:69 | The block holds the requested bytes if and only if rounding up does not wrap around in 32 bits |
| `Malloc.CoreIsAskedForIff` | umalloc.c:54 | sbrk is asked for all the units exactly when they come to less than 2 GB |
| `Pipe.BytesArriveInOrder` | pipe.c:78-121 | In every run the bytes read are a prefix of the bytes written, and the pipe holds the rest |
| `Pipe.NeverForgottenIff` | pipe.c:59-121 | In every run, kills included, at no time does a reader sleep while there is data or the write end is closed, or a writer while there is room or the read end is closed, if and only if no killed writer leaves a reader asleep on its way out |
| `Pipe.NobodyIsForgotten` | pipe.c:59-121 | So nobody is forgotten in a run without kill |
| `Pipe.ReaderSleepsOnFullPipe` | pipe.c:86-91 | A run with one kill that ends with a reader asleep on a full pipe |
| `Pipe.NoneForgottenStep` | pipe.c:86-91 | A step forgets a sleeper if and only if it is a killed writer returning without its wakeup |
| `Pipe.InOrderStep` | pipe.c:78-121 | Every step keeps the bytes in order |
| `Pipe.WritesAreWhole` | pipe.c:78-98 | In every run a call of pipewrite puts the bytes it was given into the pipe, in order and each once: what it has stored and has to go are those bytes throughout; it returns their number when all are stored, and -1 otherwise, only if the read end is closed or it was killed |
| `Pipe.ReadsAreWhole` | pipe.c:100-121 | In every run a call of piperead for n bytes takes nothing until it returns, then at most n, and returns their number: 0 for n > 0 only if the write end is closed, and -1 only if it was killed |
| `Pipe.WriteCallSection` | pipe.c:84-97 | One critical section of pipewrite, which ends in a return or asleep |
| `Pipe.ReadCallSection` | pipe.c:105-120 | One critical section of piperead: it takes the oldest bytes, fewer than n only if it empties the pipe, and sleeps only on an empty pipe with an open write end |
| `Pipe.ClosedAndKilledIff` | pipe.c:59-75 | In every run an end is open until it is closed, a process is killed from its kill on, and no killed process sleeps on the pipe |
| `Pipe.WriterCanFinish` | pipe.c:78-121 | A writer that has not been killed stores all its bytes, however many, and returns their number, if another process reads the pipe: the run is built |
| `Pipe.Ring.FullIffFull` | pipe.c:85 | The wrapping test for a full pipe is right |
| `Pipe.Ring.Put` | pipe.c:93 | A byte goes to the end of the queue, across the wrap of the counter |
| `Pipe.Ring.Get` | pipe.c:116 | The oldest byte comes out |
| `Pipe.Ring.Fill` | pipe.c:84-94 | pipewrite stores as many bytes as fit |
| `Pipe.Ring.Drain` | pipe.c:113-117 | piperead takes as many bytes as there are, up to n |
| `Pipe.SlotOf` | pipe.c:93 | Slots do not jump where the 32-bit counters wrap |
| `Grep.Match` | grep.c:72-82 | True if and only if the pattern matches the text somewhere, in the sense of a declarative definition of matching |
| `Grep.MatchHere` | grep.c:85-96 | True if and only if it matches at the beginning |
| `Grep.MatchStar` | grep.c:99-106 | True if and only if some run of the character is followed by a match of the rest |
| `Shell.ParsePrinted` | sh.c:327-446 | Parsing the printed form of any command tree gives the tree back |
| `ShellGrammar.ParsesIff` | sh.c:265-446 | For every text and every command: the text parses to the command if and only if its tokens are those of a line that stands for the command, whose arguments are its words in order and whose redirections are those written before, between and behind the words, in order; every other text is refused |
| `ShellGrammar.ParseSpelled` | sh.c:265-446 | A line parses to what it stands for however it is spelled, with any blanks, and with >> read as an output |
| `ShellGrammar.LexSpelled` | sh.c:265-308 | gettoken, called again and again, reads back the tokens that a text was made of, with whatever blanks there were between them |
| `ShellGrammar.EveryTextIsSpelled` | sh.c:265-308 | Every text without NUL is made of tokens and blanks in that way |
| `ShellGrammar.ArgsAreRead` | sh.c:431-442 | The loop of parseexec takes every word as an argument and keeps every redirection it meets |
| `ShellGrammar.ArgsAccepted` | sh.c:431-442 | It accepts words and redirections in any order |
| `ShellGrammar.LineIsRead` | sh.c:344-446 | What parseline accepts is a line with that meaning, followed by the text it leaves |
| `ShellGrammar.LineAccepted` | sh.c:344-446 | parseline accepts every line |
| `Shell.ReadExec` | sh.c:415-446 | The same for a simple or parenthesised command with what follows it |
| `Shell.ReadPipe` | sh.c:361-372 | For a pipeline |
| `Shell.ReadBack` | sh.c:344-359 | For commands in the background |
| `Shell.ReadLine` | sh.c:344-359 | For a list |
| `Shell.ReadRedirs` | sh.c:374-397 | For redirections, in their order |
| `Shell.ReadArgs` | sh.c:429-442 | For the words of a command |
| `Shell.LinePlaced` | sh.c:344-359 | Every word of a parsed line lies in the input and ends at a separator or at the end |
| `Shell.NulTerminate` | sh.c:449-493 | Afterwards every argument and file name reads as exactly the word it was parsed from |
| `Shell.Terminate` | sh.c:460-466 | One store ends one word and spoils none that was ended before |
| `Shell.Gettoken` | sh.c:265-308 | The scanner returns the kind, place and text of the next token |
| `Shell.Peek` | sh.c:310-320 | The next character that is not a blank |
| `Shell.Parseredirs` | sh.c:374-397 | The loop agrees with the grammar, and fails exactly where it does |
| `Shell.Parseargs` | sh.c:429-442 | The loop over words agrees with the grammar, the limit of ten included |
| `Shell.Parseexec` | sh.c:415-446 | Agrees with the grammar |
| `Shell.Parseblock` | sh.c:399-413 | Agrees with the grammar |
| `Shell.Parsepipe` | sh.c:361-372 | Agrees with the grammar |
| `Shell.Parseline` | sh.c:344-359 | Agrees with the grammar |
| `Shell.Parsecmd` | sh.c:327-342 | It succeeds exactly on lines of the grammar, and then the C string at the address of every word is exactly that word |
| `FileLayout.UintStored` | fs.c:371-379 | Storing one entry of an indirect block changes that entry only |
| `FileLayout.ClaimIsSafe` | fs.c:56-78 | Marking a free block used, and zeroing it, changes no file and no ownership |
| `FileLayout.AttachIsSafe` | fs.c:354-382 | A fresh block in an empty slot is owned once and changes no byte of any file |
| `FileLayout.ListIsSafe` | fs.c:366-379 | The same for an entry of an indirect block |
| `FileLayout.StoreIsSafe` | fs.c:484-490 | Storing into a data block changes the bytes of that block of that file only |
| `FileLayout.AttachFills` | fs.c:359-363 | Allocating into a direct or the indirect slot fills exactly that slot |
| `FileLayout.ListFills` | fs.c:366-379 | Allocating behind the indirect block fills exactly that entry, and takes one free block |
| `Extents.ExtendedMore` | fs.c:354-382 | Asking for a range of blocks and then for the next one is asking for both: the same slots get blocks, and the free blocks taken add up |
| `Extents.ExtendedRange` | fs.c:353-383 | Asking for a range of blocks and then for another that follows or overlaps it is asking for both at once, and takes as many free blocks |
| `Extents.FilledTwice` | fs.c:366-379 | A block behind a missing indirect block takes two free blocks |
| `Extents.NeedsNone` | fs.c:354-382 | A range needs no free block if and only if all its blocks are there |
| `Extents.LoggedMore` | fs.c:467-497 | What is logged for a range and for the next block adds up, the bitmap block of a new indirect block being logged once |
| `Extents.LoggedSize` | fs.c:467-497 | How many blocks are logged for a range: its blocks, the indirect block if a new block is listed there, and the bitmap blocks of the new blocks |
| `Extents.MapsBounds` | fs.c:56-78 | There are no more of those bitmap blocks than new blocks, nor than the bitmap has, and none exactly when no block is new |
| `Extents.OneBitmapBlock` | mkfs.c:23 | With one bitmap block it is logged if and only if a block was missing |
| `FileSystem.FileSys.Balloc` | fs.c:56-78 | The first free block, marked and zeroed; it panics exactly when the disk is full or no transaction is open |
| `FileSystem.FileSys.Bfree` | fs.c:81-96 | The bit is cleared; it panics exactly on a free block or when no transaction is open |
| `FileSystem.FileSys.Bmap` | fs.c:354-382 | The block is there afterwards, at most that slot and the indirect slot have changed, no byte of any file has, and the blocks logged are the stated ones; it panics if and only if the file cannot have the block or there are fewer free blocks than the one or two it needs, or any are needed and no transaction is open |
| `FileSystem.FileSys.Readi` | fs.c:432-463 | The clamped slice of the file's bytes, -1 on the overflow and offset guards; nothing is allocated exactly when every block read was there; it panics if and only if there are fewer free blocks than are missing, or any are and no transaction is open; and inodes that were up to date on disk stay so if and only if no slot of the inode had to be filled |
| `FileSystem.FileSys.Writei` | fs.c:467-497 | The bytes are spliced in at the offset, nothing else in any file changes, no hole appears, exactly the stated blocks are logged, and the inode reaches the disk when the file grows; it panics if and only if there are fewer free blocks than are missing or no transaction is open |
| `FileSystem.WriteInodes` | fs.c:491-496 | Inodes that were up to date on disk stay so if and only if the file grows or no slot of its inode had to be filled |
| `FileSystem.NoHolesStayUpdated` | fs.c:491-496 | So writing a file without holes always leaves its inode up to date on disk |
| `FileSystem.WriteLogs` | fs.c:467-497 | Bounds on the number of logged blocks from both sides, for any disk |
| `FileSystem.LogsCount` | fs.c:467-497 | The number of blocks that one call of writei logs: the blocks touched, the indirect block if a new block is listed there, the bitmap blocks of the new blocks, and the inode's block if the file grows |
| `FileSystem.EnoughMore` | fs.c:454-490 | Each turn of the loops finds the free blocks it needs exactly when the range up to its end does |
| `FileSystem.FileSys.WriteLoop` | fs.c:480-490 | The same for the loop, block by block |
| `FileSystem.FileSys.MapIndirect` | fs.c:365-378 | Past the direct blocks: the indirect block and then the entry are found or allocated, whichever are missing; it panics exactly when there are not free blocks enough for both |
| `FileSystem.FileSys.ReadLoop` | fs.c:454-461 | The bytes read block by block are those of the file |
| `FileSystem.FileSys.Itrunc` | fs.c:389-417 | It never meets a free block, leaves the file truncated in memory and on disk, and panics exactly when no transaction is open |
| `FileSystem.TruncateIsSafe` | fs.c:389-417 | Truncation frees exactly the blocks the file referred to, empties its slots, and keeps every other file and all ownership |
| `FileSystem.WriteFinished` | fs.c:491-496 | The stores of writei and the new size make the file its old bytes with the new ones spliced in |
| `FileSystem.WriteNoHoles` | fs.c:467-497 | A file without holes has none after a write |
| `FileSystem.FreeStep` | fs.c:394-411 | Each block is freed once |
| `FileSystem.SpliceIff` | fs.c:467-497 | The relational and the functional form of splicing agree |
| `FileCalls.RunCalls` | fs.c:354-497 | Every run of reads, writes, truncations and mappings answers as if files were byte sequences, and keeps each referenced block used and owned by one slot; if no file had a hole, none gets one, the calls other than bare mappings leave every inode up to date on disk, and the run panics only on a full disk or an impossible mapping |
| `FileCalls.RunOnImage` | mkfs.c:67-168 | The same from the disk that mkfs makes of any host files: the files have their bytes, the answers follow from them, and unless the root directory's entries fill their blocks it panics only on a full disk |
| `FileCalls.ListRoot` | file.c:96-112 | Reading the whole root directory of that disk outside of a transaction, as ls does, panics if and only if its entries fill their blocks |
| `FileCalls.ListEmptyFiles` | file.c:96-112 | With empty files mkfs always succeeds, and the list panics for exactly the numbers of files that fill the blocks, 30 for one |
| `FileCalls.ScanEntries` | fs.c:510-534 | Looking up a missing name entry by entry is reading the directory as a whole, with the same panics and the same effect on the inode in memory |
| `FileCalls.LookUpInRoot` | fs.c:510-534 | Looking up a missing name in the root of the disk that mkfs makes panics if and only if the root has a hole and the disk is full; afterwards its inode is up to date on disk if and only if it had no hole |
| `FileCalls.LookUpAmongEmptyFiles` | fs.c:510-534 | With 30 empty files the inode of the root ends up out of date on disk |
| `FileCalls.DoCall` | fs.c:354-497 | The same for one call |
| `FileCalls.ChunkFits` | file.c:127-133 | A chunk logs at most LOGSIZE blocks wherever it starts, if the file has no holes or the disk at most 14 bitmap blocks |
| `FileCalls.ReservationIsKeptIff` | log.c:132 | On a disk with one bitmap block a write logs exactly LogCount blocks, and so keeps to the MAXOPBLOCKS that begin_op reserves if and only if LogCount does |
| `FileCalls.LogCountOfDense` | log.c:132 | What LogCount comes to, from the size, the offset and the length alone, in a file of exactly the blocks that its bytes take |
| `FileCalls.File.ChunkAtEnd` | file.c:128-150 | A full chunk at the end of a file with 12 blocks or more logs 16 blocks, or 17 if it is not aligned, and panics exactly when there are not free blocks enough |
| `FileCalls.AppendChunk` | file.c:128-150 | So it does on the disk that mkfs makes of any such file |
| `FileCalls.File.Filewrite` | file.c:117-156 | All bytes go in exactly when writei would take them in one piece, and then it panics exactly when there are not free blocks enough; otherwise the chunks taken stay; the offset moves with them; each chunk is one transaction that logs exactly the blocks it takes; without holes, or with at most 14 bitmap blocks, none outgrows the log; and a file without holes keeps its inode up to date on disk |
| `FileCalls.File.Fileread` | file.c:96-112 | The bytes from the offset on, which moves by their number; nothing in the file system changes, and it panics if and only if it meets a hole |
| `FileCalls.File.WriteChunk` | file.c:135-150 | One chunk is one transaction, which logs exactly the stated blocks; it panics exactly when there are not free blocks enough, and never makes a short count |
| `FileCalls.ChunkEnough` | file.c:131-150 | There are free blocks enough for the next chunk exactly when there were for it and all before it |
| `FileCalls.WriteTwice` | file.c:128-152 | Two writes one after the other are one write of both |
| `Mkfs.MakeImage` | mkfs.c:67-168 | It succeeds if and only if there are inodes and blocks enough, counting the indirect blocks, and no file is too long; then every block of the image is owned once, the root lists the files, each file has its host file's bytes and exactly the blocks for them, and no file has a hole, except the root if and only if its entries fill their blocks |
| `Mkfs.EntriesDecode` | mkfs.c:118-150 | Read as struct dirent, low byte first, the entries of the root are itself twice, as . and .., and then each file's inode number and name |
| `Mkfs.RootLeadsToFiles` | mkfs.c:118-156 | On the disk that mkfs makes, entry m + 2 of the root directory leads by the name of file m to an inode with the bytes of that file |
| `Mkfs.Image.AddFile` | mkfs.c:130-156 | The same for one more file: the exact condition, and the blocks taken |
| `Mkfs.DenseNeeds` | mkfs.c:255-297 | Appending takes as many blocks as the file then has more, the indirect block included |
| `Mkfs.Image.Iappend` | mkfs.c:255-297 | The bytes are appended and no other file changes; it fails if and only if the file would be too long or the image too small, and takes exactly the blocks needed |
| `Mkfs.Image.FixRoot` | mkfs.c:158-163 | Rounding the root's size up leaves a hole exactly when the entries fill their last block |
| `Mkfs.RootHole` | mkfs.c:158-163 | The value form of that |
| `Mkfs.Image.Ialloc` | mkfs.c:223-235 | The next inode, with no bytes |
| `Mkfs.Image.MapNext` | mkfs.c:267-283 | The block for the append is found or taken from the dense prefix, if and only if there are blocks enough |
| `Mkfs.WriteBitmap` | mkfs.c:237-251 | The bitmap marks exactly the blocks handed out |
| `Mkfs.Appended` | mkfs.c:255-297 | Storing behind the last byte and setting the size appends |
| `Links.StepIff` | sysfile.c:117-283 | A call keeps all link counts right if and only if it does not enter a name into a removed directory |
| `Links.LinksAreCountedIff` | sysfile.c:117-283 | In a run from an image of mkfs all link counts are right in every state if and only if no call enters a name into a removed directory |
| `Links.LinksAreCounted` | sysfile.c:117-283 | Then each inode's nlink is the number of entries other than "." naming it in live directories, plus the link calls under way |
| `Links.NoNamedInodeIsFree` | fs.c:319-334 | In those runs every entry of a live directory leads to an allocated inode |
| `Links.CountsGoWrong` | sysfile.c:240-283 | From any state with right counts, and room for a directory and a file, mkdir, chdir into the directory, rmdir and creating a file in it make a count wrong |
| `Links.CountsGoWrongOnImage` | sysfile.c:240-283 | So they do on every image of mkfs with two inodes and a root entry to spare |
| `Links.InvInit` | mkfs.c:110-155 | The image of mkfs has right counts |
| `Links.UnlinkNeverPanics` | sysfile.c:204-213 | An entry that unlink finds names an inode with at least one link, in a live directory |
| `Links.EmptyHasOneName` | sysfile.c:167-180 | An empty directory has exactly one link, in the directory it calls its parent |
| `Links.UnlinkDir` | sysfile.c:214-228 | Removing an empty directory keeps all counts right |
| `Links.UnlinkFile` | sysfile.c:214-228 | Unlinking a file keeps all counts right |
| `Links.CreateInLive` | sysfile.c:256-282 | Creating a file, device or directory in a live directory keeps all counts right |
| `Links.CreateInRemoved` | sysfile.c:256-282 | In a removed directory it never does |
| `Links.LinkIntoLive` | sysfile.c:142-148 | Entering the new name in a live directory keeps all counts right |
| `Links.LinkIntoRemoved` | sysfile.c:142-148 | In a removed directory it never does |
| `Links.QuietStep` | fs.c:319-334 | Taking and dropping references, and raising or taking back a count, keep all counts right; the last reference to an unlinked inode frees it |
| `Links.Inodes.Dirlookup` | fs.c:510-534 | The first used entry with the name, if any |
| `Links.Inodes.Dirlink` | fs.c:537-564 | A new name goes to the first unused entry or the end; a taken one is refused; it panics exactly when the directory is full |
| `Links.Inodes.Isdirempty` | sysfile.c:167-180 | True exactly when nothing but the first two entries is used |
| `Links.Inodes.Ialloc` | fs.c:185-203 | The first free inode, if any |
| `Links.Inodes.SysLink` | sysfile.c:117-164 | The call is the begin, end or fail, and drop steps in a row, and returns 0 exactly when the name is entered |
| `Links.Inodes.SysUnlink` | sysfile.c:183-238 | The call is the unlink step, and returns 0 exactly when the name stood for a file or an empty directory |
| `Links.Inodes.Create` | sysfile.c:240-283 | It is the create step, with the exact panics; it returns 0 exactly when the name is taken and not by a file while a file is asked for, and then nothing changes; otherwise the inode it returns is the one the directory now has by that name, of the kind asked for, with one reference more |
| `Links.CreateEnters` | sysfile.c:258-282 | After create of a new name the directory calls the new inode by it, every other name of every other directory leads where it did, the inode has the kind asked for, one link and one reference, and a new directory knows itself and its parent |
| `Links.LinkEnters` | sysfile.c:143-149 | After link the directory calls the inode by the new name, and every other name leads where it did |
| `Links.LinkEffect` | sysfile.c:117-168 | All of link: the inode has the new name and one link more, and its reference is given back |
| `Links.UnlinkForgets` | sysfile.c:184-236 | After unlink the directory has no entry of that name, every other name leads where it did, and the inode has one link less, or is free if that was its last and nobody refers to it |
| `Links.NamesStayUnique` | fs.c:537-565 | In every run, also with names in removed directories, no directory has two entries of one name |
| `Links.RefsRun` | fs.c:225-345 | Over every run that enters no name into a removed directory, the references to an inode are those taken less those given back, and it is free exactly when it has neither references nor links |
| `Vm.Memory.Copyuvm` | vm.c:316-344 | It panics if and only if some page below the size is not there and there are frames enough to come to the first such page; otherwise it succeeds exactly when there are 65 + n + ceil(n/1024) free frames; then the child has its own frames with the parent's bytes and flags at each of the n pages, the kernel half, and nothing else, and the parent is unchanged; when it fails it loses frames exactly in the stated cases |
| `Vm.LeaksIff` | vm.c:328-340 | A failed copy loses a frame exactly when the free frames ran out at a page table: 66 + 1025 j of them |
| `Vm.Memory.CopyAndFree` | vm.c:316-344 | Freeing a copy leaves exactly the free frames there were |
| `Vm.Memory.Freevm` | vm.c:284-299 | Every frame of the address space, page tables and directory included, goes back, and no other frame changes |
| `Vm.Memory.Deallocuvm` | vm.c:256-280 | Exactly the mapped pages that the scan visits are freed |
| `Vm.ScanIsComplete` | vm.c:264-268 | The scan visits every mapped page of the range if it starts at the first page of a page table or at a page that has one |
| `Vm.ScanMisses` | vm.c:264-268 | From any other page it misses the first page of the next table, since it skips 1024 pages from where it is |
| `Vm.ScanOfContiguous` | vm.c:256-280 | In a space whose user pages are those below some n the scan visits every mapped user page wherever it starts |
| `Vm.Memory.Shrink` | proc.c:251-254 | So when a process whose pages are those below its size shrinks, exactly the pages from the new size on are gone |
| `Vm.Memory.Growproc` | proc.c:240-258 | It returns 0 exactly in the stated cases, and afterwards the pages of the process are those below its size if and only if it did not give all its memory back: growproc takes the size 0 for a failure |
| `Vm.Memory.CopyProcess` | proc.c:264-280 | fork of a process whose pages are those below its size never panics, and the child is such a process |
| `Vm.Memory.ShrinkAndFork` | proc.c:264-280 | A process that gives all its memory back and forks panics if and only if there are frames for the kernel half of the child |
| `Vm.NewIsContiguous` | vm.c:127-143 | A new address space has no user pages |
| `Vm.Memory.Allocuvm` | vm.c:222-250 | It succeeds if and only if there are as many free frames as the new pages and the page tables they need; then all new pages are there and zero, and otherwise the address space has the pages it had and no frame is lost |
| `Vm.Memory.Setupkvm` | vm.c:127-143 | A new directory with exactly the kernel mappings and 65 frames; with fewer free frames it fails, and keeps what it took |
| `Vm.Memory.Mappages` | vm.c:69-89 | A run of pages, in the user or the kernel half, is mapped to the run of frames, taking the page tables it needs; it fails only when the free list is empty |
| `Vm.Memory.MapPage` | vm.c:69-89 | One page; the remap panic comes exactly on a mapped page |
| `Vm.Memory.Walkpgdir` | vm.c:44-64 | The page table is found, or taken from the free list and zeroed |
| `Vm.Memory.Kalloc` | kalloc.c:82-95 | The head of the list leaves it, or the list was empty |
| `Vm.Memory.Kfree` | kalloc.c:59-77 | The frame is filled with junk and heads the list; it panics exactly outside its range |
| `Vm.AddTable` | vm.c:44-64 | A frame nobody uses becomes a page table, and every frame keeps one use |
| `Vm.AddPte` | vm.c:69-89 | A new entry keeps every frame at one use |
| `Vm.RemovePte` | vm.c:269-277 | Clearing an entry gives back its frame and no other |
| `Vm.KernelKeys` | vm.c:108-124 | The kernel mappings do not overlap and stay above the user half |

## Left out

- Boot code, drivers, the trap and system-call plumbing, and the user programs other than grep and the shell's parser: left out, since they talk to devices and registers, or only pass arguments on to the code that is modelled.
- Spinlocks: a critical section is one step of a state machine; the spinlock implementation itself is not modelled.
- The console, and device files (T_DEV read and write paths): not modelled.
- Path names: skipelem and namex are not modelled; Links takes the inodes that a path leads to, and names as already cut to DIRSIZ.
- The inode cache: reference counts are in Links, the cache entries and their locks are not modelled.
- runcmd and the fork tree of the shell, and the line reading of grep: not modelled.
- exec, apart from its effect on ctime, and loaduvm, inituvm, clearpteu and copyout: not modelled.
- Wrap-around of ticks, pids, reference counts, file offsets beyond the guards and the 16-bit nlink: numbers are unbounded there.
- Bit packing: the block bitmap is a sequence of booleans, page-table entries are records, and frames are either bytes or tables.
- struct proc field GRT and the debugging output of the scheduler: not modelled.
- Accounting.NiceTimesNeverExceedTotals: asks for the condition of QueueTimesAreFairIff, and is not claimed to need all of it.
- FifoFairness.FifoBoundedWaiting: speaks of runs without wrap-around of ticks.
- Accounting.TimesAddUp: states the 32-bit difference of wait22, not its later truncation to a char.
- BufferCache.Bcache.LockAndRead: is called when the sleep lock is free; waiting for it is what SleepLock models.
- Malloc.Allocator.Malloc: the single loop of malloc appears as rounds of Search, and sbrk's answer is a parameter that, as sbrk does, gives memory not owned yet.
- Malloc.Allocator.Morecore: asks that sbrk, when it succeeds, gives the units that are used, which is what it is asked for exactly when they come to less than 2 GB (CoreIsAskedForIff); above that the behaviour of malloc is not modelled.
- FileCalls.ReservationIsKeptIff: is stated for disks with one bitmap block, as mkfs makes them; for others LogsCount has the number of bitmap blocks, which depends on where the free blocks are.
- LogOps.BudgetIsHonestIff: is stated for two processes or more.
- LogOps.AppendsStayInBoundsIff: is stated for a log area of more than LOGSIZE blocks; in a smaller one the size test comes earlier.
- Malloc.Allocator.Free: asks for a pointer that malloc returned and that was not freed since, as the C library does.
- Pipe.BytesArriveInOrder: pipe ends are opened once at the start; file descriptors are not modelled.
- ProcLife.ForkThenWait: is stated for strategy 1 on several processors, where every RUNNABLE process may be picked.
- ProcLife.QuantumIsHistory: when trap.c makes a process yield is not modelled; a running process may yield at any time.
- Links.UnlinkForgets: asks that no directory has two entries of one name, which NamesStayUnique shows of every run.
- Shell.Parseredirs: collects the redirections and wraps them around the command afterwards; that parseexec goes on changing the argument list of a command already wrapped is not captured.
- Shell.ParsePrinted: puts redirections behind the words; ShellGrammar.ParseSpelled has them anywhere, and >> among them.
- FileSystem.FileSys.Writei: what is in memory after a panic is not stated.
- FileCalls.RunCalls: calls follow one another; processes working on one file at once are kept apart by the sleep lock of its inode, which is not part of this model.
- Mkfs.MakeImage: the super block and the bytes of the inode and bitmap blocks are not laid out, host files are read in full blocks, and running past the end of the image is a failure although mkfs does not check it.
- Links.LinksAreCounted: every call is one step but link, which is two; crashes, which forget references, are not part of this model.
- Vm.Memory.Copyuvm: asks for a size of at most KERNBASE, which allocuvm keeps, and for the frames to lie below PHYSTOP.
- Mkfs.Image.Ialloc: the type and the link count of the new inode are not modelled there; Links has them for the image as a whole.
