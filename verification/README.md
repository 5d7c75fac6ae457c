# TensorOS kernel, verified model

TensorOS is a bare-metal kernel written in C. This project models its stateful core in Dafny and
proves what that core is meant to keep. It verifies with `dafny verify dfyconfig.toml`.

| part of the kernel | values and theorems | code |
|---|---|---|
| red-black ready queue | RbTree, RbLinks, RbFixup, RbSplice, RunOrder | ReadyQueue |
| processes and scheduling | ProcessModel, SchedulerModel, SchedulerSafety, SchedulerLaws, SchedulerRuns, Fairness | ProcessCore, Scheduler |
| semaphore, mutex, mailbox | SyncModel, SyncObjects, SyncLaws, SyncKills | Sync |
| allocator | KmemModel, KmemLaws | Kmem |
| in-memory file system | FsModel, FsTree, FsSound, FsChange, FsRuns, FsValidate, FsLaws | FileSystem |
| file-system image | FsHash, FsImage, FsImageBytes, FsImageTrips, FsImageLayout, FsImageIntegrity, FsImageCases | FsImageCode, FsImageCheck |
| handle table | Handles, HandleRuns, HandleLaws | HandleTable |

Each part has two layers. The code layer has the C functions as methods over arrays and fields that
change in place; each method is proved to leave exactly the state that a function of the value layer
gives for the old state. The value layer states the promises and proves them, for every input, every
reachable state or every run. The table sizes (processes, nodes, open files, handles, sessions, arena)
are parameters; the name and file capacities and the sixteen nodes of an image are the C constants.

The promises are stated twice over. Invariants and theorems say what all runs keep. The modules named
Laws, and FsImageLayout, say what each operation answers and which fields it changes to what, in plain
fields, bytes and numbers or by the history of the calls, without the functions that the methods are
proved against: who is charged how much, who holds the mutex, where a seek goes, who may close a handle,
which bytes an image has.

The queue is the hardest part. A path with a hole and the subtree in the hole describe a tree at the
node where a loop stands (RbTree); RbLinks says when the parent, left, right and colour arrays hold
such a pair. A rotation or transplant changes the pair locally, and the fixup loops of ReadyQueue carry
one pair from turn to turn, with the colour and height debts of RbFixup.

Over the whole system the invariants are: the queue is the READY set, except that a process that picked
itself stays queued, as the first, until the next sync; the node table is a tree in which each node has
exactly one path; the blocks tile the arena and the counters are sums over them; a slot is open exactly
while a handle names it.

## Where the code falls short of the obvious claim

- `process_exit` wakes its waiting parent without syncing the queue. If no timer tick comes before the
  next pick, the kernel panics although the parent is READY. A process that picked itself and then exits
  also panics. `ExitPanicsExactly` gives the exact condition before the call, `ExitStrandsParent` a run.
- A timer interrupt between the pick and the count of the sleepers can wake the last sleeper; the kernel
  then panics with that process READY. `LateTicksPanicExactly` says exactly when, `LateTickStrandsSleeper`
  is a run.
- A process that blocks is not charged any virtual runtime, so the waiting bound is about yields only
  (`BlockingIsFree`). It also needs a synced queue: a process that picked itself picks itself again at every
  yield until a tick comes, uncharged, and starves the others (`SelfPickStarves`, `SleeperStarvesChild`).
- A process that sleeps and then resumes itself, because nobody else was picked in between, keeps its old
  start, so its next yield charges it for the time asleep (`SleepIsCharged`, a run for every length of sleep).
- Killing a process inside a wait, or blocking it by hand, leaves the counter of waiters too high and can
  lose a wake-up; `RemovalLosesWakeup` says exactly when, `KillLosesWakeup` is a run.
- A service request whose provider is gone or replaced ends all sessions of that provider, while their
  handles stay. Such a stale handle cannot be closed or released, and once the session is in use again,
  closing it ends another process's session. `RequestBreaks` and `CloseClosesLastAlias` say exactly when,
  `StaleHandleEndsAnotherSession` is a run. The files' half of the agreement holds all the same.
- A path of two or more slashes leads to the root but is not recognised as the root: `remove` can clear
  the root and `rename` can hang it below itself. `RemoveDeletesOnePath` and `RenameMovesSubtree` say
  exactly when; `DoubleSlashRemovesRoot` and `DoubleSlashRenamesRoot` are instances.
- A failing `open` may already have created or emptied the file; `FailedOpenLeavesTrace` says exactly
  when, `FailedOpenLeavesFile` and `FailedOpenEmptiesFile` are instances.
- A request above 2^32 - 8 bytes wraps in the allocator's rounding and may be granted an empty payload
  (`GrantedPayloadCovers`, `WrappedRequestIsGrantedNothing`).
- Freeing a pointer again after its block has been merged away does nothing only until somebody writes
  there; then it takes the counters down (`StrayFreeBreaksBooks`).
- The image validator accepts names without a terminating NUL, which the importer then cuts to fifteen
  characters; `ImportsExactly` says when that makes siblings collide, and `AcceptedImageIsRefused` is an
  image on which it happens. It also accepts names with slashes, which no path can spell
  (`AcceptedImageImports`, and the image of `AcceptedImageHidesNode`).

## Model

| member | source | states |
|---|---|---|
| RbTree.HeightLogarithmic | kernel/scheduler.c:203-280 | the height of a red-black tree is at most 2 log2(n + 1), for the shape that insertion and removal keep |
| RbTree.LeftmostPlug | kernel/scheduler.c:128-141 | going left from the root of any tree in any place ends at the first key of its order |
| RbLinks.RotateLeftHolds | kernel/scheduler.c:159-179 | a left rotation at any node of linked arrays yields the arrays of the rotated tree; everything outside keeps its links |
| RbLinks.RotateRightHolds | kernel/scheduler.c:181-201 | the mirror image of the left rotation |
| RbLinks.TransplantHolds | kernel/scheduler.c:289-303 | replacing one subtree by another, possibly empty, yields the arrays of the tree with the subtree exchanged |
| RbFixup.InsertRecolor | kernel/scheduler.c:241-245 | the red-uncle case moves the one red-red violation two levels up and keeps order and black heights |
| RbFixup.InsertZigzag | kernel/scheduler.c:247-252 | the inner case turns into the outer one without changing order or heights |
| RbFixup.InsertRotate | kernel/scheduler.c:253-255 | the outer case ends the fixup: order, heights and colours are right again |
| RbFixup.DeleteRedSibling | kernel/scheduler.c:315-320 | the red-sibling case hands the missing black node one level down under a red parent |
| RbFixup.DeleteRecolor | kernel/scheduler.c:322-331 | two black nephews: the missing black node moves up or is absorbed by a red parent |
| RbFixup.DeleteNearRed | kernel/scheduler.c:333-341 | a red near nephew becomes a red far nephew |
| RbFixup.DeleteFarRed | kernel/scheduler.c:343-350 | a red far nephew ends the fixup with equal black heights everywhere |
| RbSplice.SuccessorTakesPlace | kernel/scheduler.c:419-440 | the in-order successor takes the place, colour and children of the removed node, adjacent or deeper, and the keys keep their order |
| RunOrder.InsertKeepsOrder | kernel/scheduler.c:213-232 | putting a slot between its neighbours keeps a list of slots in run order |
| ReadyQueues.LeftmostRunsFirst | kernel/scheduler.c:128-157 | the leftmost key of an ordered tree is the first of its members |
| ReadyQueues.ReadyQueue.RotateLeft | kernel/scheduler.c:159-179 | the array writes of the left rotation have exactly its effect on the linked arrays |
| ReadyQueues.ReadyQueue.RotateRight | kernel/scheduler.c:181-201 | the array writes of the right rotation have exactly its effect |
| ReadyQueues.ReadyQueue.Transplant | kernel/scheduler.c:289-303 | the array writes of the transplant have exactly its effect |
| ReadyQueues.ReadyQueue.Link | kernel/scheduler.c:222-232 | hanging the new red node there adds exactly that index to the tree |
| ReadyQueues.ReadyQueue.InsertFixup | kernel/scheduler.c:234-278 | from one red-red violation to a red-black tree of the same order, with a terminating loop |
| ReadyQueues.ReadyQueue.Insert | kernel/scheduler.c:203-280 | a valid queue stays valid and gains exactly the inserted index; an index already queued changes nothing |
| ReadyQueues.ReadyQueue.Minimum | kernel/scheduler.c:282-287 | the leftmost node of the given subtree |
| ReadyQueues.ReadyQueue.Splice | kernel/scheduler.c:410-440 | the removed index leaves the tree and every other index keeps its place in the order |
| ReadyQueues.ReadyQueue.RemoveFixup | kernel/scheduler.c:305-398 | from a subtree that lacks one black node to a red-black tree of the same order, with a terminating loop |
| ReadyQueues.ReadyQueue.Remove | kernel/scheduler.c:400-453 | a valid queue stays valid and loses exactly the removed index; an index not queued changes nothing |
| ReadyQueues.ReadyQueue.RecomputeLeftmost | kernel/scheduler.c:128-141 | the cached leftmost is the first member in run order, or none |
| ReadyQueues.ReadyQueue.VruntimeBefore | kernel/scheduler.c:143-157 | the comparison decides the run order |
| ProcessCore.WakeFirstFindsAWaiter | kernel/process_core.c:193-212 | the round-robin scan from the current slot finds a waiter on the channel whenever there is one, and only such a process |
| ProcessCore.RoundVisitsAll | kernel/process_core.c:193-203 | the scan visits every slot once |
| ProcessCore.FindFreeSlotIn | kernel/process_core.c:5-13 | the first unused slot, or none |
| ProcessCore.FindIndexByPidIn | kernel/process_core.c:15-28 | the first used slot with the pid; pid 0 is never found |
| ProcessCore.FindWaitableChildIn | kernel/process_core.c:98-120 | the first zombie child that matches the target |
| ProcessCore.HasChildIn | kernel/process_core.c:122-139 | whether some matching child exists |
| ProcessCore.CountBlockedSleepers | kernel/process_core.c:44-56 | a count that is 0 iff no process sleeps |
| ProcessCore.MakeReady | kernel/process_core.c:73-81 | one process is READY with its wait cleared, the others as before |
| ProcessCore.WakeWaitingParent | kernel/process_core.c:141-159 | exactly the processes blocked in a wait for this pid, or for any child whoever's it is, are READY |
| ProcessCore.WakeSleepers | kernel/process_core.c:161-175 | exactly the sleepers whose tick has come are READY |
| ProcessCore.WakeChannel | kernel/process_core.c:177-191 | exactly the waiters on the channel are READY |
| ProcessCore.WakeFirstChannel | kernel/process_core.c:193-212 | exactly the first waiter after the current slot is READY |
| Scheduler.Kernel.constructor | kernel/scheduler.c:511-523 | an empty table: no process, empty queue |
| Scheduler.Kernel.SyncReadyQueue | kernel/scheduler.c:497-505 | the queue is exactly the READY set; no key of a queued slot moves |
| Scheduler.Kernel.PickNextReady | kernel/scheduler.c:507-509 | the first READY slot in run order, by the cached leftmost |
| Scheduler.Kernel.MinVruntimeRead | kernel/scheduler.c:455-473 | the least virtual runtime of READY and RUNNING processes |
| Scheduler.Kernel.AccountRuntime | kernel/scheduler.c:475-495 | the charge of the specification, which `SchedulerLaws.YieldCharges` and `SchedulerRuns.YieldChargesSinceTakeover` pin down, and none for a process that is not RUNNING |
| Scheduler.Kernel.ProcessTick | kernel/scheduler.c:908-916 | overdue sleepers wake and the queue is synced |
| Scheduler.Kernel.SwitchProcess | kernel/scheduler.c:599-614 | the outgoing process is charged and, if still RUNNING, READY again; the incoming one is RUNNING |
| Scheduler.Kernel.ProcessYield | kernel/scheduler.c:918-1071 | the step of the state machine: continue, switch, wait for an interrupt, or panic |
| Scheduler.Kernel.IdleWakeUp | kernel/scheduler.c:963-973 | one round of the wait loop: sync, pick, go on when there is something to run |
| Scheduler.Kernel.SchedulerRun | kernel/scheduler.c:1073-1081 | the first process is started, or there is none and the kernel panics |
| Scheduler.Kernel.ProcessSpawnWithRole | kernel/scheduler.c:650-685 | a free slot becomes a READY child with a new pid and the least virtual runtime, or nothing changes |
| Scheduler.Kernel.ProcessExit | kernel/scheduler.c:691-705 | the current process is a ZOMBIE, its waiting parent is READY but not queued, and another process is picked or the kernel panics |
| Scheduler.Kernel.ProcessKill | kernel/scheduler.c:707-733 | the named process is a ZOMBIE and the queue is synced; killing oneself is exiting |
| Scheduler.Kernel.ProcessReap | kernel/scheduler.c:735-752 | a named zombie is collected with its exit code |
| Scheduler.Kernel.ProcessWaitRound | kernel/scheduler.c:754-787 | one round of waitpid: collect a matching zombie, fail without a matching child, or block |
| Scheduler.Kernel.ProcessSleep | kernel/scheduler.c:793-813 | block until the tick comes; 0 ticks is a yield |
| Scheduler.Kernel.ProcessBlock | kernel/scheduler.c:815-840 | a READY or RUNNING process is blocked until woken |
| Scheduler.Kernel.ProcessWake | kernel/scheduler.c:842-854 | a BLOCKED process is READY |
| Scheduler.Kernel.ProcessWaitChannel | kernel/scheduler.c:856-867 | block on the channel and give way |
| Scheduler.Kernel.ProcessWakeChannel | kernel/scheduler.c:869-876 | all waiters on the channel are READY and queued |
| Scheduler.Kernel.ProcessWakeFirstChannel | kernel/scheduler.c:878-885 | the first waiter on the channel is READY and queued |
| SchedulerModel.PickIsFirst | kernel/scheduler.c:507-509 | the pick is the unique first of the queued slots |
| SchedulerSafety.StepKeepsInv | kernel/scheduler.c:650-1071 | every operation keeps the invariant: table, histories, waits, sleepers, one RUNNING process, queue |
| SchedulerSafety.AllRunsSafe | kernel/scheduler.c:497-1071 | over all runs from the empty table: only the current process runs, who waits for a child has a live one and no dead one, no sleeper is overdue, and every slot but the current one is queued iff READY |
| SchedulerSafety.StepKeepsHistory | kernel/scheduler.c:650-787 | what was spawned, exited and collected stays recorded |
| SchedulerSafety.SpawnedPidIsFresh | kernel/scheduler.c:650-685 | a new pid was never handed out before; spawn fails exactly without entry, slot or pid |
| SchedulerSafety.CollectedOnce | kernel/scheduler.c:735-787 | a zombie is collected once, with the exit code it was given, and its pid is gone |
| SchedulerSafety.CountKeepsYielding | kernel/scheduler.c:941-947 | between the tick and the pick the queue is in order |
| SchedulerSafety.PickedWhileRunning | kernel/scheduler.c:475-495 | a RUNNING process that is not picked is not queued, so charging it moves no key in the queue |
| SchedulerSafety.ExitPanicsExactly | kernel/scheduler.c:691-705 | seen from before the call, process_exit ends in a panic iff: without a tick, the process is itself queued, or nobody is and nobody sleeps; with ticks, nobody is READY, sleeps or waits for this process |
| SchedulerSafety.ExitStrandsParent | kernel/scheduler.c:691-705 | a concrete run in which the kernel panics although the woken parent is READY |
| SchedulerSafety.LateTicksPanicExactly | kernel/scheduler.c:947-979 | ticks between the pick and the count of the sleepers end in a panic iff they wake every sleeper, and then a woken process is READY |
| SchedulerSafety.LateTickStrandsSleeper | kernel/scheduler.c:947-979 | a concrete run: the only process sleeps for one tick, the tick comes after the pick, and the kernel panics with that process READY |
| Fairness.BoundedWaiting | kernel/scheduler.c:475-509 | with only yields, a READY process runs within the sum over the others of max(0, v + 1 - their virtual runtime), plus one |
| Fairness.YieldLowersBound | kernel/scheduler.c:599-614 | every yield that does not pick the process lowers the bound |
| Fairness.BlockingIsFree | kernel/scheduler.c:475-485 | a process that gives way by blocking is not charged |
| Fairness.SelfPickKeepsCpu | kernel/scheduler.c:941-985 | a process that picked itself and yields without a tick picks itself again, uncharged |
| Fairness.SelfPickStarves | kernel/scheduler.c:941-985 | over any number of such yields it keeps the processor, all virtual runtimes stay, and the others wait |
| Fairness.SleeperStarvesChild | kernel/scheduler.c:793-813 | a concrete run: a parent sleeps for one tick, picks itself, and its READY child never runs while it yields between ticks |
| SyncModel.StepIsCalm | kernel/scheduler.c:650-1071 | an operation changes other processes only by waking or ending them |
| SyncModel.OthersKeepQueue | kernel/wait_queue.c:40-66 | what other processes do keeps the waiter count and puts nobody to sleep in the queue |
| SyncObjects.NotifyWakesOne | kernel/wait_queue.c:52-58 | a notification moves exactly one sleeper to the woken, if there is one |
| SyncObjects.SemaphoreLosesNoWakeup | kernel/semaphore.c:52-81 | over all runs from the creation on: with a blocked waiter, the woken waiters are at least as many as the units, and the waiter count is exact |
| SyncObjects.MutexLosesNoWakeup | kernel/mutex.c:45-88 | over all runs from the creation on: a free mutex with a blocked waiter has a woken one, and the waiter count is exact |
| SyncObjects.MailboxLosesNothing | kernel/mailbox.c:58-108 | over all runs from the creation on: no wake-up is lost on either side, and the messages received are a prefix of those sent, all but at most the last |
| SyncKills.RemovalMiscounts | kernel/wait_queue.c:40-50 | killing a process inside a wait, or blocking it by hand, leaves the counter of waiters one above those who can come back; nobody else is touched |
| SyncKills.RemovalLosesWakeup | kernel/semaphore.c:61-81 | it loses a wake-up iff the process had been woken, somebody is asleep, and no more processes were on their way than there are units |
| SyncKills.KillLosesWakeup | kernel/semaphore.c:61-81 | a concrete run from the creation of a semaphore: a woken waiter is killed, and the other one sleeps on beside a free unit |
| Sync.WaitObjects.CreateQueue | kernel/wait_queue.c:17-28 | an empty queue on the next channel, or none without memory and then no channel used up |
| Sync.WaitObjects.CreateSemaphore | kernel/semaphore.c:17-38 | none for illegal counts or without memory; else a semaphore in order, with nobody in its queue |
| Sync.WaitObjects.CreateMutex | kernel/mutex.c:15-31 | a free mutex in order, or none without memory |
| Sync.WaitObjects.CreateMailbox | kernel/mailbox.c:18-42 | an empty mailbox in order, with two queues, or none without memory; a channel is used up when only the second queue fails |
| Sync.WaitQueue.BeginWait | kernel/wait_queue.c:40-50 | the caller is counted and blocked on the channel; the state is that of the step |
| Sync.WaitQueue.EndWait | kernel/wait_queue.c:40-50 | the resumed caller is no longer counted; the state is that of the step |
| Sync.WaitQueue.WakeOne | kernel/wait_queue.c:52-58 | the first waiter is woken, and counted; the state is that of the step |
| Sync.WaitQueue.WakeAll | kernel/wait_queue.c:60-66 | all waiters are woken, and counted; the state is that of the step |
| Sync.Semaphore.TryAcquire | kernel/semaphore.c:52-59 | takes a unit or fails; the state is that of the step |
| Sync.Semaphore.Acquire | kernel/semaphore.c:61-69 | takes a unit or waits; the state is that of the step |
| Sync.Semaphore.AcquireAgain | kernel/semaphore.c:61-69 | the retry after a wake-up; the state is that of the step |
| Sync.Semaphore.Release | kernel/semaphore.c:71-81 | adds a unit and wakes one waiter, unless full; the state is that of the step |
| Sync.KernelMutex.TryLock | kernel/mutex.c:45-59 | takes a free mutex for the caller (`SyncLaws.OwnerIsHolder`); the state is that of the step |
| Sync.KernelMutex.Lock | kernel/mutex.c:61-69 | takes it or waits; the state is that of the step |
| Sync.KernelMutex.LockAgain | kernel/mutex.c:61-69 | the retry after a wake-up; the state is that of the step |
| Sync.KernelMutex.Unlock | kernel/mutex.c:71-88 | only the owner frees it, and wakes one waiter; the state is that of the step |
| Sync.KernelMailbox.TrySend | kernel/mailbox.c:58-69 | fills an empty mailbox and wakes a receiver; the state is that of the step |
| Sync.KernelMailbox.Send | kernel/mailbox.c:71-79 | sends or waits; the state is that of the step |
| Sync.KernelMailbox.SendAgain | kernel/mailbox.c:71-79 | the retry after a wake-up; the state is that of the step |
| Sync.KernelMailbox.TryReceive | kernel/mailbox.c:81-94 | empties a full mailbox and wakes a sender; the state is that of the step |
| Sync.KernelMailbox.Receive | kernel/mailbox.c:96-108 | receives or waits; the state is that of the step |
| Sync.KernelMailbox.ReceiveAgain | kernel/mailbox.c:96-108 | the retry after a wake-up; the state is that of the step |
| KmemModel.AlignUpCovers | kernel/kmem.c:29-31 | rounding covers the request exactly when its sum does not wrap |
| KmemModel.LivePayloadsAreDisjoint | kernel/kmem.c:69-132 | two live payloads never overlap, nor does one overlap the header of another |
| KmemModel.BytesAddUp | kernel/kmem.c:193-227 | used, free and header bytes add up to the arena |
| KmemModel.AllocationAddsOnePayload | kernel/kmem.c:69-100 | refused iff empty or no free block fits, then nothing changes; otherwise exactly one payload more, no other moved, and the blocks tile the arena without free neighbours |
| KmemModel.GrantedPayloadCovers | kernel/kmem.c:29-100 | a granted payload is as large as the request iff the rounding did not wrap |
| KmemModel.WrappedRequestIsGrantedNothing | kernel/kmem.c:29-100 | a request near 2^32 is granted a payload of no bytes |
| KmemModel.CoalescingKeepsPayloads | kernel/kmem.c:102-109 | merging leaves no two free neighbours and keeps span, payloads and sums |
| KmemModel.FreeingRemovesOnePayload | kernel/kmem.c:111-132 | freeing removes exactly that payload; freeing a free block does nothing |
| KmemModel.EmptyArenaIsWhole | kernel/kmem.c:102-132 | with nothing live the arena is one free block |
| KmemModel.EveryRunKeepsBooks | kernel/kmem.c:69-132 | over all runs: the tiling, the statistics equal to the sums over used blocks, no clamp reached, all freed means one block |
| Kmem.Allocator.Init | kernel/kmem.c:33-50 | a fresh arena once; later calls change nothing |
| Kmem.Allocator.SplitBlock | kernel/kmem.c:52-67 | the block is divided only if the rest exceeds a header and 8 bytes |
| Kmem.Allocator.Grant | kernel/kmem.c:83-94 | the found block is claimed and the counters follow |
| Kmem.Allocator.Alloc | kernel/kmem.c:69-100 | the first fit is carved, with the payload and statistics of the specification |
| Kmem.Allocator.Coalesce | kernel/kmem.c:102-109 | the linked headers become those of the merged list |
| Kmem.Allocator.Free | kernel/kmem.c:111-132 | a block is freed, counted and merged; a pointer that merging has overtaken does nothing as long as nobody has written there, else the counters are taken down and the books broken |
| Kmem.Allocator.Snapshot | kernel/kmem.c:193-227 | the figures are those of the block list; nothing changes |
| Kmem.SnapshotPredictsAllocation | kernel/kmem.c:193-227 | an allocation that does not wrap succeeds iff its rounded size is at most the reported largest free block; the byte figures add up to the arena |
| KmemModel.StrayFreeBreaksBooks | kernel/kmem.c:111-132 | a free at bytes that read as a used header but belong to no block returns no block and always makes the statistics wrong |
| FsModel.TokensArePlain | kernel/runtime_fs.c:98-121 | every name of a path is nonempty, without slashes and short enough |
| FsModel.TokenizeUndoesPathOf | kernel/runtime_fs.c:98-121 | every sequence of such names is spelled by some path |
| FsTree.PathIsUnique | kernel/runtime_fs.c:123-192 | no two paths lead to the same node |
| FsTree.PlaceOfOk | kernel/runtime_fs.c:338-381 | a parent that is found is the directory that all names but the last lead to |
| FsTree.PlaceOfIs | kernel/runtime_fs.c:338-381 | it is found iff those names lead to a directory; ENOTDIR iff a name on the way leads to a file, else ENOENT |
| FsTree.AddedPath | kernel/runtime_fs.c:405-514 | with one entry more, exactly one path more leads anywhere |
| FsTree.DroppedPath | kernel/runtime_fs.c:754-788 | with one entry less, exactly one path less does |
| FsTree.MovedPath | kernel/runtime_fs.c:790-843 | with an entry moved, every old path + q leads where new path + q does now, and no other path changes |
| FsTree.AddingKeepsTree | kernel/runtime_fs.c:405-514 | a tree stays a tree when an entry is added |
| FsTree.DroppingKeepsTree | kernel/runtime_fs.c:754-788 | a tree stays a tree when an empty entry is removed |
| FsTree.MovingKeepsTree | kernel/runtime_fs.c:790-843 | a tree stays a tree when an entry moves outside itself |
| FsSound.InitialIsSound | kernel/runtime_fs.c:383-403 | a fresh file system satisfies the invariant |
| FsSound.MkdirAddsOnePath | kernel/runtime_fs.c:405-475 | mkdir succeeds iff the path names a free place in a directory that may be changed and a node is free; the path map gains that path only; a failure changes nothing |
| FsSound.OpenEffect | kernel/runtime_fs.c:477-554 | a successful open takes one free slot and adds a path only when it creates the file; a failing one takes no slot |
| FsSound.FailedOpenLeavesTrace | kernel/runtime_fs.c:531-549 | a failing open changes the file system iff it created the file and had no slot, or emptied a file with contents and was refused afterwards |
| FsChange.PathIsShort | kernel/runtime_fs.c:300-316 | a path has fewer names than there are nodes |
| FsChange.CycleCheckIsExact | kernel/runtime_fs.c:300-316 | the walk up from the new parent meets the node iff the new path continues the old one |
| FsChange.RemoveDeletesOnePath | kernel/runtime_fs.c:754-788 | remove deletes exactly one path and node, or fails and changes nothing; the invariant survives iff the path is not slashes only on an empty, closed root |
| FsChange.RenameMovesSubtree | kernel/runtime_fs.c:790-843 | rename moves exactly one subtree, or fails and changes nothing; the invariant breaks iff the old path has slashes only, the new one leads to a free place in a directory, and the owners allow it |
| FsRuns.WriteOverlays | kernel/runtime_fs.c:614-630 | a write lays the buffer over the contents, with zeros in a gap, and keeps the bytes past the end zero |
| FsRuns.WriteChangesOneFile | kernel/runtime_fs.c:592-633 | a write changes one file and one offset; it fails iff not open for writing, not a regular file, or past the capacity |
| FsRuns.ReadYieldsContents | kernel/runtime_fs.c:556-590 | a read yields the contents from the offset on and moves only that offset |
| FsRuns.WrittenIsReadBack | kernel/runtime_fs.c:556-633 | what one handle writes another handle reads |
| FsRuns.CloseFreesSlot | kernel/runtime_fs.c:635-654 | close frees one slot and touches nothing else |
| FsRuns.SeekMovesOffset | kernel/runtime_fs.c:709-752 | seek moves one offset within the capacity or changes nothing |
| FsRuns.StepKeepsSound | kernel/runtime_fs.c:405-843 | an operation keeps the invariant iff it does not take the root away |
| FsRuns.EveryRunIsSound | kernel/runtime_fs.c:383-843 | every run keeps the tree, zeros past every end, offsets within capacity and one writer for each node |
| FsRuns.DoubleSlashRemovesRoot | kernel/runtime_fs.c:136-138 | on a fresh file system remove("//") clears the root |
| FsRuns.DoubleSlashRenamesRoot | kernel/runtime_fs.c:790-843 | on a fresh file system rename("//", "/a") makes the root its own entry |
| FsRuns.FailedOpenLeavesFile | kernel/runtime_fs.c:486-549 | on a fresh file system without slots, a creating open fails and the file is there |
| FsRuns.FailedOpenEmptiesFile | kernel/runtime_fs.c:531-539 | create a file, write a byte, open it again to truncate: EBUSY, and the byte is gone |
| FsValidate.ChainIsShort | kernel/runtime_fs.c:905-916 | the shortest way to the root has fewer links than there are nodes, so the depth limit is exact |
| FsValidate.ValidatorIsExact | kernel/runtime_fs.c:845-961 | OK iff the table is a rooted tree with sound slots |
| FsValidate.SoundIsWellFormed | kernel/runtime_fs.c:845-961 | every reachable file system passes the validator |
| FsValidate.WellFormedIsTree | kernel/runtime_fs.c:845-961 | a validated table with nameable names is a tree of the path map |
| FileSystem.ValidIsClimbable | kernel/runtime_fs.c:300-316 | in a table that passes the validator, every node in use hangs from one in use and the root is above it, so the unchecked walks of remove and rename stay inside and end |
| FileSystem.TokenNext | kernel/runtime_fs.c:98-121 | the next name, the end, or a name that is too long |
| FileSystem.Store.constructor | kernel/runtime_fs.c:383-403 | a fresh, sound file system |
| FileSystem.Store.FindChild | kernel/runtime_fs.c:123-134 | the first child of that name |
| FileSystem.Store.ResolvePath | kernel/runtime_fs.c:164-192 | the node that the names lead to |
| FileSystem.Store.ResolveParentPath | kernel/runtime_fs.c:338-381 | the place that the path names, or the error |
| FileSystem.Store.AllocNode | kernel/runtime_fs.c:144-162 | the first free node, cleared and marked used |
| FileSystem.Store.Create | kernel/runtime_fs.c:493-513 | the shared part of mkdir and creating opens |
| FileSystem.Store.Mkdir | kernel/runtime_fs.c:405-475 | table and status of the specification |
| FileSystem.Store.ZeroRange | kernel/runtime_fs.c:82-96 | the bytes of the range, cut to the capacity, are zero; an empty range changes nothing |
| FileSystem.Store.HasOpenWriter | kernel/runtime_fs.c:283-298 | whether the node is open for writing |
| FileSystem.Store.IsNodeOpen | kernel/runtime_fs.c:259-273 | whether the node is open |
| FileSystem.Store.NodeHasChildren | kernel/runtime_fs.c:243-257 | whether the node has entries |
| FileSystem.Store.AllocSlot | kernel/runtime_fs.c:194-210 | the first free slot, filled in |
| FileSystem.Store.Open | kernel/runtime_fs.c:477-554 | tables and result of the specification |
| FileSystem.Store.OpenFound | kernel/runtime_fs.c:516-553 | the checks, truncation and slot of an open |
| FileSystem.Store.Read | kernel/runtime_fs.c:556-590 | bytes and offset of the specification |
| FileSystem.Store.Write | kernel/runtime_fs.c:592-633 | table and offset of the specification, when the end does not wrap |
| FileSystem.Store.CopyIn | kernel/runtime_fs.c:619-626 | the gap is zeroed and the buffer copied |
| FileSystem.Store.Close | kernel/runtime_fs.c:635-654 | the slot is blank |
| FileSystem.Store.Seek | kernel/runtime_fs.c:709-752 | result and offset of the specification (`FsLaws.SeekAnswers`) |
| FileSystem.Store.Remove | kernel/runtime_fs.c:754-788 | table and status of the specification |
| FileSystem.Store.ParentChainContains | kernel/runtime_fs.c:300-316 | whether the ancestor lies on the way to the root; the walk ends |
| FileSystem.Store.Rename | kernel/runtime_fs.c:790-843 | table and status of the specification |
| FileSystem.Store.Validate | kernel/runtime_fs.c:845-961 | OK iff well-formed, with the status of the first fault |
| FileSystem.Store.ValidateNode | kernel/runtime_fs.c:873-928 | the faults of one node, in order |
| FileSystem.Store.ValidateSlot | kernel/runtime_fs.c:930-954 | the faults of one slot, in order |
| FsHash.LoadUndoesWord | kernel/runtime_fs_image.c:38-48 | a stored word is loaded back |
| FsHash.WordUndoesLoad | kernel/runtime_fs_image.c:38-48 | a loaded word is stored back byte for byte |
| FsHash.NextPow2IsLeast | kernel/runtime_fs_image.c:141-149 | the doubling loop yields the least power of two that is large enough |
| FsHash.OwnPowerIsPow2 | kernel/runtime_fs_image.c:207-212 | the header check accepts exactly powers of two |
| FsHash.HeapExactly | kernel/runtime_fs_image.c:567-591 | the validator's comparisons hold exactly for the array that the exporter builds |
| FsHash.HeapComputesMerkleRoot | kernel/runtime_fs_image.c:364-375 | the bottom-up loop computes the recursive Merkle root of the padded leaves |
| FsImageBytes.SerializedIsAccepted | kernel/runtime_fs_image.c:404-604 | the serialization of a well-formed image is accepted and parses back to it |
| FsImageBytes.AcceptedIsSerialized | kernel/runtime_fs_image.c:404-604 | an accepted buffer is the serialization of what it parses to: every byte is determined |
| FsImageBytes.AcceptsExactly | kernel/runtime_fs_image.c:404-604 | accepted iff the serialization of some well-formed image |
| FsImageBytes.ParentsAreExact | kernel/runtime_fs_image.c:519-554 | the parent walks succeed iff every record hangs from a directory record and the root is above it |
| FsImageTrips.ExportIsWellFormed | kernel/runtime_fs_image.c:271-402 | the exported image of a reachable file system is well-formed and its table is the node table |
| FsImageTrips.ExportedComesBack | kernel/runtime_fs_image.c:271-669 | export, validate, import gives back the same file system, node for node and byte for byte |
| FsImageTrips.ImportsExactly | kernel/runtime_fs_image.c:606-669 | an accepted image imports iff no two of its records with one parent agree in the first fifteen characters of their names; the result is well-formed |
| FsImageTrips.AcceptedImageImports | kernel/runtime_fs_image.c:606-669 | an accepted image with terminated names imports; the result satisfies the whole invariant iff names have no slash and directories no size |
| FsImageTrips.CutNamesOfTable | kernel/runtime_fs_image.c:50-63 | the sibling names of the imported table differ iff those of the records do, cut to fifteen characters |
| FsImageCases.FlatIsWellFormed | kernel/runtime_fs_image.c:404-604 | up to three empty directories with nameable, distinguishable names make a well-formed image |
| FsImageCases.AcceptedImageIsRefused | kernel/runtime_fs_image.c:404-669 | an image the validator accepts and the importer refuses, for any hash: siblings of sixteen letters that differ in the last |
| FsImageCases.AcceptedImageHidesNode | kernel/runtime_fs_image.c:404-669 | an accepted image with a name a/b, for any hash: it imports, and no path leads to its node |
| FsImageCode.MixBytes | kernel/runtime_fs_image.c:95-104 | the fold of the mixing function |
| FsImageCode.MixWords | kernel/runtime_fs_image.c:106-112 | the fold over the words' bytes |
| FsImageCode.HashRecord | kernel/runtime_fs_image.c:114-131 | the hash of the record's bytes |
| FsImageCode.HashPair | kernel/runtime_fs_image.c:133-139 | the hash of two hashes, the left one first (`FsImageLayout.TreeHashIs`) |
| FsImageCode.RoundUp | kernel/runtime_fs_image.c:141-149 | the least power of two |
| FsImageCode.BuildTree | kernel/runtime_fs_image.c:364-375 | the heap over the padded hashes |
| FsImageCode.RequiredBytes | kernel/runtime_fs_image.c:271-287 | the size of the image, or 0 for an invalid table |
| FsImageCode.WriteRecord | kernel/runtime_fs_image.c:242-258 | the bytes of the record |
| FsImageCode.WriteNodes | kernel/runtime_fs_image.c:333-362 | the records and payloads in place |
| FsImageCode.WriteImage | kernel/runtime_fs_image.c:329-389 | the whole image in place, nothing after it |
| FsImageCode.Export | kernel/runtime_fs_image.c:289-402 | EINVAL, EBUSY, ENOSPC exactly when due and without a write; else the serialized image |
| FsImageCheck.ParseHeader | kernel/runtime_fs_image.c:185-222 | whether the header is legal |
| FsImageCheck.CheckRecord | kernel/runtime_fs_image.c:433-507 | the status of one record |
| FsImageCheck.CheckRecords | kernel/runtime_fs_image.c:425-517 | the first fault of the records |
| FsImageCheck.FindRecord | kernel/runtime_fs_image.c:260-269 | the first record of the node |
| FsImageCheck.CheckParent | kernel/runtime_fs_image.c:519-554 | whether the record hangs from the root |
| FsImageCheck.NamesEqual | kernel/runtime_fs_image.c:65-81 | whether two terminated names are the same |
| FsImageCheck.FindClash | kernel/runtime_fs_image.c:556-565 | whether two siblings have one name |
| FsImageCheck.CheckTree | kernel/runtime_fs_image.c:567-590 | whether the hash tree is the one of the records |
| FsImageCheck.LeavesMatch | kernel/runtime_fs_image.c:570-577 | whether the leaves are the object hashes, padded |
| FsImageCheck.ParentsMatch | kernel/runtime_fs_image.c:578-586 | whether every inner node is the hash of its children |
| FsImageCheck.Validate | kernel/runtime_fs_image.c:404-604 | the status of the specification |
| FsImageCheck.Import | kernel/runtime_fs_image.c:606-669 | the table of the image and the status of the runtime validator |
| Handles.LastAliasIs | kernel/runtime_syscall.c:78-96 | counting aliases of one owner finds every handle on a file, and on a session as long as no service handle is stale |
| Handles.CloseClosesLastAlias | kernel/runtime_syscall.c:115-196 | a slot is closed iff no other handle names the file, and closing a file handle never fails; a close is refused iff it is the owner's last handle on an object that does not let go or on a session that has ended; a session is closed with the owner's last handle on it, whoever has it now; nothing else changes |
| Handles.DupKeepsAgreement | kernel/runtime_syscall.c:534-547 | dup adds one alias and nothing else |
| Handles.FileOpenRollsBack | kernel/runtime_syscall.c:439-456 | an open gains one handle and one slot; a failing one leaves no slot behind |
| Handles.ServiceOpenRollsBack | kernel/kernel.c:730-751 | a service open succeeds iff the service has a provider, the caller a pid and both tables room, and takes one session and one handle; one that gets no handle leaves no session behind |
| Handles.InvalidationBreaks | kernel/runtime_service.c:84-103 | ending a provider's sessions keeps files and held sessions in order, and breaks the agreement of handles and sessions iff the provider has an active session |
| Handles.RequestBreaks | kernel/kernel.c:758-784 | a request changes nothing unless its provider is gone or replaced; it then ends the provider's sessions and always breaks the agreement, never the files' part of it |
| Handles.ReleaseRemovesOwner | kernel/runtime_syscall.c:640-662 | releasing an owner removes its file and process handles and its service handles but the last one on each session that has ended; it closes exactly the slots the owner had opened and the sessions its handles name, whoever has them; when handles and sessions agree those are the owner's, and none of these handles is left |
| HandleRuns.StepKeepsAgreement | kernel/runtime_syscall.c:210-662 | every operation keeps files and held sessions in order, and the whole agreement iff it is not a request that ends its provider's sessions |
| HandleRuns.EveryRunAgrees | kernel/runtime_syscall.c:210-662 | over every run a slot is in use iff some handle names it and an active session has a handle of its owner; up to the first request that ends sessions, a session is active iff some handle names it |
| HandleRuns.StaleHandleEndsAnotherSession | kernel/kernel.c:758-784 | a concrete run: after a request has ended the caller's session its handle cannot be closed or released, and once another process has the session, closing that handle ends it |
| HandleTable.Table.AllocHandle | kernel/runtime_syscall.c:5-25 | the first free entry, or 0 |
| HandleTable.Table.CountAliases | kernel/runtime_syscall.c:78-96 | the number of aliases |
| HandleTable.Table.CloseEntry | kernel/runtime_syscall.c:115-196 | world and status of the specification, without the access check |
| HandleTable.Table.HandleClose | kernel/runtime_syscall.c:250-255 | world and status of the specification (`HandleLaws.CloseAnswers`) |
| HandleTable.Table.HandleDup | kernel/runtime_syscall.c:534-547 | world and result of the specification |
| HandleTable.Table.FileOpen | kernel/runtime_syscall.c:439-456 | world and result of the specification |
| HandleTable.Table.ServiceOpen | kernel/runtime_syscall.c:361-377 | world and result of the specification |
| HandleTable.Table.ObjectOpen | kernel/runtime_syscall.c:300-314 | a handle on a process, an event or a mailbox, cleared again when the object could not be created |
| HandleTable.Table.ReleaseOwnerHandles | kernel/runtime_syscall.c:640-662 | world and count of the specification |
| HandleTable.Table.CloseSession | kernel/runtime_service.c:49-62 | the session is inactive, or there is none |
| HandleTable.Table.InvalidateProvider | kernel/runtime_service.c:84-103 | every session of the provider has ended; whether there was one |
| HandleTable.Table.ServiceRequest | kernel/runtime_syscall.c:379-393 | world and status of the specification |
| SchedulerLaws.YieldOutcome | kernel/scheduler.c:918-1071 | process_yield from any state in which it is called, by raw fields: which sleepers its ticks wake, what the queue is, and that the least virtual runtime of the queue, then the least pid, takes over, or the caller goes on, waits or panics |
| SchedulerLaws.YieldCharges | kernel/scheduler.c:475-495 | a process that yields and gives way pays the ticks since its start, at least one; no other entry changes; the start of the one that takes over is the clock |
| SchedulerLaws.BlockingOutcome | kernel/scheduler.c:754-867 | a sleep, a wait on a channel, a wait for a live child and a block of oneself: the fields of the blocked entry, and who takes over |
| SchedulerLaws.TickOutcome | kernel/scheduler.c:908-916 | a tick wakes exactly the sleepers whose time has come and queues exactly the READY processes |
| SchedulerLaws.WakeAllOutcome | kernel/scheduler.c:869-876 | a wake of a channel wakes exactly those blocked on it |
| SchedulerLaws.WakeOutcome | kernel/scheduler.c:842-854 | a wake by pid wakes that process, if it is blocked, and no other |
| SchedulerLaws.WakeOneOutcome | kernel/scheduler.c:878-885 | waking one waiter wakes the one nearest behind the current slot, going round |
| SchedulerLaws.BlockOtherOutcome | kernel/scheduler.c:815-840 | another READY process is blocked until woken by hand; in any other state nothing changes |
| SchedulerLaws.NoSuchProcess | kernel/scheduler.c:707-854 | a pid that no process has: nobody is woken, blocked, killed or collected |
| SchedulerLaws.ExitOutcome | kernel/scheduler.c:691-705 | exit: the caller is a zombie with that code, exactly those who wait for its pid or for any child are READY, the queue stays; then a yield, which panics iff it would come back to the caller |
| SchedulerLaws.KillOutcome | kernel/scheduler.c:707-733 | kill: the process ends with that code unless it has ended; killing oneself is exit |
| SchedulerLaws.ReapOutcome | kernel/scheduler.c:735-752 | reap collects the process of that pid iff it is a zombie: its code is recorded and its slot blank |
| SchedulerLaws.WaitOutcome | kernel/scheduler.c:754-787 | waitpid collects the first zombie child asked for; without one it blocks, or changes nothing |
| SchedulerLaws.SpawnOutcome | kernel/scheduler.c:650-685 | spawn fills the first unused slot, field by field, with the least virtual runtime; refused, without a slot or a pid it changes nothing |
| SchedulerLaws.MinIsLeast | kernel/scheduler.c:455-473 | the virtual runtime of a new process is the minimum over all READY and RUNNING ones, 0 when there are none |
| SchedulerLaws.RunOutcome | kernel/scheduler.c:1073-1081 | scheduler_run starts the first of the queue, or panics iff nobody is queued |
| SchedulerLaws.IdleOutcome | kernel/scheduler.c:963-985 | an interrupt of the wait loop: the READY processes are queued and the first takes over |
| SchedulerRuns.OnlyYieldsCharge | kernel/scheduler.c:475-495 | over every operation: the virtual runtime of a slot changes only by a yield of its process that gives way, a spawn into it, or its collection |
| SchedulerRuns.StartIsTakeover | kernel/scheduler.c:599-614 | over all runs, the start from which the current process is charged is the tick at which it took over |
| SchedulerRuns.YieldChargesSinceTakeover | kernel/scheduler.c:475-495 | over all runs: a process that yields and gives way is charged exactly the ticks that came since it took over, at least one |
| SchedulerRuns.CodeWasGiven | kernel/scheduler.c:691-733 | over all runs, an exit code on record is the argument of an exit of that process or of a kill of it |
| SchedulerRuns.CollectedCodeWasGiven | kernel/scheduler.c:735-787 | over all runs, so is the code that wait or reap collects |
| SchedulerRuns.SleepIsCharged | kernel/scheduler.c:599-614 | a run for any d > 0: a parent sleeps for d ticks, resumes itself, and is charged the ticks asleep at its next yield |
| SyncLaws.MutexStepIs | kernel/mutex.c:45-88 | what each call does to owner, queue and processes |
| SyncLaws.OwnerIsHolder | kernel/mutex.c:45-88 | over all runs the owner is the process that called a lock while nobody held it and has not called unlock since |
| SyncLaws.LockSucceedsIfFree | kernel/mutex.c:45-69 | over all runs a lock succeeds iff nobody holds the mutex, and then the caller does; one that fails changes no owner and waits, unless it only tries |
| SyncLaws.OnlyHolderUnlocks | kernel/mutex.c:71-88 | over all runs an unlock by the holder frees the mutex, and one by anybody else changes nothing |
| SyncLaws.MutualExclusion | kernel/mutex.c:45-88 | over all runs, between two successful locks the process of the first has called unlock |
| SyncLaws.SemStepIs | kernel/semaphore.c:52-81 | what each call does to count, queue and processes |
| SyncLaws.UnitsAddUp | kernel/semaphore.c:52-81 | over all runs units are conserved: initial and given ones are taken and left ones, never more than the maximum left |
| SyncLaws.AcquireWaitsIfEmpty | kernel/semaphore.c:61-69 | over all runs an acquire waits iff it finds no unit |
| SyncLaws.MailboxStepIs | kernel/mailbox.c:58-108 | what each call does to message, queues and processes |
| SyncLaws.MailboxIsTraffic | kernel/mailbox.c:58-108 | over all runs a send puts its message in iff all sent ones have come out, a receive takes the last one iff it has not, and full means just that |
| KmemLaws.RoundedUp | kernel/kmem.c:29-31 | the least multiple of 8 that covers the request; 0 when rounding wraps |
| KmemLaws.FirstFitIsLowest | kernel/kmem.c:69-100 | the block taken has the lowest address of all that fit |
| KmemLaws.AllocationAnswers | kernel/kmem.c:69-100 | the address granted and the blocks left, exactly: the whole block when at most 20 bytes would be over, else its front |
| KmemLaws.FreeMerges | kernel/kmem.c:102-132 | a freed block becomes one with the free block before it and the one behind it, exactly |
| KmemLaws.CountersCount | kernel/kmem.c:69-132 | over all runs the counters are the numbers of refused, granted and freeing calls, to 32 bits, and the live count is granted less freed |
| KmemLaws.PeaksArePeaks | kernel/kmem.c:69-132 | over all runs the peaks are the largest numbers of bytes and payloads that have ever been in use |
| KmemLaws.SnapshotTells | kernel/kmem.c:193-227 | each figure of the snapshot, by the blocks |
| FsLaws.FlagBits | kernel/runtime_fs.c:477-554 | the flag tests look at bits 0 to 3 |
| FsLaws.ModeBits | kernel/runtime_fs.c:520-530 | the mode tests look at the write bits, or read bits, of the three octal digits |
| FsLaws.SlashIsSkipped | kernel/runtime_fs.c:98-121 | a slash between names says nothing |
| FsLaws.NameIsTaken | kernel/runtime_fs.c:98-121 | a name of at most fifteen letters is followed by the names after it, a longer one ends the list |
| FsLaws.CreationAnswers | kernel/runtime_fs.c:338-381 | the answer of a creation and the entry it makes, field by field, told by where the names lead |
| FsLaws.MkdirAnswers | kernel/runtime_fs.c:405-475 | the status and the effect of every mkdir |
| FsLaws.OpenNodeAnswers | kernel/runtime_fs.c:516-553 | the status and the effect of every open of a node |
| FsLaws.OpenAnswers | kernel/runtime_fs.c:477-554 | the status and the effect of every open of a path |
| FsLaws.RemoveAnswers | kernel/runtime_fs.c:754-788 | the status and the effect of every remove of a path with a name |
| FsLaws.RenameAnswers | kernel/runtime_fs.c:790-843 | the status and the effect of every rename of a path with a name |
| FsLaws.ReadAnswers | kernel/runtime_fs.c:556-590 | the bytes, the status and the new offset of every read |
| FsLaws.OverlaidAt | kernel/runtime_fs.c:614-630 | what stands at each place of a file after a write |
| FsLaws.WriteAnswers | kernel/runtime_fs.c:592-633 | the status and the effect of every write |
| FsLaws.SeekAnswers | kernel/runtime_fs.c:709-752 | seek succeeds iff whence is 0, 1 or 2 and start, offset or end plus displacement lies in the capacity; it answers that place and moves only the offset there |
| FsLaws.SeekThenReadsTail | kernel/runtime_fs.c:709-752 | after a seek to n before the end, a read of n yields the last n bytes |
| FsLaws.CloseAnswers | kernel/runtime_fs.c:635-654 | the status and the effect of every close |
| FsLaws.FreshFs | kernel/runtime_fs.c:383-403 | every node and slot of a fresh file system |
| FsLaws.ValidatorAnswers | kernel/runtime_fs.c:845-961 | the status of the validator for any table: the fault of the first node, then of the first slot |
| FsValidate.ChainOkExactly | kernel/runtime_fs.c:905-916 | the walk to the root succeeds iff the root is above the node and every node on the way is in use |
| HandleLaws.CloseAnswers | kernel/runtime_syscall.c:250-255 | close is refused with EBADF iff the number names no entry or one of another owner, and otherwise as `CloseRefused` says; what it changes, field by field |
| HandleLaws.DupAnswers | kernel/runtime_syscall.c:534-547 | the same refusal for dup, ENOSPC without an entry, else a second handle of the same owner on the same object |
| HandleLaws.FileOpenAnswers | kernel/runtime_syscall.c:439-456 | file open answers as the file system does, or ENOSPC, and then no slot stays open |
| HandleLaws.ObjectOpenAnswers | kernel/runtime_syscall.c:300-314 | the status and the effect of opening a process, an event or a mailbox |
| HandleLaws.ReleaseAnswers | kernel/runtime_syscall.c:640-662 | the count answered is how many handles the owner has lost; nothing for owner 0 |
| HandleLaws.OthersCannotClose | kernel/runtime_syscall.c:98-131 | a close by a process never touches an entry that belongs to another one |
| HandleLaws.OthersLeaveHandle | kernel/runtime_syscall.c:98-662 | nor does any other operation that is not the owner's |
| HandleLaws.HandlesAreSafe | kernel/runtime_syscall.c:210-662 | over all runs a handle stays as it is, and its file open for its owner, until the owner acts or is released |
| HandleLaws.ServiceOpenAnswers | kernel/kernel.c:730-751 | the status and the effect of every service open |
| HandleLaws.RequestAnswers | kernel/kernel.c:758-784 | the status and the effect of every request, with the same refusal for a handle of another owner |
| FsImageLayout.WordIsLittleEndian | kernel/runtime_fs_image.c:38-48 | a word is stored with its lowest byte first |
| FsImageLayout.HashTakesBytes | kernel/runtime_fs_image.c:95-104 | a hash mixes the bytes from the first to the last into 0x811C9DC5 |
| FsImageLayout.TreeHashIs | kernel/runtime_fs_image.c:133-139 | the left child is hashed before the right one; with a step that keeps its last byte, the hash is the top byte of the right child |
| FsImageLayout.MerkleRootIs | kernel/runtime_fs_image.c:364-375 | the root is the hash of the root of the first half and then of the second |
| FsImageLayout.HeaderExactly | kernel/runtime_fs_image.c:185-222 | the header is legal iff each of its words is what its place demands |
| FsImageLayout.TreeExactly | kernel/runtime_fs_image.c:567-590 | the tree is accepted iff each leaf is the hash of its record, or the empty hash, and each inner word the hash of the eight bytes of its children |
| FsImageLayout.AcceptedIsLaidOut | kernel/runtime_fs_image.c:404-604 | every word and hash of an accepted image, by its place in the bytes |
| FsImageLayout.ExportIsLaidOut | kernel/runtime_fs_image.c:289-402 | every byte that the exporter writes for a file system, by its place |
| FsImageLayout.NameEndsAtZero | kernel/runtime_fs_image.c:50-63 | a name field holds the bytes up to its first zero |
| FsImageLayout.CopyTakesFifteen | kernel/runtime_fs_image.c:50-63 | a node takes at most fifteen of them |
| FsImageLayout.SameNameIs | kernel/runtime_fs_image.c:65-81 | two names are one iff they agree up to a zero that both have |
| FsImageLayout.RecordFaultIs | kernel/runtime_fs_image.c:433-507 | the status of every record |
| FsImageLayout.ImageAnswers | kernel/runtime_fs_image.c:404-604 | the status of the validator for any buffer |
| FsImageLayout.ImportPlaces | kernel/runtime_fs_image.c:606-669 | every field of every node that the importer makes |
| FsImageIntegrity.MixTellsApart | kernel/runtime_fs_image.c:91-93 | the mixing step never maps two hashes with one byte, or one hash with two bytes, to the same hash |
| FsImageIntegrity.PublishedHashes | kernel/runtime_fs_image.c:91-104 | the published FNV-1a hashes of no byte and of the letter a |
| FsImageIntegrity.OneByteChangesHash | kernel/runtime_fs_image.c:95-104 | sequences that differ in exactly one byte have different hashes |
| FsImageIntegrity.OneByteIsNoticed | kernel/runtime_fs_image.c:404-604 | of two buffers that differ in exactly one byte, anywhere, the validator accepts at most one |

## Left out

- Hardware: register writes, logging, diagnostic codes, interrupt masking and stack checks do nothing in the model; a context switch changes the current index, and a section with interrupts disabled is one step.
- Preemption: the cooperative build is modelled; timer interrupts arrive before a pick, as many as the caller of the step says; those between the pick and the count of the sleepers are the subject of `LateTicksPanicExactly` only, and no others arrive before the switch.
- Scheduler.Kernel.AccountRuntime: virtual runtime and ticks are unbounded, the 64-bit wrap of the source is not modelled; `nextPid` and the yield and switch counters are 32 bits.
- Scheduler.Kernel.ProcessSpawnWithRole: whether the role policy and the entry point allow the spawn is an argument; process names, entry points and contexts are not kept.
- Scheduler.Kernel.ProcessWaitRound: the retry loop of waitpid is one method call per round, because the process gives way in between.
- SyncObjects.SemaphoreLosesNoWakeup: as for the mutex and the mailbox, a process inside a wait is neither killed nor blocked by hand (that is the subject of `RemovalLosesWakeup`), and the channel belongs to one queue; destroying the objects and their magic numbers are not modelled.
- Sync.WaitObjects.CreateSemaphore: as for the mutex and the mailbox, whether the allocator has room for the object and for each queue are arguments, and the channel counter must not come round to a channel that somebody waits on.
- kernel/event.c: event signals are not latched, so no such claim holds for them.
- Kmem.Allocator.Free: the pointer is null or stands where the allocator once wrote a header, now a block's or inside a payload; headers are values at arena offsets, so a pointer to bytes that overlap a block's header, or that never held a header, is not modelled, nor is the alignment of payloads.
- FileSystem.Store.Write: the end offset of the write must not wrap 32 bits; null pointers are not passed anywhere.
- FileSystem.Store.Validate: no node in use may hang from a node whose own parent index is out of range, because the walk up would read past the table.
- FileSystem.Store.Remove: every node in use must hang from one in use, because the code looks at the parent of the node it finds without a check.
- FileSystem.Store.Rename: the same, and the root must be above every node in use, or the walk of its cycle check would not end; so for FileSystem.Store.ParentChainContains. Tables that pass the validator are such (`ValidIsClimbable`).
- FsImageCode.RequiredBytes: names and data have the lengths of their C arrays, and the walk of FileSystem.Store.Validate stays in the table.
- FsImageCode.Export: as RequiredBytes.
- runtime_fs_stat and runtime_fs_readdir: scans that change at most a cursor.
- Bytes after a name's NUL: a name is what precedes it.
- FsImageCheck.ParseHeader: the sum of the sizes in the header must not wrap 32 bits.
- FsHash.HashFrom: the function that mixes one byte into a hash is a parameter, so the proofs about the format hold for any; FsImageIntegrity has the kernel's, FNV-1a. Nothing is said about collisions of sequences that differ in more than one byte.
- FsImageCheck.NamesEqual: for two full names without a NUL the C loop reads one byte past the second; its answer does not depend on it and the model does not read it.
- FsImageCheck.CheckRecord: the bit mask of nodes seen is a set; a parent index of 32 or more counts as not seen, and the lookup that follows fails as well.
- HandleTable.Table.ObjectOpen: events and mailboxes themselves are not modelled; when creating one succeeds but the handle table is full the object leaks in the source, and nothing is claimed about its lifetime.
- HandleTable.Table.ServiceOpen: which process provides the service now, and whether the service is known, are arguments.
- HandleTable.Table.ServiceRequest: so are the provider and whether the exchange with it comes about; its reply is not modelled.
- HandleTable.Table.CloseEntry: whether an event or mailbox lets itself be destroyed is an argument, and missing operations (ENOSYS) are not modelled.
- Sync.WaitQueue.BeginWait: together with EndWait it is one C function, cut where the process gives way.
- Catalog, loader, policy, shell, resource paths, drivers, panel, timers and boot: I/O, wiring and small tables.
