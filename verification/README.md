# FLOPSYNC and the Miosix kernel, verified

This project models the parts of the repository whose correctness is not visible from any one function, and proves
what they promise. `dafny verify dfyconfig.toml` checks the project.

- **Priority inheritance** (`PriorityInheritance.dfy`, `KernelMutex.dfy`). The protocol is a state machine over
  threads and mutexes of any type; the kernel's objects (intrusive lists of held mutexes, vectors of waiters kept as
  heaps, owner fields) are classes whose methods are proved to be its steps. The walk of `sync.cpp` lines 86-94
  overwrites the priority of every owner on the chain, also of those that run higher. So the inheritance invariant
  does not survive every run: `WalkLowersExample` is a state in which it is lost, and `BlockExactIff` and
  `RunExactIff` say exactly when it is kept; what every run keeps is that no holder runs above both its saved priority
  and its waiters (`RunKeepsNothing`). That the wait-for chain stays acyclic is needed for the walk to end, and
  `DeadlockIff` says when it does.
- **Path resolution** (`PathSpec.dfy`, `PathLinks.dfy`, `PathResolver.dfy`). A stack machine over components is the
  specification; the loop that erases and splices the string in place, with its index, offset and depth counters,
  refines it for every mount table and every answer of the filesystems. Resolution is normalization of the components
  up to the first symbolic link (`ReadWalk`), and `LinkWalk` says where that one leads. As the code has it, a failing
  `lstat` or `readlink` does not stop the resolution (lines 419 and 433 assign the result of the comparison), and the
  search for the filesystem after a final ".." does not look at the directory reached (lines 473-485); `PlainDepthIff`
  and `WalkDepthIff` say exactly when that matters. `StringPart.dfy` has the substrings that borrow a character of the
  path, and when they read as asked for.
- **Clock synchronization** (`CArith.dfy`, `SyncSpec.dfy`, `Synchronizer.dfy`, `NodeSpec.dfy`, `FlooderSyncNode.dfy`,
  `ClosedLoop.dfy`, `Unquantized.dfy`, `Deadbeat.dfy`). The three controllers, the receiver window, the flooding node
  round by round, and the clock; then the controllers in closed loop with the clock they correct. Division truncates
  as in C, errors pass through their 32 and 16 bit types, and the periods and windows are parameters, of which only
  what holds on the boards without VHT is assumed (windows from 1 to 255 ticks, so that `scaleFactor` is 1).
- **Timers** (`TimerSpec.dfy`, `TimerWait.dfy`, `TimerCalls.dfy`, `TimerPin.dfy`, `TimerRuns.dfy`, `VirtualTimer.dfy`,
  `RtcTimer.dfy`).
  The virtual high resolution timer as a machine whose steps are counter increments, edges, interrupts and calls, and
  the software extension of the low frequency counter. A wait for a value ends when the timer shows it or later
  (`WaitEndsInTime`), if the synchronizations during it left the deadline where it belongs. It can end early:
  `EarlyExample` is such a run, and `NeverEarlyIff` says exactly when it happens. The documentation says that a wait
  for a past time returns immediately; `WaitsIff` says when the code does so. Whether the pin that starts a
  transmission rises exactly at its deadline is decided by the last synchronization during the call, or by the call
  itself if there is none: `TriggerExactIff` says how. A deadline just one turn of the counter ahead is missed without
  a synchronization (`OneTurnExample`) and kept with one (`RepairedExample`), and a synchronization can end a call
  early without a pulse (`SpoiledExample`). `setValue` of one board keeps the value last read, and `SetExactIff` says
  when the next reading is right.
- **Process pool** (`PoolSpec.dfy`, `ProcessPool.dfy`). The aligned bitmap allocator. Its scan goes one candidate past
  the end of the pool (`<=` in line 69), so what lies behind the bitmap in memory matters; `LeavesPoolIff` says how.
- **Supporting algorithms**: the regression of `Ftsp.dfy`, the bar code of `BarraLed.dfy`, the CRC of `Crc16.dfy`, the
  first-in first-out mutex and condition variable of `FastMutexSpec.dfy`, `FastMutexRuns.dfy` and `FastMutex.dfy`, and
  the sleeping threads of `SleepingList.dfy`.

Objects of the source are classes with its fields, and their methods are proved against functions on values, about
which the lemmas speak. A scheduler, a radio and an interrupt become steps that may come in any order; a thread that
waits is the end of a method.

## Model

| member | source | states |
|---|---|---|
| PriorityInheritance.DeadlockIff | miosix/kernel/sync.cpp:84-95 | queueing a thread keeps the wait-for chains finite, so that the boosting walk ends, if and only if the chain that starts at the owner does not end at that thread |
| PriorityInheritance.WalkEndless | miosix/kernel/sync.cpp:86-94 | when the chain ends at the thread that queues, and it lends its priority, the boosting walk never ends |
| PriorityInheritance.BlockSets | miosix/kernel/sync.cpp:81-95 | the walk gives exactly the owners on the chain the priority of the thread that queues, and only if that is above the first owner |
| PriorityInheritance.BlockExactIff | miosix/kernel/sync.cpp:84-95 | queueing keeps the inheritance invariant (holder's priority = maximum of saved priority and waiters') if and only if the walk is skipped or the thread at the end of the chain is not above the one that queues |
| PriorityInheritance.BlockKeepsWellFormed | miosix/kernel/sync.cpp:76-95 | queueing keeps ownership and waiting consistent and acyclic, whatever it does to priorities |
| PriorityInheritance.BlockKeepsBase | miosix/kernel/sync.cpp:84-95 | lending a priority changes nobody's own priority |
| PriorityInheritance.WalkLowersExample | miosix/kernel/sync.cpp:86-94 | a concrete exact state in which the walk lowers a thread from 10 to 5 |
| PriorityInheritance.AcquireKeeps | miosix/kernel/sync.cpp:52-62 | taking a free mutex keeps all invariants and everybody's own priority |
| PriorityInheritance.ReleaseKeepsWellFormed | miosix/kernel/sync.cpp:224-288 | giving up a mutex keeps ownership and waiting consistent and acyclic |
| PriorityInheritance.ReleaseKeepsExact | miosix/kernel/sync.cpp:243-288 | giving up a mutex, with the priority recomputed from the mutexes still held, keeps the inheritance invariant, for the new owner too |
| PriorityInheritance.ReleaseKeepsBase | miosix/kernel/sync.cpp:243-274 | giving up a mutex changes nobody's own priority |
| PriorityInheritance.SetPriorityKeeps | miosix/kernel/kernel.cpp:394-424 | setPriority keeps all invariants and changes exactly the caller's own priority |
| PriorityInheritance.NoInversion | miosix/kernel/sync.cpp:81-95 | in an exact state the thread at the end of a chain of owners runs at least at the priority of every thread that waits on the chain |
| PriorityInheritance.StepKeeps | miosix/kernel/sync.cpp:49-288 | every operation keeps the structure, and keeps exactness if and only if it is not a queueing step that lowers somebody |
| PriorityInheritance.StepBase | miosix/kernel/kernel.cpp:399-420 | the own priority of a thread changes only by its own setPriority |
| PriorityInheritance.RunKeepsStructure | miosix/kernel/sync.cpp:49-366 | over every run: structure kept, and a thread's own priority is the one it set last, whatever was lent to it in between |
| PriorityInheritance.StartOk | miosix/kernel/sync.cpp:43-46 | runs begin where no mutex is locked: the structure holds, and every priority is exact |
| PriorityInheritance.StepKeepsNothing | miosix/kernel/sync.cpp:49-288 | no step, not even a walk that lowers somebody, leaves a holder above both its saved priority and every thread it keeps waiting |
| PriorityInheritance.RunKeepsNothing | miosix/kernel/sync.cpp:49-366 | over every run: no holder keeps a priority that nobody lends it any more |
| PriorityInheritance.RunExactIff | miosix/kernel/sync.cpp:84-95 | a run that starts exact stays exact throughout if and only if no queueing step lowers anybody |
| PriorityInheritance.StepDepth | miosix/kernel/sync.cpp:69-73 | no operation changes whether a mutex is recursive; each changes the depth of its own mutex by one level, or to the one asked for, and a mutex just taken or handed over is locked once |
| PriorityInheritance.RunDepth | miosix/kernel/sync.cpp:290-366 | over every run: the depth of a recursive mutex, plus one, is the number of levels its owner has locked since it got it, a depth restored after a wait counted, minus those it unlocked |
| PriorityInheritance.UnlockBalances | miosix/kernel/sync.cpp:218-222 | an unlock lowers the depth exactly when locks still exceed unlocks by more than one; the mutex is at depth 0 right after it was taken or handed over, so n locks need n unlocks |
| KernelMutex.PushHeap | miosix/kernel/sync.cpp:77-79 | push_heap on a vector whose last element is new gives a heap of the same threads |
| KernelMutex.SiftDown | miosix/kernel/sync.cpp:91-92 | sifting one position down repairs the heap below it and keeps the threads |
| KernelMutex.MakeHeap | miosix/kernel/sync.cpp:91-92 | make_heap gives a heap of the same threads from any order |
| KernelMutex.PopHeap | miosix/kernel/sync.cpp:268-270 | pop_heap and pop_back remove exactly the front and leave a heap |
| KernelMutex.HeapFront | miosix/kernel/sync.cpp:256-257 | nobody in a heap is above its front |
| KernelMutex.Thread.BoostOwners | miosix/kernel/sync.cpp:86-94 | the loop over the owners, with each vector re-heaped, is the boosting walk of the protocol; it ends because the chain does |
| KernelMutex.Thread.InheritedPriority | miosix/kernel/sync.cpp:250-259 | the loop over the list of mutexes held computes the maximum of the saved priority and of all waiters, looking only at heap fronts |
| KernelMutex.Thread.SetPriority | miosix/kernel/kernel.cpp:394-424 | Thread::setPriority is the protocol's step and keeps lists, vectors and heaps consistent |
| KernelMutex.Mutex.PKlock | miosix/kernel/sync.cpp:49-95 | each branch of PKlock up to the wait is the protocol's step (take, deepen, queue), and keeps lists, vectors and heaps consistent; a caller the chain of owners leads back to waits in a circle, and no chain through it ends |
| KernelMutex.Mutex.LockAgain | miosix/kernel/sync.cpp:69-73 | a lock of a recursive mutex by its owner adds one level |
| KernelMutex.Mutex.PKlockToDepth | miosix/kernel/sync.cpp:117-164 | the same for PKlockToDepth, circle included, and the depth set |
| KernelMutex.Mutex.ResumeAtDepth | miosix/kernel/sync.cpp:184 | the depth set when the wait of PKlockToDepth is over |
| KernelMutex.Mutex.PKtryLock | miosix/kernel/sync.cpp:187-207 | PKtryLock succeeds exactly when the mutex is free or recursive and the caller's, changes nothing otherwise, and never waits |
| KernelMutex.Mutex.Unlink | miosix/kernel/sync.cpp:224-241 | the walk over the owner's list takes exactly this mutex out of it |
| KernelMutex.Mutex.DropPriority | miosix/kernel/sync.cpp:243-261 | the priority after unlinking is the maximum still due without this mutex |
| KernelMutex.Mutex.HandOver | miosix/kernel/sync.cpp:263-287 | the highest waiter becomes owner, or the mutex free; the boost of the new owner at lines 279-281 is proved unreachable |
| KernelMutex.Mutex.PKunlock | miosix/kernel/sync.cpp:209-288 | each branch of PKunlock is the protocol's step; the result says whether the new owner is above the caller |
| KernelMutex.Mutex.PKunlockAllDepthLevels | miosix/kernel/sync.cpp:290-366 | gives the mutex up whatever its depth, and returns the depth it had |
| PathSpec.WalkClean | miosix/filesystem/file_access.cpp:340-378 | for every filesystem answer, with or without links, a resolved path has no empty, "." or ".." component |
| PathSpec.WalkDepthIff | miosix/filesystem/file_access.cpp:381-396 | the filesystem reported is the deepest one mounted on the result, if and only if the path was not ended by ".." leaving a mount point that lies directly in another one |
| PathSpec.PlainWalk | miosix/filesystem/file_access.cpp:340-378 | without links, resolution is normalization of the components ("" and "." dropped, ".." pops); it fails with ENOTDIR if and only if a name with a slash after it leads to a file, and otherwise with ENOENT if and only if normalization fails |
| PathSpec.PlainStep | miosix/filesystem/file_access.cpp:398-425 | without links, exactly when one component is passed, and with which error it is not |
| PathSpec.ReadWalk | miosix/filesystem/file_access.cpp:340-378 | whatever links there are, as long as none is met: resolution is normalization of the components, with the same two errors and conditions |
| PathSpec.ReadStep | miosix/filesystem/file_access.cpp:398-425 | exactly when one component that is not a link to follow is passed, and with which error it is not |
| PathSpec.AskedAt | miosix/filesystem/file_access.cpp:400-421 | lstat is asked of the filesystem mounted deepest on the way to a path, about what comes behind its mount point and a slash |
| PathLinks.TargetAskedAt | miosix/filesystem/file_access.cpp:432-433 | and so is readlink |
| PathSpec.OffsetIs | miosix/filesystem/file_access.cpp:366-377 | what follows the offset reported is the result's path on its filesystem, nothing for its mount point |
| PathLinks.LinkWalk | miosix/filesystem/file_access.cpp:427-468 | where the first link met leads: one that cannot be read is taken for a directory, an empty target gives ENOENT, a spliced path above PATH_MAX gives ENAMETOOLONG, and otherwise the path resolves to the normalization of the target's components and those behind the link, from the root if the target is absolute and from the directory of the link if it is relative |
| PathLinks.LastWalk | miosix/filesystem/file_access.cpp:429 | with one link followed, a second one met gives ELOOP, and if none is met resolution is normalization |
| PathLinks.ReadTo | miosix/filesystem/file_access.cpp:342-364 | up to the first link met the machine has read exactly the components before it, and stands where they lead |
| PathLinks.TargetComponents | miosix/filesystem/file_access.cpp:436-465 | the components of a target with the rest of the path behind it are those of the target and those of the rest |
| PathSpec.NormalizeFailsIff | miosix/filesystem/file_access.cpp:383 | normalization fails if and only if some prefix has more ".." than names; otherwise the result is as long as names minus ".." |
| PathSpec.PlainDepthIff | miosix/filesystem/file_access.cpp:470-496 | without links, the filesystem reported is the deepest one if and only if the path does not end in ".." leading from one mount point to another, a condition on the path and the mount table alone |
| PathSpec.NestedMountExample | miosix/filesystem/file_access.cpp:473-485 | "/a/b/.." with filesystems on /a and /a/b is resolved to /a but reported on the root filesystem |
| PathSpec.ResolveCanonical | miosix/filesystem/file_access.cpp:329-379 | without links, a canonical path resolves to itself on the deepest filesystem if and only if no component but the last is a file, and fails with ENOTDIR otherwise |
| PathSpec.WalkTraverses | miosix/filesystem/file_access.cpp:398-425 | without links, no component but the last of a resolved path is a file |
| PathSpec.ResolveAgain | miosix/filesystem/file_access.cpp:329-379 | without links, whatever a path resolves to resolves to itself, on the deepest filesystem mounted on it |
| PathSpec.SplitJoin | miosix/filesystem/file_access.cpp:366-376 | splitting a canonical path gives back the components it was joined from |
| PathResolver.PathResolution.ResolvePath | miosix/filesystem/file_access.cpp:329-379 | the in-place loop returns exactly the path, filesystem, offset and error of the component-stack machine; it ends under the measure (links left, unread characters), with every index in range |
| PathResolver.PathResolution.UpPathComponent | miosix/filesystem/file_access.cpp:381-396 | erasing "name/.." and, when the depth counter reaches zero, finding the filesystem again, is one step of the machine |
| PathResolver.PathResolution.RecursiveFindFs | miosix/filesystem/file_access.cpp:470-496 | the backward search finds the deepest mount point at or below the given number of components, and the depth below it |
| PathResolver.PathResolution.NormalPathComponent | miosix/filesystem/file_access.cpp:398-425 | entering a mount point, stat, the link and the ENOTDIR branch are one step of the machine; a failing lstat does not stop it |
| PathResolver.PathResolution.FollowSymlink | miosix/filesystem/file_access.cpp:427-468 | following a link is one step of the machine, with its four errors; a failing readlink does not stop it |
| PathResolver.PathResolution.SpliceAbsolute | miosix/filesystem/file_access.cpp:436-451 | the path after an absolute link, and the length check |
| PathResolver.PathResolution.SpliceRelative | miosix/filesystem/file_access.cpp:452-465 | the path after a relative link, and the length check |
| PathResolver.PathResolution.OneComponent | miosix/filesystem/file_access.cpp:342-364 | the body of the loop is one step of the machine, or removes an empty or "." component |
| PathResolver.PathResolution.Finish | miosix/filesystem/file_access.cpp:366-377 | the trailing slash is removed and indexIntoFs corrected for a path that is itself a mount point |
| StringPart.StringRestored | miosix/filesystem/stringpart.cpp:39-101 | whatever parts are made of a string and of each other, clearing them youngest first restores it to the character, and no step is made impossible by earlier ones |
| StringPart.TextIff | miosix/filesystem/stringpart.cpp:135-143 | c_str of a live part is the substring asked for, of length index - offset, if and only if no live part ends inside it |
| StringPart.MadeUndivided | miosix/filesystem/stringpart.cpp:51-101 | no live part ends inside a part just made of the string, or of a part that none ends inside |
| StringPart.MadeReads | miosix/filesystem/stringpart.cpp:51-101 | such a part reads as the substring asked for of the text of what it is made of, from off up to idx, both cut to that text |
| StringPart.DividedExample | miosix/filesystem/stringpart.cpp:88-100 | a part of an older part cuts that one short |
| StringPart.BufferIs | miosix/filesystem/stringpart.cpp:46-61 | while parts live the string is the original one with NUL where they end |
| StringPart.NextRestores | miosix/filesystem/stringpart.cpp:39-101 | making and clearing parts keeps the string restorable |
| StringPart.StringPart.OfString | miosix/filesystem/stringpart.cpp:51-63 | the constructor from a string: index, offset, and the character borrowed |
| StringPart.StringPart.OfPart | miosix/filesystem/stringpart.cpp:72-101 | the constructor from a part |
| StringPart.StringPart.Clear | miosix/filesystem/stringpart.cpp:155-170 | the character goes back |
| SyncSpec.SpreadIs | flopsync_v3/flopsync2.cpp:76-78 | the variance computed from the two accumulators is the sum of the squared differences of all pairs of samples, so never negative |
| SyncSpec.ImproveAbove | flopsync_v3/flopsync2.cpp:81 | a Babylonian step from any positive value ends at or above the integer square root, and above zero |
| SyncSpec.ImprovedAbove | flopsync_v3/flopsync2.cpp:80-81 | from a seventh of a variance of at least 7 no step divides by zero, and every step ends at or above the integer square root |
| SyncSpec.WindowCovers | flopsync_v3/flopsync2.cpp:76-85 | after eight samples the window is at least three standard deviations (rounded down) or the largest window; with variance below 7 it is the smallest one |
| SyncSpec.RootWithin | flopsync_v3/flopsync2.cpp:80-81 | how good exactly three steps are: within an eighth of the distance of the start from the root, up to a constant, and not better than an eighth of the start |
| SyncSpec.WindowFits | flopsync_v3/flopsync2.cpp:80-85 | so the window is not far above three standard deviations either |
| SyncSpec.WindowSince | flopsync_v3/flopsync2.cpp:70-87 | over every run since a reset: the window starts at its largest, each eighth packet counted (with a first step, the first is not) sets it to fit the last eight errors, and no other packet changes it |
| SyncSpec.LossesWiden | flopsync_v3/flopsync2.cpp:92-104 | n losses in a row widen the window 4^n times (2^n with the other two controllers) or to the largest one, count as no samples, and leave the controller as the first of them left it |
| SyncSpec.FirstCorrection | flopsync_v3/flopsync2.cpp:41-48 | the first packet after a reset is corrected for by twice its error, with the older controller by eleven eighths |
| SyncSpec.WindowBounded | flopsync_v3/flopsync2.cpp:82-103 | in every state reached by packets and losses the window is between its bounds and fits its byte; a loss never shrinks it |
| Synchronizer.Synchronizer.ComputeCorrection | flopsync_v3/flopsync2.cpp:38-90 | one packet: start, control law, window update; the correction returned is the one getClockCorrection will report |
| Synchronizer.Synchronizer.LostPacket | flopsync_v3/flopsync2.cpp:92-104 | one lost packet is a loss of the specification: the window widened 4 or 2 times up to its largest (LossesWiden), the correction that of the state kept |
| Synchronizer.Synchronizer.ControllerFlopsync | flopsync_v3/controller_flopsync.cpp:39-54 | the older control law with its state quantized when the error is zero |
| Synchronizer.Synchronizer.OptimizedRampFlopsync | flopsync_v3/optimized_ramp_flopsync.cpp:54-63 | the third control law |
| Synchronizer.Synchronizer.UpdateWindow | flopsync_v3/flopsync2.cpp:70-87 | the accumulators are those of the samples since the last window, and the eighth sample gives the new window |
| Synchronizer.Synchronizer.SquareRoot | flopsync_v3/flopsync2.cpp:79-81 | the loop computes the three steps; its result plus one, squared, is above 64 times the variance |
| NodeSpec.FirstGoodIff | flopsync_v3/flooder_sync_node.cpp:77-137 | the frame a round accepts is the first good one, if nothing before it is late |
| NodeSpec.RoundHears | flopsync_v3/flooder_sync_node.cpp:77-208 | a good frame with no good or later one before it is heard if and only if it is no later than the window, and then its start and its error are what the node keeps |
| NodeSpec.LossesInARow | flopsync_v3/flooder_sync_node.cpp:180-208 | over rounds in which nothing is heard, any number of them: the window is 4^n (2^n) times what it was or the largest one, n being the losses up to the third in a row; the fourth loses sync and leaves it |
| NodeSpec.CountsOn | flopsync_v3/flooder_sync_node.cpp:53-191 | meanwhile the frames expected are one period plus the unchanged correction apart, and take the place of those measured |
| NodeSpec.HeardAfterLossesIff | flopsync_v3/flooder_sync_node.cpp:88-208 | after n losses in a row the next good frame is heard if and only if it is no later than 4^n (2^n) times the old window, or the largest window, after it is expected |
| NodeSpec.GivesUp | flopsync_v3/flooder_sync_node.cpp:85-187 | the call that loses sync leaves the start of the last frame the receiver looked at |
| NodeSpec.BootedWaits | flopsync_v3/flooder_sync_node.cpp:43-50 | a node that was never synchronized does nothing |
| NodeSpec.ResyncStarts | flopsync_v3/flooder_sync_node.cpp:213-286 | after a resynchronization the next frame is expected one period later, up to the largest window, and corrected for by twice its error |
| NodeSpec.RunAgrees | flopsync_v3/flooder_sync_node.cpp:182-210 | over every run of rounds and resynchronizations, with each of the three controllers, the correction and window the node applies are those its controller reports; that the code keeps them so is FlooderSyncNode.Synchronize and Synchronizer.ComputeCorrection |
| NodeSpec.ErrorFits | flopsync_v3/flooder_sync_node.cpp:195-196 | the error of a frame heard in time fits 32 and 16 bits |
| NodeSpec.FrameMonotone | flopsync_v3/monotonic_clock.cpp:39-54 | localTime never goes back within a frame, for every correction; below minus one period it stands still |
| NodeSpec.FrameEndIff | flopsync_v3/monotonic_clock.cpp:51-54 | localTime at the end of a frame is the start of the next one if and only if the correction is at least minus one period |
| NodeSpec.RoundIsFrame | flopsync_v3/flooder_sync_node.cpp:53 | each call of synchronize moves to the frame the clock expects |
| NodeSpec.ClockMonotoneIff | flopsync_v3/monotonic_clock.cpp:39-54 | over a whole run between resynchronizations the clock is monotonic if and only if no correction is below minus one period |
| FlooderSyncNode.FlooderSyncNode.Listen | flopsync_v3/flooder_sync_node.cpp:77-137 | the receive loop accepts exactly the first good frame that is not preceded by a late one |
| FlooderSyncNode.FlooderSyncNode.Synchronize | flopsync_v3/flooder_sync_node.cpp:48-211 | one call of synchronize is one round: expected time, wait, packet or loss, desynchronization after more than three losses |
| FlooderSyncNode.FlooderSyncNode.Resynchronize | flopsync_v3/flooder_sync_node.cpp:213-286 | waits for the first good frame and starts again from it |
| FlooderSyncNode.FlooderSyncNode.LocalTime | flopsync_v3/monotonic_clock.cpp:39-54 | localTime computed from the synchronizer's correction is the clock of the correction the node applies |
| ClosedLoop.Recurrence | flopsync_v3/flopsync2.cpp:55-64 | in closed loop 512e(k+3) = 576e(k+2) - 216e(k+1) + 27e(k) + 512 D2d - D2r with |D2r| at most 1024; for the third controller 64e(k+3) = 48e(k+2) - 9e(k+1) + 64 D2d - D2r |
| ClosedLoop.FirstOrder | flopsync_v3/flopsync2.cpp:55 | a pole at 3/8 with a bounded disturbance brings a sequence below a fifth of the disturbance, for ever, in at most n frames from less than 2^n above it |
| ClosedLoop.Flopsync2Settles | flopsync_v3/flopsync2.cpp:55-64 | when the skew is constant or a ramp and no packet is lost, the error is within 8 ticks after 56 frames, from any state, and stays there; only the errors of those frames are assumed to fit 16 bits |
| ClosedLoop.OptimizedRampSettles | flopsync_v3/optimized_ramp_flopsync.cpp:54-63 | the same with 5 ticks, after 35 frames |
| ClosedLoop.AdaptiveSettles | flopsync_v3/controller_flopsync.cpp:41-54 | under a constant skew the error of the older controller becomes exactly zero and stays zero, with a bound on when |
| ClosedLoop.MovesDown | flopsync_v3/controller_flopsync.cpp:51-54 | the ranking that shows it: error and quantized state get closer to rest in every round |
| Unquantized.Recurrence | flopsync_v3/flopsync2.cpp:55-57 | the recurrence of the error under the control law of the comment, without rounding |
| Unquantized.FirstOrder | flopsync_v3/flopsync2.cpp:55 | a pole at 3/8 brings a real sequence as close as one likes to a fifth of a bounded disturbance, for ever |
| Unquantized.Converges | flopsync_v3/flopsync2.cpp:55-57 | without rounding, and for a skew that is constant or a ramp from some point on, the error converges to zero |
| Deadbeat.NodeFollows | flopsync_v3/flooder_sync_node.cpp:53-210 | the rounds of a node under a drifting clock are the closed loop, frame by frame, with late frames counted as lost |
| Deadbeat.NodeSettles | flopsync_v3/flooder_sync_node.cpp:53-210 | from a resynchronization on, a node with FLOPSYNC2 that hears every frame expects them to within 8 ticks from 58 rounds after the skew became constant or a ramp; no later frame then comes too late, given only that those before did not and that the smallest window is at least 8 ticks |
| Deadbeat.DeadbeatIff | flopsync_v3/flopsync2.cpp:41-53 | after a reset under a constant skew d the error is zero from the second packet on, whatever is lost later, if and only if the first one was heard (or d is zero); after n losses the first two errors are (n+1)d and -nd |
| Deadbeat.DeadbeatNode | flopsync_v3/flooder_sync_node.cpp:213-286 | the same for a whole node: first error d, then every frame exactly when expected and correction d, as long as no four in a row are lost |
| Deadbeat.DeadbeatInSyncIff | flopsync_v3/flooder_sync_node.cpp:183-192 | such a node falls out of sync if and only if more than three frames in a row are lost |
| TimerSpec.NextTimed | drivers/timer.cpp:173-327 | every step keeps the invariant that the registers and vhtOverflows tell the number of increments |
| TimerSpec.RunTimed | drivers/timer.cpp:173-327 | in every run in which each overflow is serviced before the next one, the invariant holds and no deadline is forgotten |
| TimerSpec.CaptureExactIff | drivers/timer.cpp:189-192 | a capture is reconstructed exactly if and only if it is handled less than one turn of the counter after its edge; later it is one turn off |
| TimerSpec.EventExactIff | drivers/timer.cpp:269-287 | the time stamp of an event is the timer's value at its edge under the same condition |
| TimerSpec.SyncExactIff | drivers/timer.cpp:189-207 | after a synchronization the timer shows the converted RTC time at the RTC edge, under the same condition |
| TimerSpec.DeadlineKeptIff | drivers/timer.cpp:210-238 | a synchronization keeps the value a pending deadline stands for if and only if it is moved, or need not be |
| TimerSpec.MovesIff | drivers/timer.cpp:213-221 | a deadline is moved exactly when it was, and is then, more than 100 increments ahead |
| TimerSpec.RaisedIff | drivers/timer.cpp:255-264 | exactly when the handler ends a wait |
| TimerSpec.NotEarlyIff | drivers/timer.cpp:210-264 | a step lets a wait end early if and only if the handler brings the deadline back into the current turn while a match is pending |
| TimerSpec.NotMissedStep | drivers/timer.cpp:255-264 | a deadline that has come is never forgotten |
| TimerSpec.NeverEarlyIff | drivers/timer.cpp:173-327 | over every run no wait ends early if and only if no interrupt does that |
| TimerWait.ArmDeadline | drivers/timer.cpp:672 | the deadline a call arms stands for the value asked for, whatever base, synchronization point and offset are |
| TimerWait.StandsIff | drivers/timer.cpp:210-238 | over a whole wait the deadline stands for that value throughout if and only if no handler fails to move it where it should |
| TimerWait.WaitEndsInTime | drivers/timer.cpp:669-692 | a wait for a value that ends by its flag ends when the timer shows that value or later, if no handler brought the deadline back or failed to move it: the timer shows the value and the time since the deadline |
| TimerCalls.SyncCall | drivers/timer.cpp:885-912 | syncWithRtc, called at RTC time rtc, returns after the first edge found, which is taken for rtc + 2; with automatic synchronization each later edge found is taken for one period after the one before, and without it the timer stays synchronized to that edge |
| TimerCalls.SyncSeries | drivers/timer.cpp:175-251 | over every run between: which edges are served, for which RTC time, and when the flag the thread waits for is raised |
| TimerCalls.SyncedToEdgeIff | drivers/timer.cpp:175-207 | an edge synchronized to: once the handler ran, the timer shows its RTC time, converted, at the edge, if and only if the handler came less than one turn of the counter later |
| TimerCalls.EventSeenIff | drivers/timer.cpp:695-757 | a wait for a time or an event sees exactly the events whose edge comes after it began and that an interrupt found; a wait for a time sees none |
| TimerCalls.EventStampedIff | drivers/timer.cpp:268-292 | over a run: the event found is stamped with the timer's value at its edge, if and only if the handler was in time |
| TimerCalls.EventOrTime | drivers/timer.cpp:727-735 | a wait for a time or an event is not taken for one that ran out if the timer showed no later time at the event's edge, and otherwise if and only if the time came too |
| TimerCalls.WaitLeavesIdle | drivers/timer.cpp:669-757 | a wait, with or without an event, leaves no channel enabled and no flag up, whatever happens during it |
| TimerCalls.TimeOnly | drivers/timer.cpp:669-693 | a wait for a time leaves the event channel as it was, and its flag to whom it is for |
| TimerCalls.FireLeavesIdle | drivers/timer.cpp:786-822 | neither does a call that waits for the pin |
| TimerCalls.StartedIdle | drivers/timer.cpp:40-56 | a timer just started shows 0 and nobody waits |
| TimerCalls.TurnPrompt | drivers/timer.cpp:323-327 | one interrupt in every turn of the counter is enough for no overflow to be lost |
| TimerSpec.WaitsIff | drivers/timer.cpp:672-678 | a wait for a past time returns at once if and only if the time is not before the counter was started |
| TimerRuns.EarlyExample | drivers/timer.cpp:210-264 | a run from the start, first synchronization included, in which the next one, two increments early, ends a wait 65531 increments before its deadline |
| TimerRuns.WaitsExample | drivers/timer.cpp:672-678 | a run from the start, a synchronization two RTC ticks long, after which the timer shows 5859 and a wait for 100 waits |
| TimerPin.TriggerExactIff | drivers/timer.cpp:786-822 | when a call of absoluteWaitTrigger ends, the pin rose exactly at the deadline if and only if the last synchronization that changed the deadline or the channel during the call left it in reach, or, if there was none, the deadline was ahead when the call began but not by just one turn of the counter |
| TimerPin.OnTimeIff | drivers/timer.cpp:210-315 | one step changes whether the pin will rise in time only if the handler's synchronization changes the deadline or the channel, and then the registers say which way |
| TimerPin.FireOnTimeIff | drivers/timer.cpp:790-809 | when a call sets up the channel so that the pin will rise at the deadline |
| TimerPin.FireValue | drivers/timer.cpp:790 | the pin's edge, delay_oc ticks after the match, comes when the timer shows the value asked for |
| TimerPin.CountsMatch | drivers/timer.cpp:299-301 | remainingSlot is the number of turns from the match served to the deadline |
| TimerPin.OneTurnMissed | drivers/timer.cpp:795-809 | with the deadline exactly one turn ahead the pin never rises, as long as no synchronization changes the deadline or the channel |
| TimerRuns.OneTurnExample | drivers/timer.cpp:795-809 | such a call as a run from the start, with automatic synchronization off: it ends at the deadline without a pulse |
| TimerRuns.RepairedExample | drivers/timer.cpp:226-233 | the same call with automatic synchronization on: the next synchronization sets the pin to rise, and it rises at the deadline |
| TimerRuns.SpoiledExample | drivers/timer.cpp:210-315 | the run of EarlyExample with absoluteWaitTrigger in place of the wait: the call ends 65531 increments early, without a pulse |
| TimerSpec.ValueSet | drivers/timer.cpp:649-662 | setting the timer makes the next reading the value set |
| TimerSpec.ConvertBack | drivers/timer.cpp:202-206 | RTC ticks converted to VHT ticks and back are unchanged |
| TimerSpec.SleepError | drivers/timer.cpp:834-838 | the RTC time slept to is within half an RTC tick of the time asked for |
| VirtualTimer.VHT.Handler | drivers/timer.cpp:173-327 | the handler, channel by channel, is the step of the machine |
| VirtualTimer.VHT.SyncChannel | drivers/timer.cpp:175-251 | capture of the RTC edge, new base and synchronization point, deadline of either channel, next alarm |
| VirtualTimer.VHT.MoveDeadline | drivers/timer.cpp:210-238 | the deadline is moved exactly when old and new one are more than 100 ticks ahead, with the registers of channels 2 and 4, and the pin set to rise if the new one is less than a turn ahead |
| VirtualTimer.VHT.NewSyncPoint | drivers/timer.cpp:178-207 | the time of the edge, corrected for an overflow, and the base |
| VirtualTimer.VHT.WaitChannel | drivers/timer.cpp:254-266 | the end of a wait |
| VirtualTimer.VHT.EventChannel | drivers/timer.cpp:268-292 | the time stamp of an event |
| VirtualTimer.VHT.TriggerChannel | drivers/timer.cpp:294-321 | the end of a call that waits for the pin, or the pin set to rise at the next match |
| VirtualTimer.VHT.AbsoluteWaitTrigger | drivers/timer.cpp:786-810 | the channel armed, the pin set to rise or the call given up, and whether the thread waits |
| VirtualTimer.VHT.EndWaitTrigger | drivers/timer.cpp:820-821 | the end of absoluteWaitTrigger |
| VirtualTimer.VHT.GetValue | drivers/timer.cpp:649-653 | the value read is the timer's value now |
| VirtualTimer.VHT.SetValue | drivers/timer.cpp:655-662 | the offset set |
| VirtualTimer.VHT.AbsoluteWait | drivers/timer.cpp:669-678 | the deadline armed, and whether the thread waits |
| VirtualTimer.VHT.AbsoluteWaitTimeoutOrEvent | drivers/timer.cpp:695-726 | both channels armed, or that of the event alone for the value 0, and whether the thread waits |
| VirtualTimer.VHT.EndWaitTimeoutOrEvent | drivers/timer.cpp:726-757 | both channels disabled, and whether the wait ran out |
| VirtualTimer.VHT.SyncWithRtc | drivers/timer.cpp:885-902 | the first edge and the alarm for it, two RTC ticks ahead |
| VirtualTimer.VHT.EndSyncWithRtc | drivers/timer.cpp:910-911 | the end of syncWithRtc |
| RtcTimer.ReadsBehind | drivers/timer.cpp:66-74 | every reading of the software extended counter is behind the true time by exactly the full wraps no read fell into |
| RtcTimer.ReadsExactIff | drivers/timer.cpp:66-74 | all readings are right if and only if reads are always less than a wrap apart |
| RtcTimer.SetExactIff | drivers/timer.cpp:357-365 | the exact condition for the first reading after setValue to be right, on both boards |
| RtcTimer.SetExample | drivers/timer.cpp:357-365 | setting the clock to 10 after a reading of 100 makes it jump a wrap ahead |
| RtcTimer.Rtc.Get64bit | drivers/timer.cpp:1014-1020 | one read |
| RtcTimer.Rtc.SetValue | drivers/timer.cpp:1279-1293 | setting the clock |
| PoolSpec.AllocateOk | miosix/kernel/process_pool.cpp:54-86 | an invalid size is refused; bad_alloc if and only if no aligned free run exists; a block handed out is aligned to its size, in the pool, and disjoint from every live block |
| PoolSpec.RefusedIff | miosix/kernel/process_pool.cpp:60-61 | the sizes refused are all but the powers of two from one block to the whole pool |
| PoolSpec.FindIff | miosix/kernel/process_pool.cpp:63-84 | with the memory behind the bitmap reading as occupied the scan finds the first aligned free run of the pool, and fails exactly when there is none |
| PoolSpec.LeavesPoolIff | miosix/kernel/process_pool.cpp:69 | without that, the exact condition under which the scan leaves the pool |
| PoolSpec.LeavesPoolExample | miosix/kernel/process_pool.cpp:69 | a full pool that hands out the block after its end |
| PoolSpec.TakenValid | miosix/kernel/process_pool.cpp:80-83 | handing out a block keeps live blocks disjoint and the bitmap exactly their union |
| PoolSpec.GivenValid | miosix/kernel/process_pool.cpp:93-99 | giving one back keeps that too |
| PoolSpec.GiveBackUndoes | miosix/kernel/process_pool.cpp:88-100 | deallocate undoes allocate to the bit |
| PoolSpec.Run | miosix/kernel/process_pool.cpp:54-100 | over every run: live blocks aligned, in the pool and disjoint; the bitmap is exactly their union |
| ProcessPool.ProcessPool.Allocate | miosix/kernel/process_pool.cpp:54-86 | the nested scan over the words in place gives the result and the state of the specification |
| ProcessPool.ProcessPool.Search | miosix/kernel/process_pool.cpp:63-78 | the scan |
| ProcessPool.ProcessPool.TestRun | miosix/kernel/process_pool.cpp:71-78 | whether a run of bits is free |
| ProcessPool.ProcessPool.Deallocate | miosix/kernel/process_pool.cpp:88-100 | refuses addresses that are not live; otherwise clears exactly the bits of the block |
| ProcessPool.ProcessPool.SetBit | miosix/kernel/process_pool.h:144-148 | sets one bit of the bitmap and no other |
| ProcessPool.ProcessPool.ClearBit | miosix/kernel/process_pool.h:153-157 | clears one bit and no other |
| Ftsp.HoldsNext | flopsync_v3/ftsp.cpp:52-61 | the ring holds the last eight samples, oldest at the write index once it is full |
| Ftsp.DenominatorIff | flopsync_v3/ftsp.cpp:93 | the denominator is never negative, and positive if and only if there are two distinct local times, whatever the base |
| Ftsp.RegressionExact | flopsync_v3/ftsp.cpp:92-94 | on samples of one clock the regression finds its skew and offset exactly, whatever the base |
| Ftsp.RingExact | flopsync_v3/ftsp.cpp:78-94 | the same for the samples in the ring |
| Ftsp.ToLocalInverts | flopsync_v3/ftsp.cpp:115-122 | the conversion to local time is the one inverse of the clock map, for every skew but 1 |
| Ftsp.FTSP.Timestamps | flopsync_v3/ftsp.cpp:49-68 | how late the packet came, then one sample more, the oldest of eight lost |
| Ftsp.FTSP.Measure | flopsync_v3/ftsp.cpp:43-47 | the difference between the local time and the one predicted from the fitted line |
| Ftsp.OffsetIff | flopsync_v3/ftsp.cpp:43-47 | the prediction is exact if and only if the packet is on the clock the line and the last packet give; otherwise the measure is less than a tick from the true lateness |
| Ftsp.FTSP.ComputeCorrection | flopsync_v3/ftsp.cpp:72-94 | the loop and the divisions give the regression line of the samples in use, if and only if they were not all taken at one local time; otherwise the quotient by zero is anything |
| BarraLed.DecodeCorrects | drivers/BarraLed.h:34-98 | for every packet length every number is decoded as itself, and after any change to one nibble as itself or a neighbour |
| BarraLed.DecodedIff | drivers/BarraLed.h:96-97 | a packet is rejected if and only if somewhere two nibbles in a row that are not zero lie more than 4 behind two that are not all ones; otherwise the number is the middle between the first of these and the last of those |
| BarraLed.BarBytesIff | drivers/BarraLed.h:34-45 | a packet is a bar of n nibbles if and only if n / 2 bytes are 0xff, the next one 0xf0 for an odd n, and the others zero |
| BarraLed.ClampClosest | drivers/BarraLed.h:38 | a number that does not fit is sent as the closest one that does |
| BarraLed.DamagedEnds | drivers/BarraLed.h:55-91 | where both scans end when one nibble was changed |
| BarraLed.BarraLed.Encode | drivers/BarraLed.h:34-45 | the packet is a bar of the number clamped to the packet |
| BarraLed.BarraLed.Decode | drivers/BarraLed.h:47-98 | the two loops find both ends of the bar |
| BarraLed.BarraLed.FromLeft | drivers/BarraLed.h:55-72 | the scan from the left ends before the first two nibbles in a row that are not all ones |
| BarraLed.BarraLed.FromRight | drivers/BarraLed.h:74-91 | the scan from the right ends behind the last two that are not zero |
| Crc16.Update | miosix/util/crc16.cpp:13-18 | the byte update equals eight shift-and-xor steps with the generator of section 2 of ITU-T V.41 |
| Crc16.Crc16 | miosix/util/crc16.cpp:20-26 | the CRC of every message is the bitwise one with initial value 0xffff |
| Crc16.AppendIff | miosix/util/crc16.cpp:13-26 | a message with two more bytes has CRC zero if and only if they are its CRC, big endian |
| Crc16.Linear | miosix/util/crc16.cpp:13-18 | the update is linear |
| Crc16.TailKeeps | miosix/util/crc16.cpp:20-26 | no tail hides a difference |
| Crc16.BurstDetected | miosix/util/crc16.cpp:13-26 | every burst of at most 16 wrong bits, anywhere in a message of any length, one or two bytes included, changes the CRC |
| FastMutexSpec.NextInv | miosix/kernel/pthread_private.h:42-223 | every stretch of code run with interrupts disabled keeps the invariant of mutex, queue, condition list and flags |
| FastMutexSpec.FifoHandOver | miosix/kernel/pthread_private.h:42-185 | in every interleaving: a free mutex has an empty queue, the owner is not queued and not kept waiting, nobody is queued twice, and grants follow arrivals |
| FastMutexSpec.WaitReturnsAtDepth | miosix/kernel/sync.cpp:403-427 | a thread that waits on a condition variable owns the mutex again, at the recursion depth it had, when wait returns, whatever the others do |
| FastMutexRuns.StepWakes | miosix/kernel/sync.cpp:429-468 | a signal wakes exactly one thread whenever one waits, the one that began to wait first, a broadcast all of them, and nothing else wakes anybody |
| FastMutexRuns.FifoWakeup | miosix/kernel/sync.cpp:403-468 | in every interleaving the threads woken are the first of those that began to wait, in that order |
| FastMutexRuns.WokenIff | miosix/kernel/sync.cpp:403-468 | a wait behind k others is ended by signal k + 1 or the first broadcast, and by nothing before |
| FastMutexRuns.SignalledIff | miosix/kernel/sync.cpp:419-442 | the thread is kept from running until then, and from then on runs to lock the mutex again |
| FastMutexRuns.StepGrants | miosix/kernel/pthread_private.h:42-185 | the mutex changes hands exactly when it is given up, or free and asked for; it goes to the thread that asked first, one level deep |
| FastMutexRuns.GrantedIff | miosix/kernel/pthread_private.h:79-183 | a thread that asks behind the owner and k others is granted the mutex by release k + 1, and not before |
| FastMutexRuns.LockedIff | miosix/kernel/pthread_private.h:79-87 | until then it is queued; from then on it runs and owns the mutex, until lock returns |
| FastMutexRuns.SleepsIff | miosix/kernel/pthread_private.h:79-87 | woken for no reason, a queued thread goes back to sleep when it has looked, and does not run otherwise |
| FastMutexRuns.KeptWhileDeep | miosix/kernel/pthread_private.h:49-52 | the owner keeps the mutex, whatever the others do, as long as it does not wait and has made no more unlocks than locks; its depth is their difference |
| FastMutexRuns.UnlockReleasesIff | miosix/kernel/pthread_private.h:159-183 | an unlock gives the mutex up if and only if it balances the locks, and then to the thread that asked first |
| FastMutexSpec.PlaceKept | miosix/kernel/pthread_private.h:79-87 | no other thread changes where a thread is; it leaves lock and wait only as the owner |
| FastMutex.PthreadMutex.Lock | miosix/kernel/pthread_private.h:42-74 | the linked queue and the fields after the lock path are those of the machine; a second lock of a mutex that is not recursive by its owner changes nothing and is reported |
| FastMutex.PthreadMutex.Resume | miosix/kernel/pthread_private.h:79-87 | one turn of the waiting loop |
| FastMutex.PthreadMutex.Unlock | miosix/kernel/pthread_private.h:157-185 | depth, hand-over to the first in the queue, or free |
| FastMutex.PthreadMutex.UnlockAllDepthLevels | miosix/kernel/pthread_private.h:196-223 | hand-over at any depth, and the depth returned |
| FastMutex.PthreadMutex.LockToDepth | miosix/kernel/pthread_private.h:100-133 | lock to a depth up to the wait |
| FastMutex.ConditionVariable.Wait | miosix/kernel/sync.cpp:403-421 | enters the list and gives the mutex up in one stretch |
| FastMutex.ConditionVariable.SignalOne | miosix/kernel/sync.cpp:429-445 | wakes the first in the list |
| FastMutex.ConditionVariable.BroadcastAll | miosix/kernel/sync.cpp:450-468 | wakes all, and empties the list |
| SleepingList.WokenExactly | miosix/kernel/kernel.cpp:233-278 | a sleeper is in the list up to the tick equal to its time and not from it on: none is skipped by the equality test, none is woken early |
| SleepingList.InsertOk | miosix/kernel/kernel.cpp:233-253 | insertion keeps the list sorted and adds exactly one sleeper |
| SleepingList.TickOk | miosix/kernel/kernel.cpp:263-278 | a tick removes exactly the sleepers whose time it is |
| SleepingList.SleepLengthIff | miosix/kernel/kernel.cpp:353-355 | a sleep lasts as long as asked if and only if milliseconds times tick rate fits 32 bits |
| SleepingList.SleepsFor | miosix/kernel/kernel.cpp:344-357 | a thread that calls sleep is asleep until exactly as many ticks have passed as were asked for in 32 bit arithmetic, at least one; not at all for no time |
| SleepingList.SleepsUntil | miosix/kernel/kernel.cpp:361-372 | a thread that calls sleepUntil is asleep exactly until the tick is the time asked for |
| SleepingList.Kernel.AddToSleepingList | miosix/kernel/kernel.cpp:233-253 | the linked insertion is the insertion of the specification |
| SleepingList.Kernel.WakeThreads | miosix/kernel/kernel.cpp:263-278 | the tick, the list and the sleep flags after it |
| SleepingList.Kernel.Sleep | miosix/kernel/kernel.cpp:344-357 | sleep, up to giving the processor away |
| SleepingList.Kernel.SleepUntil | miosix/kernel/kernel.cpp:361-372 | sleepUntil, which returns at once for a time that has passed |
| KernelMutex.Thread.PKsetPriority | miosix/kernel/sync.cpp:89 | sets one priority; only the heap the thread waits in may have to be repaired |
| KernelMutex.Thread.SetSaved | miosix/kernel/kernel.cpp:406 | sets one saved priority |
| KernelMutex.Mutex.Reheap | miosix/kernel/sync.cpp:91-92 | repairs the vector of this mutex and nothing else |
| KernelMutex.Mutex.SetOwner | miosix/kernel/sync.cpp:284 | sets or clears the owner of a mutex that is in no list |
| KernelMutex.Mutex.PushOnList | miosix/kernel/sync.cpp:59-60 | puts this mutex in front of its owner's list |
| KernelMutex.Mutex.TakeBy | miosix/kernel/sync.cpp:54-60 | the new owner, its saved priority if this is its first mutex, and its list |
| KernelMutex.Mutex.Acquire1 | miosix/kernel/sync.cpp:52-62 | taking a free mutex is the protocol's step |
| KernelMutex.Mutex.Enqueue | miosix/kernel/sync.cpp:77-83 | the waiting thread enters the heap and mutexWaiting |
| KernelMutex.Mutex.Dequeue | miosix/kernel/sync.cpp:267-272 | the highest waiter leaves the heap and mutexWaiting |
| KernelMutex.Mutex.QueueOn | miosix/kernel/sync.cpp:76-95 | queueing with the walk is the protocol's step, or closes a circle of owners |
| KernelMutex.Mutex.EnqueueAndLend | miosix/kernel/sync.cpp:76-95 | the vector of waiters, mutexWaiting and the priorities after queueing, with the walk only if the caller is above the owner |
| KernelMutex.Kernel.constructor | miosix/kernel/sync.cpp:43-46 | a system of threads that hold nothing and mutexes nobody holds is consistent, and exact: where every run begins |
| KernelMutex.Kernel.CycleCloses | miosix/kernel/sync.cpp:81-94 | queueing a thread the chain leads back to leaves a chain that does not end |
| KernelMutex.Mutex.SetDepth | miosix/kernel/sync.cpp:137-141 | a lock to a depth by the owner is the protocol's step |
| KernelMutex.Mutex.LowerDepth | miosix/kernel/sync.cpp:218-222 | unlocking one level is the protocol's step |
| KernelMutex.Mutex.GiveUp | miosix/kernel/sync.cpp:224-287 | the part unlock and unlock of all levels share is the release of the protocol, up to the depth |
| KernelMutex.Mutex.ResetDepth | miosix/kernel/sync.cpp:362-365 | the depth returned and reset |
| KernelMutex.SiftDownStep | miosix/kernel/sync.cpp:91-92 | one exchange on the way down leaves one position fewer to repair |
| PathSpec.MountDepth | miosix/filesystem/file_access.cpp:470-493 | the deepest mount point on a stack of components |
| PathSpec.StepClean | miosix/filesystem/file_access.cpp:342-364 | one component keeps the stack free of empty, "." and ".." components |
| PathSpec.DepthAfterUpIff | miosix/filesystem/file_access.cpp:470-493 | when the search after a final ".." finds the deepest filesystem |
| Synchronizer.Synchronizer.constructor | flopsync_v3/flopsync2.cpp:36 | a new controller |
| Synchronizer.Synchronizer.Reset | flopsync_v3/flopsync2.cpp:106-111 | the state after a resynchronization |
| Synchronizer.Synchronizer.GetClockCorrection | flopsync_v3/flopsync2.cpp:113-119 | the state rounded to the closest whole correction |
| Synchronizer.Synchronizer.FirstPacket | flopsync_v3/flopsync2.cpp:43-48 | the first packet is corrected for by twice its error |
| Synchronizer.Synchronizer.SettleState | flopsync_v3/flopsync2.cpp:49-52 | the first round after it |
| Synchronizer.Synchronizer.FLOPSYNC2 | flopsync_v3/flopsync2.cpp:55-64 | the control law and its rounding |
| Synchronizer.Synchronizer.WindowSize | flopsync_v3/flopsync2.cpp:76-85 | the window computed from the accumulators is that of the eight samples |
| FlooderSyncNode.FlooderSyncNode.constructor | flopsync_v3/flooder_sync_node.cpp:43-46 | a new node is not in sync |
| NodeSpec.NextAgrees | flopsync_v3/flooder_sync_node.cpp:182-210 | one round or resynchronization keeps the agreement (for the code: FlooderSyncNode.Synchronize) |
| VirtualTimer.VHT.constructor | drivers/timer.cpp:40-56 | the timer as it starts |
| VirtualTimer.VHT.Convert | drivers/timer.cpp:202-206 | the conversion, rounded to the nearest |
| VirtualTimer.VHT.Overflow | drivers/timer.cpp:323-327 | the overflow counted |
| VirtualTimer.VHT.EndWait | drivers/timer.cpp:691-692 | the end of absoluteWait |
| ProcessPool.ProcessPool.constructor | miosix/kernel/process_pool.cpp:102-108 | the bitmap is cleared, what follows it is left as it is |
| ProcessPool.ProcessPool.TestBit | miosix/kernel/process_pool.h:135-139 | one bit read |
| ProcessPool.ProcessPool.SetRun | miosix/kernel/process_pool.cpp:80 | a run of bits set |
| ProcessPool.ProcessPool.ClearRun | miosix/kernel/process_pool.cpp:98 | a run of bits cleared |
| ProcessPool.ProcessPool.Take | miosix/kernel/process_pool.cpp:59-85 | the result and the new state, whatever the memory behind the bitmap |
| ProcessPool.ProcessPool.IsPowerOfTwo | miosix/kernel/process_pool.cpp:60 | which sizes are powers of two |
| Ftsp.FTSP.Store | flopsync_v3/ftsp.cpp:52-61 | the ring, its base and the number of samples in use after one more sample |
| Ftsp.FTSP.Sums | flopsync_v3/ftsp.cpp:78-91 | the four sums |
| Ftsp.FTSP.Fit | flopsync_v3/ftsp.cpp:92-94 | the slope and the intercept |
| Ftsp.FTSP.Reset | flopsync_v3/ftsp.cpp:105-113 | no samples are left |
| FastMutex.PthreadMutex.Enqueue | miosix/kernel/pthread_private.h:64-74 | the calling thread is the last of the queue |
| FastMutex.PthreadMutex.GiveToFirst | miosix/kernel/pthread_private.h:170-183 | hand-over |
| FastMutex.ConditionVariable.Enqueue | miosix/kernel/sync.cpp:407-417 | the calling thread is the last of the list |
| SleepingList.Kernel.Before | miosix/kernel/kernel.cpp:241-250 | the search for the place |
| SleepingList.Kernel.LinkAfter | miosix/kernel/kernel.cpp:246-247 | the element is linked there |
| SleepingList.Kernel.WakeDue | miosix/kernel/kernel.cpp:267-276 | all that are due are woken, from the front |
| SleepingList.Kernel.WakeOne | miosix/kernel/kernel.cpp:273-274 | one is woken |
| SleepingList.Place | miosix/kernel/kernel.cpp:236-250 | where a new sleeper goes: behind all that are woken before it |

## Left out

- Waiting and waking of threads: a method ends where its thread waits; `PKwakeup`, `IRQwait` and `yield` are not
  modelled except as the flags of the fast mutex and the sleeping list, and `PKsetPriority` only sets the field.
- `errorHandler` is the end of the operation: a deadlock of a thread with itself is an outcome, the unreachable
  "UNEXPECTED" checks are proved not to fire, and an invalid priority passed to `setPriority` is not modelled.
- The EDF scheduler, where priorities are deadlines and `setPriority` also yields.
- `Mutex` with `ConditionVariable` (`sync.cpp` lines 374-401): the condition variable is modelled with the fast mutex.
- `StringPart` as a self-contained copy (copy construction, assignment), of a constant string, and of a C++ string,
  where the terminator itself is never written; path resolution uses strings without NUL characters, cut without
  borrowing.
- StringPart.StringPart.OfPart: only for parts of a string that may be written; a constant one is copied.
- StringPart.StringPart.Clear: only for such parts; copies and C++ strings are not borrowed from.
- Concrete filesystems: what they answer to `lstat` and `readlink` is a function of the filesystem and the path, the
  same whenever it is asked.
- KernelMutex.Mutex.PKlock: a call that closes a circle of owners and lends its priority is excluded, since it never
  returns (`PriorityInheritance.WalkEndless`); one that only waits in the circle is covered.
- KernelMutex.Mutex.PKlockToDepth: the same.
- KernelMutex.Mutex.QueueOn: the same. After a circle is closed nothing is said about later operations.
- Wrap-around of 64 bit times and of the controllers' 32 bit state; the 16 and 32 bit conversions of the error are
  modelled, and the 64 bit deadlines of the timer.
- NodeSpec.ErrorFits: that the receiver is on only shortly before its window is taken from the radio, as `guard`.
- Builds with VHT windows (`scaleFactor` above 1), `SEND_TIMESTAMPS` in the flooder, `GLOSSY` and `SYNC_BY_WIRE`; the
  hop count is constant, and the rebroadcast is hardware.
- Deadbeat.NodeSettles: for FLOPSYNC2 only, and with every frame heard.
- VirtualTimer.VHT.AbsoluteWait: threads wait on the timer one at a time, since it has one deadline and one waiting
  thread; reading the counter and its overflow flag is one step, and a match is when the counter becomes equal to the
  register. The same holds of AbsoluteWaitTrigger.
- `enableAutoSyncWhitRtc`, `setAutoSyncWhitRtcPeriod` and `disableAutoSyncWithRtc`; whether synchronization stays on is
  decided when `syncWithRtc` ends.
- The pins of the timer other than that of channel 4, and its second implementation (lines 990 and following).
- TimerSpec.ConvertBack: the product of RTC ticks and the VHT frequency is not bounded by 64 bits.
- The globalTime of the monotonic clock, which the source does not implement.
- Ftsp.FTSP.Timestamps: real numbers take the place of `long double`, and a negative prediction is rounded down where
  the conversion to an unsigned integer is undefined.
- ProcessPool.ProcessPool.IsPowerOfTwo: the test `size & (size - 1)` is a loop that halves, and words are their bits.
- The radio, SPI, GPIO and power drivers, the ELF loader, the process table, deep sleep and context switch.
