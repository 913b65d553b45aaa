# xv6 with software RAID: a Dafny model

This project models the parts of a RISC-V xv6 kernel, extended with a software RAID layer, whose
correctness is hard to see from the code, and proves what they are for. Sizes (disks, blocks per disk,
buffers, processes, memory pages) are symbolic unless the code fixes them; so are `LOGSIZE` and
`MAXOPBLOCKS` of kernel/param.h, for which the log's theorems hold whatever their values.

Code that works on values is written as functions, code that updates state in place as classes and
loops. Each such method is proved against a function or relation on values, and the properties are
proved of that: over whole runs, over every interleaving, or over every crash point.

| files | part of the system |
|---|---|
| `Blocks`, `Words` | disk blocks, exclusive or, little-endian words and bits in a block |
| `RaidAddress`, `RaidSuper`, `RaidModel`, `RaidParity`, `RaidMirror`, `RaidConcurrent`, `RaidDevice` | kernel/raid.c |
| `BufferCache` | kernel/bio.c |
| `LogHeader`, `LogCrash`, `LogDisk`, `LogHistory`, `LogAdmission`, `LogCache`, `RedoLog`, `LogRuns`, `LogTurns`, `LogSeats`, `LogReaders` | kernel/log.c |
| `FsState`, `FsFiles`, `FsBudget`, `FileSystem` | the block and file layer of kernel/fs.c |
| `FsLog` | the file layer over the log |
| `PageTable`, `PageSteps`, `PageMemory`, `PageFree`, `VirtualMemory`, `UserCopy` | kernel/vm.c and kernel/kalloc.c |
| `HeapModel`, `UserMalloc` | user/umalloc.c |
| `SleepLock` | kernel/sleeplock.c over sleep, wakeup and kill of kernel/proc.c |
| `Shell`, `ShellRoundTrip`, `ShellParser` | the parser of user/sh.c |
| `Grep` | the matcher of user/grep.c |

Where the code does not do what it is meant to, the model keeps the code's behaviour, shows an input
on which it fails, and proves the exact condition under which it succeeds:

- Parity recovery of disk r reads disk 0, which is outside the array, and skips disk r-1, unless r is 1
  (`RaidParity.VisitedSet`). A row comes back exactly when those two disks agree in it
  (`RaidParity.RepairRestoresRowIff`); `RaidParity.RepairOfDiskTwoLosesData` is a run in which a written
  block does not.
- The bound check accepts `max_blknum` itself, one block too many under RAID0, RAID1 and RAID0+1
  (`RaidAddress.BoundCheck`). Under RAID1 with an odd number of disks that write destroys the mirror of
  block 0 (`RaidMirror.MaxBlockOverwritesMirror`, and as a run `RaidMirror.MaxBlockBreaksRun`); safety is
  proved for runs without that one write in those arrays, and for runs with any writes in every other
  mirrored array (`RaidMirror.MirroredSafety`).
- Repair of the last primary of a mirrored array is always refused (`RaidMirror.RepairSucceedsIff`).
- Repair takes the level and the disk count from block 0 of the failed disk itself. Whatever the data, it does
  what the array needs exactly when that block gives the plan that the array's own geometry gives
  (`RaidParity.RepairAsWantedIff`), or, for mirrored arrays, a safe one (`RaidMirror.RepairSafeIff`). A parity
  disk that comes back with a blank block 0 is refused for good (`RaidParity.LostSuperblockRefused`); a
  mirrored disk that comes back with an unknown level is declared repaired as it is
  (`RaidMirror.LostSuperblockBreaksRun`). Survival over runs is proved for failures that leave block 0
  (`RaidParity.DiskOneSurvives`, `RaidMirror.LabelledSafety`), and for all others in which each repair
  follows a right plan (`RaidParity.Survival`, `RaidMirror.MirroredSafety`).
- RAID4 and RAID5 accept a single disk, with no room for data (`RaidAddress.InitUsability`).
- A commit whose transaction pins every buffer of the cache cannot get a buffer for the log block
  (`RedoLog.Log.Commit`, `LogCache.FreeBufferIff`). kernel/param.h gives the cache just `LOGSIZE` buffers,
  and operations within their limits can fill the log (`LogAdmission.FullLogReachable`):
  `LogRuns.FullLogPanics` is such a run, ending in the "no buffers" panic. One buffer more than `LOGSIZE`
  makes every commit go through that finds nobody holding a buffer (`RedoLog.Log.EndOp`).
- A commit that readers of listed blocks keep waiting need not finish though each of them lets go
  (`LogTurns.Starves`). It finishes exactly when it has been let through for as many steps as it has
  (`LogReaders.EndOpAmongReaders`), for which it is enough that as many of its turns find no listed block
  locked (`LogTurns.Finishes`, `LogTurns.OnceLetGo`).
- malloc hands sbrk a byte count as an int. A request of 2 to the 27 units or more is asked for as a negative
  number, and the two largest as 0 and as 16 bytes (`UserMalloc.LargeRequests`). malloc goes wrong there
  exactly when no free block is large enough (`UserMalloc.Allocator.Malloc`).

## Model

| member | source | states |
|---|---|---|
| RaidAddress.SlotIsInvertible | kernel/raid.c:209-290 | at every level, every logical block below the capacity is placed in a data slot in rows 1..blocks-1, never on the row's parity disk, and the slot determines the block |
| RaidAddress.SlotIsOnto | kernel/raid.c:209-290 | every data slot is the place of exactly one logical block below the capacity: with the row above, each level's map is a bijection |
| RaidAddress.SlotsAreDistinct | kernel/raid.c:209-290 | two logical blocks never share a slot |
| RaidAddress.ParityRotates | kernel/raid.c:285-290 | RAID5 parity is on each disk exactly once in any numDisks+1 consecutive rows |
| RaidAddress.InitUsability | kernel/raid.c:423-481 | for which disk counts initialisation yields a usable array, in both directions, and that one disk under RAID4/5 is accepted with no data disk |
| RaidAddress.CapacityOf | kernel/raid.c:436-467 | the stored maximum block number in terms of data disks and rows, for every level |
| RaidAddress.BoundCheck | kernel/raid.c:483-494 | an accepted block number has a data slot if and only if the level has parity or the number is below the maximum |
| RaidSuper.LabelRoundTrip | kernel/raid.h:26-35 | the superblock that init writes over any block reads back, field by field, in its 32-bit words |
| RaidModel.ParitySlotFacts | kernel/raid.c:242-327 | under RAID4/5 every accepted block and its parity are inside the array, on different disks |
| RaidModel.CarriedPlan | kernel/raid.c:560-568 | a failed disk that still has the superblock is recovered by the plan the array's own geometry gives |
| RaidModel.WantedPlan | kernel/raid.c:394-421 | that plan at each level: refused, copy of the partner if it is healthy, or the exclusive or of the visited disks unless two disks are out or the disk is RAID4's parity disk |
| RaidParity.ParityMeansReconstructed | kernel/raid.c:185-197 | a row's parity holds if and only if any one disk equals the exclusive or of the others |
| RaidParity.VisitedSet | kernel/raid.c:369-391 | recovery of disk r visits exactly the disks 0..N except r and r-1, in the stated order; a lone disk visits disk 0 |
| RaidParity.RecoveredBlock | kernel/raid.c:369-391 | the recovered block is the one the array determines if and only if recovery is sound for the row: r is 1 of several disks, or disks 0 and r-1 agree in it, or a lone disk is matched by disk 0 |
| RaidParity.PairUpdateConserves | kernel/raid.c:185-197 | replacing a data block and its parity together keeps the exclusive or of the row |
| RaidParity.WriteKeepsRowXor | kernel/raid.c:242-327 | a RAID4/5 write changes no row's exclusive or |
| RaidParity.RepairOfSingleFailure | kernel/raid.c:542-576 | with one failed disk, repair follows the plan read from that disk's block 0, and the array after it whether the plan refuses or not; the plan wanted; the two are the same if the superblock is still there |
| RaidParity.RepairRestoresRowIff | kernel/raid.c:394-421 | after a repair by whatever plan block 0 gave, parity of a row and the lost block are right if and only if that plan restores the row |
| RaidParity.RepairAsWantedIff | kernel/raid.c:560-568 | whatever the data, repair does what the array wants if and only if the plan read from block 0 of the failed disk is the one the array's geometry gives |
| RaidParity.LostSuperblockRefused | kernel/raid.c:560-570 | a failed disk whose block 0 is blank, or says RAID0, is refused now and ever after, in every parity array |
| RaidParity.StepKeeps | kernel/raid.c:483-576 | every write, read, failure with any loss, block 0 included, and repair that restores every row or is refused keeps: at most one disk out, every recorded block in place or recoverable from the others, parity everywhere when none is out |
| RaidParity.Survival | kernel/raid.c:242-327 | over any run with one failure at a time, each losing anything, and repairs that restore every row or are refused, every block of the array reads back its last successful write, or what it held at the start, unless its own disk is out, and parity holds whenever no disk is out |
| RaidParity.DiskOneRunsAreAllowed | kernel/raid.c:369-391 | runs in which only disk 1 fails, and it keeps its superblock, need no condition on repair |
| RaidParity.DiskOneSurvives | kernel/raid.c:369-391 | over any run of writes, failures of disk 1 that lose anything but its superblock, and repairs, ended by a repair of disk 1, every block of the array reads back its last write, or what it held at the start, and every row's parity holds |
| RaidParity.RepairOfDiskTwoLosesData | kernel/raid.c:376-381 | a run in which a successful write is lost by a successful repair of disk 2 |
| RaidMirror.WriteReachesPair | kernel/raid.c:134-182 | a mirrored write succeeds if and only if a disk of the pair is healthy, and then every healthy disk of the pair holds it |
| RaidMirror.RepairSucceedsIff | kernel/raid.c:394-421 | mirror repair follows the plan read from block 0 of the failed disk; where that is the array's own plan, as it is while the superblock is there, it succeeds if and only if the partner is healthy and the disk is not the last primary; contents and status after it |
| RaidMirror.RepairSafeIff | kernel/raid.c:560-568 | whatever the data and whatever has been written, repair keeps every healthy disk of a pair up to date if and only if the plan read from block 0 is to refuse, to copy the partner, or to rebuild disk 1 of two from it |
| RaidMirror.StepKeeps | kernel/raid.c:483-576 | every operation on any disk, failures with any loss included, all writes but the one to the maximum block of an odd RAID1 array and all repairs by a safe plan, keeps every healthy disk of a pair equal to the last successful write of each block |
| RaidMirror.MirroredSafety | kernel/raid.c:134-182 | over any run of those operations, from any array, a read that succeeds returns the last successful write, or what the healthy disks agreed on at the start |
| RaidMirror.LabelledSafety | kernel/raid.c:134-182 | the same with no condition on repairs, from an array as init leaves it, when failures lose anything but the superblock |
| RaidMirror.LostSuperblockBreaksRun | kernel/raid.c:394-421 | in every healthy mirrored array a run in which disk 1 comes back with an unknown level in block 0 reads back something other than the last successful write |
| RaidMirror.MaxBlockOverwritesMirror | kernel/raid.c:493-493 | the accepted write to the maximum block, RAID1 with odd disks, makes block 0 read back wrong data |
| RaidMirror.MaxBlockBreaksRun | kernel/raid.c:483-494 | in every healthy array of that kind a run with that one write reads back something other than the last successful write |
| RaidMirror.MaxBlockElsewhere | kernel/raid.c:483-494 | in every other mirrored array the write to the maximum block never succeeds and changes no disk of the model: under RAID0+1 it names a row past the end of a disk, and under RAID1 with an even count a disk past the end of the lock table, which kernel/raid.c:159 reaches for first; there the model stops |
| RaidConcurrent.OneWriterPerRow | kernel/raid.c:256-280 | two writers past their locks are never in the same row |
| RaidConcurrent.StepKeeps | kernel/raid.c:256-326 | every lock, read, parity write, data write and unlock step of any writer keeps the invariant of the protocol |
| RaidConcurrent.QuietRowsConserved | kernel/raid.c:256-326 | in every reachable state of every interleaving a row with no writer inside has its initial exclusive or |
| RaidConcurrent.MidWriteRowIsOff | kernel/raid.c:185-197 | a row in mid-write is off by exactly old xor new |
| RaidConcurrent.QuiescentIsAtomic | kernel/raid.c:256-326 | interleaved writers refine one-at-a-time writes |
| RaidConcurrent.WaitsAscend | kernel/raid.c:256-265 | along the wait-for relation the awaited disk rises, so there is no cycle |
| RaidConcurrent.NoDeadlock | kernel/raid.c:256-326 | while a write is in progress some writer can take a step |
| RaidDevice.XorInto | kernel/raid.c:185-197 | the in-place byte loop computes the exclusive or of the two blocks |
| RaidDevice.Device.GetDiskHealth | kernel/raid.c:16-33 | lazily loaded health is what block 0 of the disk says, and loading changes nothing visible |
| RaidDevice.Device.WriteParityBlock | kernel/raid.c:185-197 | parity becomes new xor old xor parity, and nothing else changes |
| RaidDevice.Device.ReadMirrored | kernel/raid.c:134-160 | the primary if healthy, else the mirror, else refused |
| RaidDevice.Device.WriteMirroredPair | kernel/raid.c:160-182 | the state and result of the mirrored write that the run theorems are about |
| RaidDevice.Device.WriteWithParity | kernel/raid.c:256-280 | the state of the parity write that the run theorems are about |
| RaidDevice.Device.RaidRead | kernel/raid.c:483-502 | the read of the run theorems, without side effect |
| RaidDevice.Device.RaidWrite | kernel/raid.c:504-523 | the write of the run theorems: whole new state and result code |
| RaidDevice.Device.RaidFailDisk | kernel/raid.c:525-540 | exactly the named disk is marked |
| RaidDevice.Device.MirrorRecovery | kernel/raid.c:333-367 | the block-by-block copy leaves the target equal to the source, superblock included |
| RaidDevice.Device.RecoverRow | kernel/raid.c:373-390 | the loop over disks modulo N+1 computes the exclusive or of the visited disks |
| RaidDevice.Device.ParityRecovery | kernel/raid.c:369-391 | every row of the disk is recovered, nothing else changes |
| RaidDevice.Device.HandleRecovery | kernel/raid.c:394-421 | goes ahead, by the level and disk count of the superblock it is given, exactly under the model's condition, with the model's new state; an unknown level falls through to success |
| RaidDevice.Device.RaidRepairDisk | kernel/raid.c:542-576 | the repair of the run theorems, superblock read from block 0 of the failed disk: new state and result in every case |
| RaidDevice.Device.RaidSystemInit | kernel/raid.c:423-481 | the geometry, when initialisation is refused, and the superblock in block 0 of every disk; no other row changes |
| BufferCache.PushFrontLinks | kernel/bio.c:36-53 | linking behind the head keeps one circular list and puts the buffer first |
| BufferCache.UnlinkLinks | kernel/bio.c:116-137 | unlinking keeps one circular list without that buffer, all others in order |
| BufferCache.MoveToFrontPermutes | kernel/bio.c:116-137 | a release permutes the list |
| BufferCache.OrderIsLastRelease | kernel/bio.c:116-137 | after any run of releases the list is ordered by last release, most recent first |
| BufferCache.VictimIsOldest | kernel/bio.c:74-85 | in a list kept by releases, the free buffer nearest the tail was released the longest ago of all free buffers |
| BufferCache.DiskFollows | kernel/bio.c:106-112 | the disk is at any time what the recorded block writes have made of the one the cache started on |
| BufferCache.RecycleKeepsCoherence | kernel/bio.c:58-89 | recycling an unreferenced buffer loses no block's contents |
| BufferCache.WriteKeepsCoherence | kernel/bio.c:106-112 | writing through keeps cache and disk in step with the block map |
| BufferCache.BCache.constructor | kernel/bio.c:36-53 | one circular list of all buffers, nothing cached |
| BufferCache.BCache.Bget | kernel/bio.c:58-89 | finds the cached buffer or recycles the free one released the longest ago, over all calls so far; fails if and only if neither exists; waits if and only if another process has the lock; never gives two buffers the same block |
| BufferCache.BCache.Bread | kernel/bio.c:92-103 | the outcome of a read on every buffer and queue; if the caller has the lock, the buffer holds the block's latest contents |
| BufferCache.BCache.Resume | kernel/bio.c:92-103 | a process that waited for the lock gets it, and the buffer then holds the block's latest contents |
| BufferCache.BCache.Bwrite | kernel/bio.c:106-112 | exactly one disk write, of the buffer's block |
| BufferCache.BCache.Brelse | kernel/bio.c:116-137 | reference dropped, and the buffer first in the list, and last in the record of releases, exactly when it was the last one |
| BufferCache.BCache.Bpin | kernel/bio.c:139-144 | one more reference, so the buffer cannot be recycled |
| BufferCache.BCache.Bunpin | kernel/bio.c:146-151 | one reference less while still held |
| LogHeader.HeadRoundTrip | kernel/log.c:86-114 | the encoded header block decodes to the list that was written |
| LogHeader.FillHead | kernel/log.c:102-114 | the loop writes a header whose count is the list's length and which decodes to the list |
| LogHeader.ReadHead | kernel/log.c:86-97 | the loop reads the list that a header block encodes |
| LogCrash.CommitPhases | kernel/log.c:193-203 | the disk after any number of the writes of a commit: all old, committed, or all new |
| LogCrash.RecoveryStep | kernel/log.c:116-123 | a recovery cut short after any write leaves the outcome as decided |
| LogCrash.CrashAtomicity | kernel/log.c:68-123 | for a crash after any block write of a commit, and recoveries that may crash any number of times, home blocks end all new exactly when the first header write reached the disk, and all old otherwise |
| LogCrash.RecoveryAlwaysFinishes | kernel/log.c:116-123 | such an outcome exists for every choice of crashes |
| LogCrash.HistoryTheorem | kernel/log.c:116-203 | over any number of commits, crashes and reboots a home block holds what the last committed transaction wrote to it |
| LogAdmission.StepKeeps | kernel/log.c:126-235 | every begin, log_write and end of any operation keeps: listed blocks plus unused budgets fit the log, entries distinct, committing only when none is outstanding |
| LogAdmission.NoPanics | kernel/log.c:214-235 | none of the log's panics is reachable |
| LogAdmission.AdmissionTheorem | kernel/log.c:126-175 | the invariant holds over every interleaving, so the log never overfills |
| LogAdmission.FullLogReachable | kernel/param.h:9-11 | operations within their limits can fill the log exactly, with one still in progress |
| LogDisk.AbsApply | kernel/log.c:68-114 | byte-level disk writes follow the crash model |
| LogDisk.CommitCrashes | kernel/log.c:193-203 | the disk after any prefix of the writes a commit makes is the one crash atomicity speaks of |
| LogDisk.CommitDecides | kernel/log.c:193-203 | the disk after any prefix of a commit's byte writes meets what recovery requires, and the outcome is decided by the first header write |
| LogDisk.RecoveryKeepsDecided | kernel/log.c:116-123 | so does the disk after any prefix of a recovery's byte writes, with the same outcome; a whole recovery settles it |
| LogDisk.ByteCrashAtomicity | kernel/log.c:68-123 | crash atomicity for the bytes of the home blocks: a commit cut short, any number of recoveries cut short and one that finishes leave every home block new if the first header write reached the disk, else every one old, and the log empty |
| LogHistory.ReadsReturnLastUpdate | kernel/log.c:205-213 | in a faithful record of accesses what a read was shown is the block's last update before it, or what the run began with |
| LogHistory.CrashKeepsPrefix | kernel/log.c:116-203 | whatever the crash point and the crashes while recovering, the blocks outside the log are afterwards those of the whole run or those of the run up to the commit before |
| LogHistory.IdleCrashKeepsPrefix | kernel/log.c:116-123 | a crash while no commit runs leaves the run up to the last commit |
| LogCache.FreeBufferIff | kernel/bio.c:58-89 | at rest a buffer is free if and only if fewer blocks are pinned than there are buffers |
| RedoLog.Log.constructor | kernel/log.c:54-65 | from any disk that recovery can read, the log recovers it, is empty, and a run begins |
| RedoLog.Log.BeginOp | kernel/log.c:126-142 | admits exactly when the reservation fits |
| RedoLog.Log.Read | kernel/bio.c:92-103 | the outcome on every buffer and queue: fails if and only if the block is not cached and no buffer is free, waits if its buffer is locked, else shows the latest contents; every reference stays accounted for |
| RedoLog.Log.Resume | kernel/bio.c:92-103 | a process that waited gets the lock and is shown the latest contents |
| RedoLog.Log.Update | kernel/log.c:205-213 | changing a held buffer changes the block map there and nowhere else, and no disk block |
| RedoLog.Log.Release | kernel/bio.c:116-137 | releasing a block that was logged, or not changed, keeps cache, log and block map in step; only that buffer's lock and count change |
| RedoLog.Log.LogWrite | kernel/log.c:214-235 | lists the block once and adds one reference to its buffer if it was not listed; no other buffer changes, and every unlogged buffer stays equal to disk |
| RedoLog.Log.WriteHead | kernel/log.c:102-114 | one disk write of a header whose count is the list's length and which decodes to the list |
| RedoLog.Log.WriteLog | kernel/log.c:178-191 | with nobody using a listed block: goes through if and only if a buffer is free, the log slots receive the transaction's contents in order, and nothing that others hold changes |
| RedoLog.Log.InstallTrans | kernel/log.c:68-83 | home blocks receive the slots' contents in order, all pins are dropped, and nothing that others hold changes |
| RedoLog.Log.Commit | kernel/log.c:193-203 | with nobody using a listed block: goes through if and only if the transaction is empty or a buffer is free; its disk writes are those of the crash model in order, with headers that recovery can read; disk equals block map afterwards, no home block of it and nothing that others hold changed, and the log on disk is empty |
| RedoLog.Log.EndOp | kernel/log.c:146-175 | the last operation out commits, and only it, while others may hold or await blocks that are not listed; they keep what they have, and the run is then durable; it goes through if and only if a buffer is free, and with nobody about and more buffers than LOGSIZE always |
| RedoLog.Log.Look | kernel/bio.c:92-103 | a read by a process outside any operation, while the log commits: the block's contents or a place in the queue; the commit's accounts of buffers, pins and disk still hold |
| RedoLog.Log.LookDone | kernel/bio.c:116-137 | so they do after such a process releases its buffer |
| RedoLog.Log.RecoverFromLog | kernel/log.c:116-123 | from every disk that a commit or recovery cut short can leave, the disk writes are those of the crash model's recovery, the log ends empty, and a run can begin |
| LogRuns.EveryReadReturnsLastUpdate | kernel/log.c:205-213 | the run theorem: after any calls of any operations, with commits in between, every read was shown the block's last update |
| LogRuns.LogOne | kernel/log.c:205-213 | read, change, log, release: the typical use goes through whenever a buffer is left, and leaves nothing locked |
| LogRuns.WriteBlock | kernel/log.c:126-175 | a whole transaction: when it returns the block is on disk and the run durable |
| LogRuns.FullLogPanics | kernel/param.h:9-11 | with a cache of just LOGSIZE buffers a run of operations within their limits ends in a commit that finds no buffer |
| LogRuns.RestartAfterCommit | kernel/log.c:54-65 | a machine restarted on the disk left by any prefix of a commit's writes has the blocks of the whole run, or of the run up to the commit before |
| LogRuns.RestartIdle | kernel/log.c:54-65 | restarted on the disk of a run that was not committing, those of the run up to the last commit |
| LogRuns.EndOpSurvivesCrash | kernel/log.c:146-203 | the same for the writes that this end_op makes, cut off anywhere, and any number of reboots, with readers of unlisted blocks about |
| LogReaders.GoOn | kernel/log.c:68-203 | one turn of a commit among readers: it panics if and only if no buffer is free, stands still besides if and only if a reader has the lock of the block it needs, and otherwise writes the next slot, header or home block |
| LogReaders.ReaderReads | kernel/bio.c:92-103 | a read by a process outside any operation, between any two steps of a commit, keeps what the commit relies on and shows the block map the commit began with; at most one buffer more is in use |
| LogReaders.ReaderWakes | kernel/bio.c:92-103 | so does a reader that waited and gets the lock |
| LogReaders.ReaderLetsGo | kernel/bio.c:116-137 | so does a reader that releases its buffer |
| LogReaders.CrashAmongReaders | kernel/log.c:116-203 | a crash at any moment of a commit among readers, then any number of reboots, leaves the run with all operations of the commit if its header was written, and otherwise with none |
| LogReaders.EndOpAmongReaders | kernel/log.c:146-203 | for every schedule of readers, who may hold and await listed blocks too: all they are shown is the block map as it was when the commit began, which does not change outside the log; crash atomicity at the end of the schedule wherever the commit then is; without a panic, how far it is follows from the schedule alone, and it is finished once it has had as many turns with no listed block locked as it has steps; no panic while users and reads leave a buffer over; a finished commit has put the block map on disk |
| LogTurns.Finishes | kernel/log.c:178-203 | a commit that gets its turns while no listed block is locked is finished, whatever else readers do in between |
| LogTurns.OnceLetGo | kernel/log.c:178-203 | in particular once the holders of listed blocks have let go and nobody takes one anew |
| LogTurns.Starves | kernel/sleeplock.c:21-41 | a schedule of any length in which every holder lets go and the commit never takes a step |
| LogSeats.HinderedIff | kernel/log.c:180-184 | the lock of the block a commit needs next is taken if and only if the schedule says so |
| FsState.MarkChangesOneBit | kernel/fs.c:65-105 | setting or clearing a bitmap bit changes that block's mark and no other |
| FsState.AttachedAddr | kernel/fs.c:382-421 | storing a fresh block in an empty direct, indirect or listed slot changes that slot only, in every inode |
| FsState.AttachKeepsGood | kernel/fs.c:382-421 | it keeps: bitmap marks are exactly metadata and named blocks, no block is named twice |
| FsFiles.FreshVolume | kernel/fs.c:65-88 | an empty volume satisfies the invariants |
| FileSystem.Volume.constructor | kernel/fs.c:65-88 | from any geometry, an empty volume that satisfies the invariants |
| FsFiles.AttachKeepsBytes | kernel/fs.c:382-421 | providing a block changes no byte of any file |
| FsFiles.StoredKeepsGood | kernel/fs.c:505-539 | storing bytes in a data block moves no block of any inode |
| FsFiles.StoredBytes | kernel/fs.c:505-539 | exactly the stored bytes change, and only in that file |
| FsFiles.SpliceReads | kernel/fs.c:471-539 | reading a written range gives what was written, reading beside it what was there |
| FsFiles.TruncateKeeps | kernel/fs.c:425-453 | releasing exactly one inode's blocks keeps ownership, empties its file and leaves all others |
| FileSystem.BitmapScan | kernel/fs.c:65-88 | the scanned bit is the mark of the scanned block |
| FileSystem.Volume.Balloc | kernel/fs.c:65-88 | the lowest free block, marked and zeroed; 0 only if every block is in use |
| FileSystem.Volume.Bfree | kernel/fs.c:91-105 | clears that mark and no other; refused exactly for a free block |
| FileSystem.Volume.Bmap | kernel/fs.c:382-421 | the file's block, provided with its indirect block if missing, no other slot and no byte of any file changed, ownership kept; nothing changes if it was there; 0 only if the disk is full |
| FileSystem.Volume.Itrunc | kernel/fs.c:425-453 | the file is empty, exactly its direct, listed and indirect blocks are free, all other files are untouched; the free-block panic is unreachable |
| FileSystem.Volume.Readi | kernel/fs.c:471-496 | the slice of the file's bytes, clipped to its size, empty for a bad offset or a wrapping length; nothing is allocated |
| FileSystem.Volume.Writei | kernel/fs.c:505-539 | refused exactly for a bad offset or an oversized end; otherwise the written prefix is spliced into the file and extends it exactly, stops short only on a full disk, and every other file keeps its bytes; the blocks passed to log_write include every block written to and every block that changes, and keep to the budget for that many bytes at that offset |
| FsBudget.ChunkFits | kernel/file.c:149-155 | a write of filewrite's chunk size, wherever it starts and whatever it has to allocate, stays with its inode within MAXOPBLOCKS blocks |
| FsLog.InodeRoundTrip | kernel/fs.c:226-241 | an inode written into its block reads back, and the others of the block are as they were |
| FsLog.AlikeFiles | kernel/fs.c:471-496 | volumes with the same inodes, bitmap and data blocks satisfy the same invariants and hold the same files |
| FsLog.Iupdate | kernel/fs.c:226-241 | through the log, exactly the inode's place in its block of the block map changes |
| FsLog.WriteiLogged | kernel/file.c:162-167 | with a cache of more than MAXOPBLOCKS buffers: writei in an operation of its own, committed through cache and log: after a crash at any block write and any reboots the disk holds a sound volume with every file as it was, or all as after the write, decided by the header write; a write of filewrite's chunk size is never too large for its operation |
| PageTable.PteRoundTrip | kernel/riscv.h:351-355 | an entry gives back its page number and flags |
| PageTable.IndicesInjective | kernel/riscv.h:357-366 | below MAXVA the three indices identify the page |
| PageTable.TransferKeeps | kernel/kalloc.c:46-82 | handing a page from one owner to another keeps: every page has exactly one owner |
| PageSteps.WithLeafEntries | kernel/vm.c:146-169 | writing one entry changes the translation of that page in that space and of no other page in any space |
| PageSteps.WithMidGood | kernel/vm.c:89-107 | linking a blank table changes no translation and keeps ownership |
| PageSteps.CutGood | kernel/vm.c:275-291 | unlinking a childless table keeps ownership |
| PageFree.NoLeavesFrom | kernel/vm.c:275-291 | a space with no mapped page below MAXVA has no valid entry in any lowest-level table |
| PageFree.UnmappedThenFreed | kernel/vm.c:295-301 | after unmapping and freeing the tables, every page the space held is free and nobody else's page, contents or translation changed |
| VirtualMemory.Memory.constructor | kernel/kalloc.c:26-40 | every page is on the free list once and owned by nobody |
| VirtualMemory.Memory.Kalloc | kernel/kalloc.c:65-82 | the first page of the list linked through the pages themselves, or 0 exactly when it is empty |
| VirtualMemory.Memory.Kfree | kernel/kalloc.c:46-63 | the page is the first of the list, filled with junk |
| VirtualMemory.Memory.Walk | kernel/vm.c:89-107 | the place of the page's entry; with alloc only tables are added and no translation or contents change; null exactly beyond MAXVA or when the table is missing and not to be, or cannot be, added |
| VirtualMemory.Memory.MapPages | kernel/vm.c:146-169 | exactly the pages touched by the range, up to the reported count, are translated as asked; every other translation in every space, every owner and all contents stay; it stops early only at MAXVA or with fewer than two free pages left for tables |
| VirtualMemory.Memory.Uvmunmap | kernel/vm.c:174-196 | exactly the n pages lose their translation; when freeing exactly their physical pages are added to the free list, otherwise those the space owned are left in the kernel's hands; no contents and no other translation or owner change |
| VirtualMemory.Memory.Uvmalloc | kernel/vm.c:229-253 | success: the pages between are owned, zeroed and mapped with the permissions, nothing else changed; failure: every translation, owned page and all contents as before, and only beyond MAXVA or with fewer than three free pages for each page asked for |
| VirtualMemory.Memory.Uvmdealloc | kernel/vm.c:259-271 | exactly the pages between the two sizes are unmapped and freed |
| VirtualMemory.Memory.Uvmcopy | kernel/vm.c:309-337 | success: the child owns pages of its own with equal contents and permissions, the parent and all others unchanged; failure: everything as before, and only with fewer than three free pages for each page copied |
| VirtualMemory.Memory.FreeWalk | kernel/vm.c:275-291 | exactly the table and the tables below it are freed; no leaf is met |
| VirtualMemory.Memory.Uvmfree | kernel/vm.c:295-301 | every page the space held, tables included, is on the free list, and all other owners are unchanged |
| VirtualMemory.Memory.Uvmcreate | kernel/vm.c:198-208 | a new empty space, no translation changed |
| UserCopy.Walkaddr | kernel/vm.c:112-130 | the physical page if and only if the address is below MAXVA and mapped for user code |
| UserCopy.CopyBytes | kernel/vm.c:355-375 | the byte loop changes exactly the bytes of the range in the page's words |
| UserCopy.Copyout | kernel/vm.c:355-375 | succeeds if and only if every byte is in a page user code may use; the bytes written, all or a prefix, are the only change to any byte any space owns, and no translation, owner or kernel page changes |
| UserCopy.Copyin | kernel/vm.c:380-400 | succeeds if and only if every byte is accessible; the result is those bytes of the space, across page boundaries, and nothing changes |
| UserCopy.CopyRoundTrip | kernel/vm.c:355-400 | what was copied out is what copyin reads back |
| HeapModel.InsertSorted | user/umalloc.c:24-44 | putting a block back keeps the list in address order with no two free blocks touching |
| HeapModel.InsertCovers | user/umalloc.c:24-44 | exactly the block's units become free |
| HeapModel.TakeCovers | user/umalloc.c:72-84 | the units handed out are exactly those no longer free |
| HeapModel.FreeOrLive | user/umalloc.c:24-90 | no unit is both free and handed out |
| HeapModel.FreeGood | user/umalloc.c:24-44 | free keeps: live and free blocks disjoint, every unit obtained from sbrk in exactly one of them |
| HeapModel.GrowGood | user/umalloc.c:46-61 | so does adding a region |
| HeapModel.AllocateGood | user/umalloc.c:72-84 | so does malloc, and the block it returns was free |
| UserMalloc.RingAfterFree | user/umalloc.c:33-43 | the links written by free form the ring of the new list, joined on neither, one or both sides |
| UserMalloc.SearchStops | user/umalloc.c:30-32 | the two exit tests of free's search succeed at the block's place and nowhere else, and each step comes closer |
| UserMalloc.Allocator.Free | user/umalloc.c:24-44 | the ring in memory is again circular, in address order with one wrap, and holds the block joined with its neighbours |
| UserMalloc.Allocator.FreeLive | user/umalloc.c:24-44 | free of a block malloc returned: its units are free, nothing else changed |
| UserMalloc.Allocator.Morecore | user/umalloc.c:46-61 | at least the units asked for join the ring, or nothing changes; says when sbrk would be asked for something else |
| UserMalloc.LargeRequests | user/umalloc.c:46-55 | what sbrk's int argument becomes for every request malloc can make: the request below 2 to the 27 units, a negative number from there on, and 0 and 16 for the two largest |
| UserMalloc.Allocator.Search | user/umalloc.c:72-90 | once round the ring: the first block with enough units and its predecessor, or none has enough |
| UserMalloc.Allocator.Malloc | user/umalloc.c:63-90 | a new block of enough units from a free block; memory is asked for only when no free block has enough, and at most once; 0 leaves the heap as it was and only when no free block has enough; sbrk is asked for something other than the request if and only if that is 2 to the 27 units or more and no free block has enough; the loop ends |
| SleepLock.StepKeeps | kernel/proc.c:535-608 | every step of acquiresleep, sleep, wakeup, releasesleep, kill, preemption and the scheduler keeps the invariant |
| SleepLock.MutualExclusion | kernel/sleeplock.c:21-41 | over all interleavings at most one process holds the sleep lock |
| SleepLock.NoLostWakeup | kernel/proc.c:535-608 | a process asleep or about to sleep has a holder or a waker still to come; with the lock free and its spinlock free there is none |
| SleepLock.NeverStuck | kernel/sleeplock.c:21-41 | while a process uses the lock, some process that uses it can take a step, by itself or by being scheduled |
| ShellRoundTrip.ArgsRoundTrip | user/sh.c:416-447 | the argument loop reads a printed word list back, to its end |
| ShellRoundTrip.LineRoundTrip | user/sh.c:345-447 | a printed tree standing anywhere is parsed back to itself, up to its closing parenthesis or the end |
| ShellRoundTrip.RoundTrip | user/sh.c:328-343 | every tree of legal words with at most nine arguments, printed with full parentheses, is parsed back to the same tree with all input consumed |
| ShellParser.LineOk | user/sh.c:345-447 | whatever parses, every word is a maximal run of word characters, and no command has more than nine |
| ShellParser.Reprint | user/sh.c:328-343 | any line that parses, printed from its tree, parses to the same tree |
| ShellParser.Terminated | user/sh.c:449-494 | with a NUL at every word end, each word is a C string equal to its text |
| ShellParser.NulTerminate | user/sh.c:449-494 | NULs are written at the word ends and nowhere else |
| ShellParser.Parser.PeekAt | user/sh.c:311-321 | the loop skips exactly the blanks and tests the next character |
| ShellParser.Parser.NextToken | user/sh.c:266-309 | token, its place, and the cursor of the token function |
| ShellParser.Parser.Redirs | user/sh.c:375-398 | the loop computes the redirection parser's command and cursor, or its panic |
| ShellParser.Parser.ExecCommand | user/sh.c:416-447 | likewise for one command |
| ShellParser.Parser.Block | user/sh.c:400-414 | likewise for a parenthesised line |
| ShellParser.Parser.Pipeline | user/sh.c:362-373 | likewise for a pipeline |
| ShellParser.Parser.Line | user/sh.c:345-360 | likewise for a line; the mutual recursion ends on every input |
| ShellParser.ParseCommand | user/sh.c:328-343 | the tree or the panic of the grammar; on success every argv entry and file name in the buffer is exactly its token, on a panic the buffer is untouched |
| Grep.HereStar | user/grep.c:98-105 | the starred case of the pattern language |
| Grep.MatchHere | user/grep.c:84-95 | true if and only if a prefix of the text is in the pattern's language |
| Grep.MatchStar | user/grep.c:98-105 | true if and only if some run of admitted characters is followed by a match |
| Grep.Match | user/grep.c:71-81 | true if and only if a substring, anchored by ^ and $ as given, is in the pattern's language; all loops end |

## Left out

- Device drivers, interrupts, traps, boot, exec, system-call plumbing, directories, path names, pipes and the test programs under user/: no property of this kind, or hardware.
- Disk transfers: a block read or write is one atomic step, although virtio_disk_rw waits with a single sleep.
- RaidConcurrent.StepKeeps: repair running beside writers is not modelled; neither recovery loop takes the disk locks.
- RaidDevice.Device.RaidSystemInit: loading the array's geometry from the superblocks of an earlier boot, and disks that disagree about it, are not modelled; initialising an array twice in one boot keeps the cached health, as the code does.
- RaidMirror.MaxBlockElsewhere: what the code does after reaching past the end of its lock table, or of a disk, is not modelled; the write is a failure that changes nothing.
- RaidDevice.Device.RaidWrite: user buffers are passed as block values, and the per-disk locks are in the interleaving model only.
- BufferCache.BCache.Bget: a process that waits for a buffer is a count in a queue; which of several waiting processes goes first is not modelled. A read of the disk and the filling of the buffer are one step.
- RedoLog.Log.EndOp: a commit that has to wait for a reader of a listed block is in LogReaders only. begin_op's sleep is one refused pass of its loop.
- LogReaders.EndOpAmongReaders: a commit of an empty list, which writes nothing, is in RedoLog.Log.EndOp. Readers come between the block copies of a commit, not inside one, which takes both buffers, copies, writes and releases in one step.
- RedoLog.Log.RecoverFromLog: a header that no commit, recovery or empty disk left, with a count past the log or blocks outside the disk, is not modelled; the code does not check for one.
- FileSystem.Volume.Readi: copies to and from user space that fail part-way are not modelled; the buffer is a kernel buffer. The same holds for Writei.
- FileSystem.Volume.Writei: inodes are kept as values, with size and addresses; their other fields, the inode cache and its locks are not modelled.
- FsLog.WriteiLogged: the blocks that writei passes to log_write are read, updated and logged after it, not each at its place, and no other operation is in progress. filewrite's loop over several operations is not modelled.
- VirtualMemory.Memory.MapPages: addresses do not wrap at 2 to the 64; mapping a mapped page, a panic in the code, is excluded by the precondition. Likewise unmapping a page that is not mapped.
- copyinstr: a byte copy like copyin with another end; it would add only routine members.
- UserCopy.Copyout: the pages user code may use are taken to be the space's own, as uvmalloc and uvmcopy make them.
- The kernel's own page table and its start-up mappings.
- UserMalloc.Allocator.Morecore: sbrk gives memory at increasing addresses, above the base header, as the kernel does for a growing process. Where sbrk is asked for something other than the request the model stops: what the code then does with memory it did not get is not modelled.
- SleepLock.StepKeeps: spinlock sections are atomic between their acquire and release steps; process creation and exit are not modelled.
- ShellParser.ParseCommand: running the parsed command, and malloc failing inside the parser, are not modelled.
- Grep.Match: reading lines from files is not modelled.
