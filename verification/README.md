# MaverickOS kernel: storage, scheduling and library cores

A Dafny model of the parts of the MaverickOS kernel that must agree with a much simpler picture of themselves, with
proofs that they do.

- **Write-ahead log** (`Sectors`, `WalHistory`, `WalRecovery`, `WalCrash`, `WalWrap`, `WalManager`, `WalBoot`,
  `WalJournal`, `WalSerial`, `WalRollback`, `WalWriteBack`): a history of log records determines what readers see; the
  64-slot ring, the buffer, commit, abort and the three recovery passes are tied to that history, and any sequence of
  calls leaves a state from which a crash is recovered.
- **Priority donation** (`Donation`, `DonationLaws`, `Scheduler`): lock holders and waiters as a graph, the operations
  as transitions, and the same operations on the kernel's fields with their loops.
- **Files** (`FreeMap`, `IndexTree`, `Space`, `FileBytes`, `Cleanup`, `Inode`): a file as a flat array of bytes over
  direct, indirect and doubly indirect blocks taken from the free map, and what a failed creation gives back.
- **Buffer cache** (`Cache`, `CacheSlots`, `CacheHalts`, `CacheFull`): used by one thread it is a plain sector store;
  under any interleaving its slots stay consistent and nobody deadlocks; and exactly when it can stop the kernel.
- **Readers-writers lock** (`RwLock`, `RwPreference`), **fair scheduling** (`Fair`, `FairShare`), **feedback-queue
  statistics** (`Mlfqs`, `MlfqsRun`).
- **RAID 5** (`Raid5`), **kernel heap** (`Heap`), **64-bit division** (`Division`), **ustar headers** (`Options`,
  `Octal`, `Ustar`).

`dafny verify dfyconfig.toml` checks everything.

## Hypotheses

- Log: callers of the log run one at a time. A transaction logs its BEGIN under a fresh number before anything else. A
  byte that an unfinished transaction wrote is not written by another. Eviction and checkpoint write a sector back only
  after the log records of its bytes are durable; the code does not enforce this, so it is a guard of the write-back
  step in `WalCrash` and a condition of `Journal.Evict`, and `WalWriteBack` says exactly when it may fail. The log
  belongs to one session. At most 65 records of it are durable at a crash, and an abort has logged at most 64 writes;
  `WalWrap` and `WalRollback` show that neither bound can be raised.
- Donation: acquiring or blocking, and releasing with hand-over, are single steps; no acquire closes a cycle of waits.
- Cache: the two runs of `CacheHalts` are the code as it is. Its safety theorem assumes no more threads than slots and
  no two threads in an operation on one sector; `CacheFull` shows that the first bound is exact.
- Files: new lengths are at most (12+128+128*128)*512 bytes where a contract says so. Sectors are seen through the
  cache; pointers in index sectors are numbers, not bytes, and any reading of other sectors as pointers is allowed for.
- Fair scheduling: a fixed set of threads that are always runnable, starting at equal virtual run time, with at most
  four ticks charged per slice. Overflow of a signed 64-bit sum is taken to wrap around.
- Feedback queue: at most N <= 135 non-idle ready or running threads and nice values in -20..20.
- Heap, division and ustar: the 32-bit build (12-byte arena header, 32-bit `size_t` and `unsigned long`).

Where comments and code disagree the code is followed: `FIX_MAX_INT` is 65535 (its comment says 32767), load_avg is
16.16 fixed point (a comment says 17.14), and the feedback queue dispatches by the priority a thread was created with
(a comment says by the computed one, but the ready list is ordered by `eff_priority`, which that policy never changes).

## Model

| member | source | states |
|---|---|---|
| `WalRecovery.RecoveryCorrect` | src/filesys/wal.c:467-674 | for every history of at most 65 records (one more than the log holds: the first record carries no data) and every data region that log-before-data allows at a crash, recovery leaves each byte at its last committed value, or its initial value if no committed transaction wrote it |
| `WalCrash.CrashSafety` | src/filesys/wal.c:256-674 | any run of logging, cache writes, log flushes, sector write-backs, commits and aborts, stopped at any step: as long as at most 65 records are durable, recovery from the durable log and the disk of that moment restores the last committed value of every byte |
| `WalCrash.NextKeeps` | src/filesys/wal.c:256-341 | every step of that system keeps the invariant that ties cache, disk and durable log together, including steps in the middle of an abort |
| `WalWrap.RecoveryExact` | src/filesys/wal.c:553 | recovery is correct for all histories of length n if and only if n is at most 65 |
| `WalWrap.WrappedLogLosesCommit` | src/filesys/wal.c:408 | for every longer length there is a history the code can log, BEGIN, WRITE, COMMIT of one transaction and then BEGIN and WRITEs of the next, and a crash after which the committed write is lost |
| `WalRecovery.Restartable` | src/filesys/wal.c:475-660 | a crash after any prefix of the sector writes of recovery, followed by a complete rerun, gives the image of one complete run |
| `WalRecovery.UndoOrderIsOrder` | src/filesys/wal.c:636-645 | the exchange sort orders the undo records newest first and keeps them as a multiset |
| `WalRecovery.WindowAnalysis` | src/filesys/wal.c:488-551 | for every history, wrapped or not, the analysis finds exactly the committed, aborted and seen transactions of the records still in the log |
| `WalRecovery.RecoverableAnalysis` | src/filesys/wal.c:488-551 | with at most 65 records no fate and no write is missing from it |
| `WalRecovery.RedoRecoverable` | src/filesys/wal.c:552-583 | redo in slot order leaves each byte at the newest value a committed transaction wrote |
| `WalRecovery.LoserByte` | src/filesys/wal.c:602-660 | undoing the records of all losers, newest first, takes a byte some loser wrote back to its last committed value |
| `WalHistory.ViewByte` | src/filesys/wal.c:256-387 | what readers see is, byte by byte, the newest value written by a transaction that has not aborted |
| `WalHistory.SoleWriter` | src/filesys/wal.c:256-341 | while a transaction is unfinished nobody else writes a byte after it, and earlier writers of the byte had finished |
| `WalCrash.RollbackRewinds` | src/filesys/wal.c:256-341 | rolling a transaction back takes each byte it wrote to the value from just before its first write to that byte |
| `WalCrash.RollbackKeeps` | src/filesys/wal.c:256-341 | rolling a transaction back leaves every byte it did not write alone |
| `WalCrash.AbortRestores` | src/filesys/wal.c:256-387 | a byte only the transaction changed since it began is restored to its value at the begin, for overlapping and split writes too |
| `WalManager.RingAppend` | src/filesys/wal.c:682-727 | appending the next LSN keeps the ring invariant: consecutive LSNs, all unflushed records buffered, durable log equal to the window of the flushed prefix |
| `WalManager.LogOfRewrite` | src/filesys/wal.c:389-420 | writing the buffered records to their slots again never replaces a newer record by an older one |
| `WalManager.TracksWrite` | src/filesys/wal.c:347-387 | a write logged in pieces of at most 232 bytes has correct before-images and the effect of the one write |
| `WalManager.PieceSizes` | src/filesys/wal.c:347-387 | the pieces have from 1 to 232 bytes, all but the last 232, and consecutive LSNs |
| `WalManager.LogUsedCounts` | src/filesys/wal.c:709-717 | the log space in use is the number of records from the last checkpoint on |
| `WalManager.RolledBackIsUndo` | src/filesys/wal.c:298-318 | the records an abort reads back, applied newest first, are the rollback of the history when none has left the window |
| `WalManager.TracksAbort` | src/filesys/wal.c:256-341 | after an abort the cache shows the history without the transaction |
| `WalManager.Wal.Format` | src/filesys/wal.c:76-101 | a formatted log is empty, with LSNs and transaction numbers starting at 1 |
| `WalManager.Wal.Flush` | src/filesys/wal.c:389-420 | everything buffered becomes durable unless the requested LSN already is; the ring invariant is kept |
| `WalManager.Wal.ReadRecord` | src/filesys/wal.c:731-751 | a record is found if and only if its LSN is flushed and still in the 64-slot window, and is then the record logged under that LSN |
| `WalManager.Wal.MakeRoom` | src/filesys/wal.c:692-699 | a full buffer is flushed before it is emptied, otherwise nothing changes |
| `WalManager.Wal.Buffer` | src/filesys/wal.c:682-713 | the record joins the buffer with nothing flushed, or a full buffer is flushed and emptied first |
| `WalManager.Wal.Append` | src/filesys/wal.c:682-727 | the record is appended to the history under the next LSN, not yet durable; a checkpoint becomes due at three quarters of the log |
| `WalManager.Wal.Begin` | src/filesys/wal.c:187-216 | a fresh transaction number and a BEGIN record |
| `WalManager.Wal.LogWrite` | src/filesys/wal.c:347-387 | a null or finished transaction is refused; otherwise the history grows by the pieces of the write |
| `WalManager.Wal.Write` | src/filesys/inode.c:615-624 | old bytes are logged before the cache changes, and the cache changes in exactly the written range |
| `WalManager.Wal.Checkpoint` | src/filesys/wal.c:426-461 | unless one is in progress: disk equals cache, the log is flushed and ends with a CHECKPOINT record |
| `WalManager.Wal.Commit` | src/filesys/wal.c:218-254 | when it returns true the COMMIT record is durable and readable under its LSN, and a checkpoint has followed exactly if one was pending or the record filled three quarters of the log |
| `WalManager.Wal.CollectUndo` | src/filesys/wal.c:298-306 | finds every record of the transaction that is still in the window, never more than the fixed array holds |
| `WalManager.Wal.AppendDurable` | src/filesys/wal.c:232-236 | the record is appended and the log is durable through it |
| `WalManager.Wal.Abort` | src/filesys/wal.c:256-341 | the cache is rolled back by the readable records and flushed to disk before the ABORT record is logged; a null or finished transaction changes nothing; what that restores is stated by Journal.Abort and AbortExact |
| `WalJournal.Journal.Format` | src/filesys/wal.c:76-101 | a formatted volume is in a safe state: cache, disk, durable log and history agree as the crash model demands |
| `WalJournal.Journal.Begin` | src/filesys/wal.c:187-216 | keeps the state safe and the contents unchanged |
| `WalJournal.Journal.Write` | src/filesys/inode.c:615-624 | keeps the state safe unless another unfinished transaction wrote one of the bytes; the contents change in exactly the written range |
| `WalJournal.Journal.Evict` | src/filesys/cache.c:246-252 | writing one cached sector back keeps the state safe when no record of it is waiting in the buffer |
| `WalJournal.Journal.Checkpoint` | src/filesys/wal.c:426-461 | keeps the state safe and the contents unchanged |
| `WalJournal.Journal.Commit` | src/filesys/wal.c:218-254 | keeps the state safe and the contents unchanged, and makes the whole history durable, with or without the checkpoint that may follow |
| `WalJournal.Journal.Abort` | src/filesys/wal.c:256-341 | while the write records are in the log: every byte that only this transaction changed since it began is back at its value from then, and the state is safe |
| `WalJournal.Journal.Restart` | src/filesys/wal.c:467-674 | a crash in any safe state with at most 65 durable records, then recovery: every byte is at its last committed value |
| `WalJournal.SoundWrite` | src/filesys/wal.c:347-387 | the step from one safe state to the next for a write in pieces, with the data not yet on disk |
| `WalJournal.AbortSound` | src/filesys/wal.c:256-341 | the step from one safe state to the next for an abort, with the rolled-back contents on disk before the ABORT record is |
| `WalSerial.Transact` | src/filesys/wal.c:187-341 | a transaction of any writes, alone: committed, the contents are the old ones with the writes applied in order, and durable; aborted with at most 64 records, the contents are exactly the old ones; the state stays safe |
| `WalSerial.CrashAndMount` | src/filesys/wal.c:467-674 | after any such transactions a crash and a mount give back exactly what readers saw |
| `WalSerial.QuietIsCommitted` | src/filesys/wal.c:218-341 | with no transaction under way, what readers see is what is committed |
| `WalRollback.AbortExact` | src/filesys/wal.c:298-318 | an abort restores everything for all transactions that logged m records, if and only if m is at most 64 |
| `WalRollback.LongAbortKeepsWrite` | src/filesys/wal.c:298-318 | for every larger m a transaction whose abort leaves its first write in place |
| `WalWriteBack.CheckpointExact` | src/filesys/wal.c:437-443 | a crash between the cache flush and the log flush of a checkpoint is recovered for all states of the log manager with m pending write records, if and only if m is 0 or more than the eight the buffer holds |
| `WalWriteBack.EvictExact` | src/filesys/cache.c:246-252 | a crash after one sector is written back is recovered for all states with m pending write records of that sector, if and only if m is 0 or more than the buffer holds |
| `WalWriteBack.FlushedCacheSound` | src/filesys/wal.c:437-438 | with every write record durable, as after the flush of a commit, the cache flush leaves a safe state |
| `WalWriteBack.CheckpointLeaks` | src/filesys/wal.c:437-443 | for each m from 1 to 8 a state of the log manager, its first eight records durable, in which the write of an unfinished transaction reaches the disk ahead of its log record and survives the crash |
| `WalWriteBack.EvictLeaks` | src/filesys/cache.c:246-252 | the same for the write-back of one sector |
| `WalBoot.Analyze` | src/filesys/wal.c:488-531 | the transaction table lists exactly the transactions in the log with their fate; its 256 rows never overflow |
| `WalBoot.Categorize` | src/filesys/wal.c:532-551 | the redo list is exactly the committed transactions and the undo list exactly the losers |
| `WalBoot.CollectLosers` | src/filesys/wal.c:602-635 | all writes of the losers, in slot order; the 512-entry limit never truncates |
| `WalBoot.SortUndo` | src/filesys/wal.c:636-645 | the in-place exchange sort of the array computes the newest-first order |
| `WalBoot.Device.RedoPass` | src/filesys/wal.c:552-583 | applies the committed writes in slot order |
| `WalBoot.Device.UndoPass` | src/filesys/wal.c:602-660 | applies the before-images of the losers, newest first |
| `WalBoot.Device.Recover` | src/filesys/wal.c:467-674 | the whole routine computes the recovered image, leaves the log alone and resumes numbering just above the largest LSN and transaction number in it |
| `Donation.RunExact` | src/threads/synch.c:254-363 | in every state of every run each effective priority is the maximum base priority over the thread and all threads transitively waiting on locks it holds, and the ready list is sorted |
| `Donation.DonationExact` | src/threads/synch.c:254-363 | the local condition kept by each step holds everywhere if and only if every effective priority is that maximum: no waiter is above it and some waiter, or the thread itself, attains it |
| `DonationLaws.RunObeys` | src/threads/synch.c:254-363 | in every step of every run, for all locks and threads: who holds a lock, who waits and in which order, whose base priority changes, which threads can run, and who runs next |
| `DonationLaws.OnlyHolderReleases` | src/threads/synch.c:331-363 | in every run a thread loses a lock only by releasing it itself; then it is free or one of its waiters has it |
| `DonationLaws.OnlyWaitersReceive` | src/threads/synch.c:254-363 | in every run a thread gains a lock only by acquiring it while it is free, or as a waiter when it is released, and can run then |
| `DonationLaws.AcquireObeys` | src/threads/synch.c:254-302 | a free lock is taken and nothing else changes; for a held one the thread is last among its waiters, and no longer running or ready |
| `DonationLaws.ReleaseObeys` | src/threads/synch.c:331-363 | a lock nobody waits for becomes free; otherwise the waiter of highest effective priority that has waited longest gets it and can run, and the processor changes hands only to a higher priority |
| `DonationLaws.SetPriorityObeys` | src/threads/thread.c:637-674 | the base priority of the running thread becomes the given one and no other changes; it gives up the processor exactly when a ready thread is higher than it is left |
| `DonationLaws.YieldObeys` | src/threads/thread.c:602-620 | the threads that can run stay the same; one of highest priority runs, and another one if any has at least the priority of the yielding thread |
| `DonationLaws.SleepObeys` | src/threads/thread.c:447-457 | the running thread and no other stops being able to run, and one of highest priority runs |
| `DonationLaws.InsertPosition` | src/lib/kernel/list.c:375-387 | a thread is put behind every thread of its own or a higher priority and before every lower one, and the others keep their order |
| `DonationLaws.TopFirst` | src/lib/kernel/list.c:415-425 | of several waiters of highest priority the one that has waited longest is chosen |
| `Donation.PropagateExact` | src/threads/synch.c:263-291 | the donation walk restores exactness at every thread of the chain and keeps the ready list sorted |
| `Donation.AcquireInv` | src/threads/synch.c:254-302 | acquiring or blocking on a lock keeps the invariant |
| `Donation.ReleaseInv` | src/threads/synch.c:331-363 | releasing a lock, with hand-over to the highest waiter, keeps the invariant |
| `Donation.SetPriorityInv` | src/threads/thread.c:637-674 | changing the base priority keeps the invariant, donations included |
| `Donation.YieldInv` | src/threads/thread.c:602-620 | yielding keeps the invariant |
| `Donation.WakeInv` | src/threads/thread.c:518-528 | unblocking a thread keeps the invariant |
| `Donation.DispatchInv` | src/threads/thread.c:952-957 | taking the head of the ready list keeps the invariant |
| `Donation.ApplyTop` | src/threads/thread.c:637-674 | every operation except a wake-up leaves a thread running that no ready thread outranks |
| `Donation.InsertOrdered` | src/lib/kernel/list.c:375-387 | ordered insertion keeps the ready list sorted and free of duplicates |
| `Scheduler.Kernel.ListMax` | src/lib/kernel/list.c:415-425 | the loop finds the first waiter of highest effective priority |
| `Scheduler.Kernel.InsertReady` | src/threads/thread.c:494-508 | the scanning loop inserts behind every thread of equal or higher priority |
| `Scheduler.Kernel.MaxDonation` | src/threads/thread.c:646-661 | the nested list loops compute the maximum of a base priority and all waiters of the held locks |
| `Scheduler.Kernel.DonateAlong` | src/threads/synch.c:263-291 | the chain loop terminates on an acyclic chain and equals the recursive propagation |
| `Scheduler.Kernel.LockAcquire` | src/threads/synch.c:254-302 | field by field, the acquire transition of the donation model |
| `Scheduler.Kernel.LockRelease` | src/threads/synch.c:331-363 | field by field, the release transition of the donation model |
| `Scheduler.Kernel.ThreadSetPriority` | src/threads/thread.c:637-674 | field by field, the priority change of the donation model |
| `Scheduler.Kernel.ThreadYield` | src/threads/thread.c:602-620 | field by field, the yield of the donation model |
| `FreeMap.Bitmap.constructor` | src/filesys/free-map.c:55-68 | exactly sectors 0 to 66 start allocated |
| `FreeMap.Bitmap.Scan` | src/lib/kernel/bitmap.c:251-265 | finds the first run of clear bits, and reports failure only if there is none |
| `FreeMap.Bitmap.Allocate` | src/filesys/free-map.c:75-86 | first fit; succeeds if and only if a run is long enough and the map can be written back, and on failure nothing changes |
| `FreeMap.Bitmap.AllocateOne` | src/filesys/free-map.c:90 | succeeds if and only if some sector is free and the map can be written back, and takes a sector that was free |
| `FreeMap.Bitmap.Release` | src/filesys/free-map.c:93-99 | exactly the given run becomes free |
| `IndexTree.LookupFinds` | src/filesys/inode.c:78-113 | the lookup path finds every block at all three index levels |
| `Inode.SectorsDistinct` | src/filesys/inode.c:78-113 | two bytes map to the same sector if and only if they are in the same block; the sector is allocated, not reserved, and not an index sector of the file |
| `Inode.SectorInside` | src/filesys/inode.c:78-81 | exactly the bytes before the end of the file have a sector |
| `Inode.SectorsStay` | src/filesys/inode.c:449-551 | no operation on a file moves a block it already has |
| `IndexTree.LeafEnd` | src/filesys/inode.c:518-544 | completing a second-level block restores the tree invariant and keeps all earlier blocks |
| `IndexTree.DoublyEnd` | src/filesys/inode.c:502-545 | writing the doubly indirect block completes the tree |
| `IndexTree.SingleEnd` | src/filesys/inode.c:475-497 | writing the indirect block completes the tree |
| `Space.OwnedSize` | src/filesys/inode.c:449-545 | a file owns as many sectors as its blocks and index sectors number |
| `Space.GrewEnough` | src/filesys/inode.c:449-545 | a growth that succeeded took exactly the sectors of the difference, so they were free |
| `Space.StuckShort` | src/filesys/inode.c:449-545 | a growth that could not allocate has used up all free sectors and still lacks some |
| `FileBytes.GrownContents` | src/filesys/inode.c:449-551 | growing a file and raising its length pads its contents with zeros |
| `FileBytes.GrownSame` | src/filesys/inode.c:449-551 | blocks taken by a growth that failed change nothing a reader can see |
| `FileBytes.PatchedContents` | src/filesys/inode.c:596-633 | writing inside one data block changes exactly that range of the contents |
| `FileBytes.OthersKept` | src/filesys/inode.c:449-637 | an operation on one file leaves the tree and contents of every other file unchanged and the two still share no sector |
| `FileBytes.RestoresMap` | src/filesys/inode.c:149-184 | sectors allocated to others never change, so releasing what a file owns restores the free map from before it grew |
| `FileBytes.OwnedParts` | src/filesys/inode.c:149-184 | the sectors of the three levels are disjoint and together are all the file owns |
| `FileBytes.ReadStep` | src/filesys/inode.c:408-438 | a turn of the read loop extends the slice read so far, and stops only at the end of the slice clipped at the length |
| `FileBytes.WriteStep` | src/filesys/inode.c:596-633 | a turn of the write loop makes progress and extends the written prefix |
| `Inode.File.FillDirect` | src/filesys/inode.c:464-470 | fills direct pointers up to the wanted count; the tree invariant holds on failure too |
| `Inode.File.FillSingle` | src/filesys/inode.c:475-497 | fills the indirect block up to the wanted count or its end |
| `Inode.File.FillLeaf` | src/filesys/inode.c:518-544 | fills one second-level block from any starting entry |
| `Inode.File.FillDoubly` | src/filesys/inode.c:502-545 | fills the doubly indirect level up to the wanted count or the largest file |
| `Inode.File.Grow` | src/filesys/inode.c:449-545 | a file gets the blocks of a longer one exactly when the free sectors cover the data and index sectors still missing and the map can be written |
| `Inode.File.Extend` | src/filesys/inode.c:449-551 | succeeds exactly when there is that room; success pads the contents with zeros to the new length, and the file is fully backed by blocks if and only if the new length is at most (12+128+128*128) sectors; failure keeps length and contents; other files are untouched either way |
| `Inode.File.MakeRoom` | src/filesys/inode.c:570-576 | a write that ends within the file never needs room |
| `Inode.File.ReadAt` | src/filesys/inode.c:408-438 | returns exactly the requested slice of the contents, clipped at the length |
| `Inode.File.WriteAt` | src/filesys/inode.c:558-637 | denied writes change nothing; otherwise, if the write ends within the file or there is room for the rest, all of it is written: the contents become the old ones zero-padded to max(length, offset+size) with exactly the written range replaced; without room nothing is written and the contents are the old ones; where the write ends past the largest file the new length is not backed and a non-empty write reads past the doubly indirect block |
| `Inode.File.Create` | src/filesys/inode.c:193-274 | succeeds exactly when there is room; then a new file of zeros of the given length, recorded in its sector and backed by blocks if and only if the length is within the largest file; a failure gives back exactly the sectors taken if and only if the words the cleanup reads name each of them once and nothing else, which is so when no indirect block was taken |
| `Inode.File.Deallocate` | src/filesys/inode.c:149-184 | for any inode, complete or not: releases the sectors its pointers and the words of its index sectors name, in order, until one is not allocated |
| `Inode.File.Dispose` | src/filesys/inode.c:149-184 | of a complete file it releases every sector the file owns, each once and allocated at that moment, and no other |
| `Inode.File.Reclaim` | src/filesys/inode.c:359-388 | closing a removed, unlinked inode also releases its own sector |
| `Cleanup.CompleteReleases` | src/filesys/inode.c:149-184 | for a complete file the words in its index sectors name every sector it owns once and nothing else |
| `Cleanup.RunExact` | src/filesys/free-map.c:93-99 | a series of releases passes every assertion if and only if the sectors are distinct and allocated, and then exactly they become free |
| `Cleanup.CleanupExact` | src/filesys/inode.c:269-274 | the cleanup restores the free map if and only if the words it follows name what was taken |
| `Cleanup.ZeroIndexLeaks` | src/filesys/inode.c:225-234 | if the unwritten indirect block reads as zeros, every block past the direct ones stays allocated |
| `Cleanup.StalePointerFrees` | src/filesys/inode.c:225-234 | if it holds an old pointer to a sector of another file, an assertion fails or that sector is freed |
| `Division.Nlz` | src/lib/arithmetic.c:46-71 | the result normalises the word: 2^31 <= x * 2^n < 2^32 |
| `Division.LargeQuotient` | src/lib/arithmetic.c:104-118 | the estimate from the truncated divisor is the quotient or one more, and the final correction picks the quotient without wrap-around |
| `Division.NoTrap` | src/lib/arithmetic.c:104-118 | the quotient of the divide instruction fits in 32 bits |
| `Division.SmallQuotient` | src/lib/arithmetic.c:76-103 | two 32-bit divides give the quotient by a 32-bit divisor, and the second does not trap |
| `Division.Udiv64` | src/lib/arithmetic.c:76-120 | the floor of n/d for every 64-bit n and non-zero d |
| `Division.QuotIsFloor` | src/lib/arithmetic.c:76-120 | the quotient by repeated subtraction is the integer part of n/d, with its remainder |
| `Division.Umod64` | src/lib/arithmetic.c:124 | the low 32 bits of the remainder |
| `Division.UmodExact` | src/lib/arithmetic.c:124 | exact for every dividend if and only if d <= 2^32 |
| `Division.Sdiv64` | src/lib/arithmetic.c:128-133 | rounds toward zero for every pair except the most negative number over -1, which wraps |
| `Division.SdivExact` | src/lib/arithmetic.c:128-133 | the true quotient is a 64-bit number if and only if the pair is not that one |
| `Division.Smod64` | src/lib/arithmetic.c:137 | the low 32 bits, as a signed number, of the truncated remainder, for every pair |
| `Division.SmodExact` | src/lib/arithmetic.c:137 | exact for every dividend if and only if the magnitude of d <= 2^31 |
| `Cache.Install` | src/filesys/cache.c:318-340 | reusing a free or clean slot for a sector not cached changes only what is shown for that sector |
| `Cache.WriteBack` | src/filesys/cache.c:246-252 | writing a dirty slot back shows nothing new |
| `Cache.BufferCache.Lookup` | src/filesys/cache.c:213-223 | finds the slot of a sector, or that there is none |
| `Cache.BufferCache.EvictClock` | src/filesys/cache.c:145-166 | the victim is the first slot from the hand on that was not accessed recently, or the first valid one if all were; exactly the flags of the slots passed are cleared; found within two rounds, before the panic limit |
| `Cache.BufferCache.Evict` | src/filesys/cache.c:228-258 | the first free slot if there is one, with nothing changed, and otherwise the victim of the clock, written back if dirty; visible contents are unchanged |
| `Cache.BufferCache.Load` | src/filesys/cache.c:318-340 | a miss leaves the sector in the evicted slot, clean |
| `Cache.BufferCache.Read` | src/filesys/cache.c:282-346 | returns the latest data of the sector; a hit changes only its accessed flag, a miss caches it as accessed; visible contents are unchanged |
| `Cache.BufferCache.ReadAt` | src/filesys/cache.c:350-421 | returns the requested range of the latest data |
| `Cache.BufferCache.Write` | src/filesys/cache.c:425-489 | visible contents change exactly in the written range of the one sector, hit or miss, partial or full; the new data is in the cache, dirty and accessed, and the disk changes only by an eviction |
| `Cache.BufferCache.Flush` | src/filesys/cache.c:492-506 | the disk becomes equal to the visible contents, which are unchanged, and exactly the dirty flags are cleared |
| `Cache.BufferCache.Prefetch` | src/filesys/cache.c:511-541 | a cached sector is left alone, another is cached clean and not as accessed, and visible contents are unchanged, exactly when the sector is on the device; the sector after the last one makes the driver panic |
| `CacheSlots.SlotsSafe` | src/filesys/cache.c:228-541 | in every state of every interleaving: no sector in two slots, a slot is LOADING exactly while one thread and only one loads it, no LOADING slot is a victim and none at all while a slot is free, a sleeper waits on a slot still LOADING, and a thread that found its sector VALID has it until it is done |
| `CacheSlots.CacheNeverDeadlocks` | src/filesys/cache.c:228-541 | while any thread is inside an operation of a system that has not halted, some such thread has a step that does not halt it, or some thread is about to fail an assertion |
| `CacheSlots.HaltExact` | src/filesys/cache.c:228-541 | a step can halt the system if and only if a thread is about to test again a state that has changed since it last looked, or needs a slot while all are LOADING |
| `CacheHalts.HaltingRun` | src/filesys/cache.c:304-309 | the assertion in wait_for_loading can fail: a run of two threads over one slot |
| `CacheHalts.WrongSectorRun` | src/filesys/cache.c:277-279 | a thread that waited for a sector can be handed another one: a run of two threads over one slot |
| `CacheHalts.ApartIsSafe` | src/filesys/cache.c:228-541 | every run of no more threads than slots in which no two are in an operation on one sector: no assertion fails, every thread uses a VALID slot holding its sector, and while any is busy some busy one can move |
| `CacheHalts.ApartFindsValid` | src/filesys/cache.c:288-316 | in such a run a sector that is found is VALID |
| `CacheHalts.EnoughSlots` | src/filesys/cache.c:228-258 | with no more threads than slots a miss finds a slot that is not LOADING |
| `CacheFull.ThreadBoundExact` | src/filesys/cache.c:145-184 | threads that keep to different sectors never halt the system if and only if there are no more of them than slots |
| `CacheSlots.PrefetchWaitsForNobody` | src/filesys/cache.c:511-520 | a prefetch ends when its sector is in the cache, loading or not, and loads it exactly when it is not |
| `CacheSlots.FlushVisits` | src/filesys/cache.c:492-506 | a flush goes through all slots in order and may stop at each valid one and no other |
| `CacheSlots.EntryHolderSteps` | src/filesys/cache.c:282-541 | a thread holding an entry lock never waits for the global lock or for anything else |
| `CacheSlots.ReserveKeeps` | src/filesys/cache.c:325-329 | reserving a slot keeps all invariants |
| `CacheSlots.FinishKeeps` | src/filesys/cache.c:334-338 | completing a load and waking its sleepers keeps all invariants |
| `RwLock.MutualExclusion` | src/threads/synch.c:389-436 | in every state of every run, with a writer inside no other thread is inside |
| `RwLock.NoLostWakeUp` | src/threads/synch.c:389-436 | with nobody inside and the guard free, any sleeping reader or writer implies a writer that has already been signalled |
| `RwPreference.GrantExact` | src/threads/synch.c:389-414 | a reader is let in exactly when no writer is inside or waiting, asleep or signalled, and a writer exactly when nobody is inside; otherwise it sleeps |
| `RwPreference.ReleaseExact` | src/threads/synch.c:416-436 | the last reader to leave wakes one writer if writers wait and any other reader nobody; a writer wakes one writer if writers wait and otherwise all readers |
| `RwPreference.WritersPreferred` | src/threads/synch.c:389-436 | in every run, while a writer waits the set of readers inside never gains a member |
| `RwLock.LockNeverDeadlocks` | src/threads/synch.c:389-436 | as long as a thread is using the lock, some thread using it can move |
| `RwLock.LockRunKeeps` | src/threads/synch.c:389-436 | in every state of every run the four counters are the sizes of the sets they count, and at most one thread holds the guard |
| `RwLock.ReleaseWriterKeeps` | src/threads/synch.c:416-436 | a writer leaving keeps the invariants, whether it signals a writer or wakes all readers |
| `Fair.CfsLag` | src/threads/thread.c:995-1016 | at every dispatch of every run no thread is ahead of another by more than floor(4*2^20/weight) |
| `Fair.EevdfLag` | src/threads/thread.c:1025-1079 | at every dispatch that bound plus 1024 holds, and the recorded minimum is below every thread |
| `Fair.MinVruntimeMonotone` | src/threads/thread.c:1039-1040 | the recorded minimum never decreases over a run |
| `Fair.PickEevdf` | src/threads/thread.c:1025-1079 | the earliest deadline among eligible threads is found as long as the threshold fits in 64 bits; where it wraps around, threads of non-negative run time are dispatched by the fallback, the first of least virtual run time |
| `Fair.EevdfThreshold` | src/threads/thread.c:1047-1049 | no run of up to 2^43 dispatches makes the threshold wrap around |
| `Fair.PickCfs` | src/threads/thread.c:995-1016 | the first thread of least virtual run time is found |
| `Fair.ChargeBounds` | src/threads/thread.c:572-600 | a slice moves virtual time forward by at most floor(4*2^20/weight) |
| `FairShare.ChargeExact` | src/threads/thread.c:572-600 | running for some ticks adds ticks * 2^20 / weight to the virtual run time, rounded down, and sets the deadline one weighted slice later |
| `FairShare.WeightTable` | src/threads/thread.c:197-208 | nice 0 weighs 1024, each step of nice divides the weight by 1.2 to 1.3, and values out of range count as the nearest end |
| `FairShare.WeightFalls` | src/threads/thread.c:197-208 | the weight strictly falls with nice over -20 to 20 |
| `FairShare.TimeAccounts` | src/threads/thread.c:572-600 | over any turns a thread gains processor time over weight, short by less than one unit per dispatch |
| `FairShare.CfsShare` | src/threads/thread.c:995-1016 | proportional share: over any CFS run the processor times of two threads, each over its weight, differ by at most one slice, and one unit of rounding per dispatch |
| `FairShare.EevdfShare` | src/threads/thread.c:1025-1079 | the same over any EEVDF run, plus 1024 |
| `FairShare.CfsTurns` | src/threads/thread.c:995-1016 | every CFS run is a sequence of such turns |
| `FairShare.EevdfTurns` | src/threads/thread.c:1025-1079 | every EEVDF run is a sequence of such turns |
| `Fair.EevdfRepresentable` | src/threads/thread.c:1025-1079 | no run of up to 2^43 dispatches leaves the 64-bit range |
| `Fair.CfsRepresentable` | src/threads/thread.c:995-1016 | no run of up to 2^43 dispatches leaves the 64-bit range |
| `Fair.RunQueue.SliceCfs` | src/threads/thread.c:602-620 | a dispatch, a slice and the yield on the ready list are one step of the CFS run, and every thread is listed once again |
| `Fair.RunQueue.SliceEevdf` | src/threads/thread.c:602-620 | a dispatch, a slice and the yield on the ready list are one step of the EEVDF run |
| `Raid5.LayoutOf` | src/devices/raid.c:246-282 | each sector has a data cell that is not the parity cell of its row, and the cell determines the sector |
| `Raid5.LayoutBack` | src/devices/raid.c:246-282 | each non-parity cell holds exactly one sector |
| `Raid5.ParityFirst` | src/devices/raid.c:246-249 | row 0 has its parity on the last disk |
| `Raid5.ParityNext` | src/devices/raid.c:246-249 | the next row has it one disk down, and after disk 0 on the last disk again |
| `Raid5.ParityRotates` | src/devices/raid.c:246-249 | any n consecutive rows have their parity on each of n disks exactly once |
| `Raid5.RowAscends` | src/devices/raid.c:255-282 | a row holds n - 1 consecutive sectors, on its other disks in ascending order |
| `Raid5.CapacityExact` | src/devices/raid.c:79-82 | the capacity is that of all disks but one |
| `Raid5.RowInRange` | src/devices/raid.c:79-82 | a sector is within the capacity if and only if its row is on the disks |
| `Raid5.FindDataDisk` | src/devices/raid.c:255-273 | the counting loop skips the parity disk |
| `Raid5.WritesKeep` | src/devices/raid.c:121-183 | after any sequence of writes to a consistent array every row still XORs to zero and every sector reads as its last write |
| `Raid5.Rebuild` | src/devices/raid.c:284-296 | in a consistent array any one disk equals the XOR of the others |
| `Raid5.RebuildBlock` | src/devices/raid.c:284-296 | computing parity over the other blocks of a row gives back the lost block |
| `Raid5.Array5.Write` | src/devices/raid.c:158-183 | the read-modify-write loop computes the write of the model |
| `Raid5.Array5.Read` | src/devices/raid.c:121-126 | reads the data cell of the sector |
| `Raid5.ComputeParity` | src/devices/raid.c:288-296 | the nested loops XOR all buffers byte by byte |
| `Heap.Allocator.constructor` | src/threads/malloc.c:68-79 | seven size classes 16 to 1024, within the ten descriptors |
| `Heap.Allocator.Malloc` | src/threads/malloc.c:83-142 | a new live block of the smallest class that holds the request, the first on its free list, or pages of its own; a page is taken only if that list is empty; at least as large as requested if and only if the request is at most 2^32-12; blocks already held keep address and size; null exactly for size 0 or when pages are needed and there are none, and then nothing changes |
| `Heap.Allocator.Free` | src/threads/malloc.c:196-233 | exactly that block stops being live and goes to the front of its free list; other blocks keep address and size; its page is given back exactly if it has no other live block |
| `Heap.BlocksDisjoint` | src/threads/malloc.c:83-142 | live blocks never overlap |
| `Heap.BlockInside` | src/threads/malloc.c:237-257 | a live block lies inside the pages of its arena, behind the header |
| `Heap.ArenaInUse` | src/threads/malloc.c:215-225 | every page held has a live block |
| `Heap.AddrBack` | src/threads/malloc.c:237-249 | the arena and the block index are recovered from the address |
| `Heap.BigPagesEnough` | src/threads/malloc.c:98-110 | the pages asked for hold a big request if and only if adding the header does not wrap in 32 bits |
| `Heap.BigPagesLeast` | src/threads/malloc.c:98-110 | and one page less would not hold it |
| `Heap.PerArenaMost` | src/threads/malloc.c:68-79 | a page holds as many blocks as fit behind its header |
| `Heap.WrappedRequest` | src/threads/malloc.c:98-110 | the largest request is granted one page, less than asked for |
| `Heap.PopKeeps` | src/threads/malloc.c:136-141 | taking a block keeps counts, lists and liveness in step |
| `Heap.PushKeeps` | src/threads/malloc.c:210-216 | returning a block keeps counts, lists and liveness in step |
| `Heap.DropKeeps` | src/threads/malloc.c:215-225 | an arena is dropped only without live blocks, and its blocks leave the free list |
| `Octal.FormatOctal` | src/lib/stdio.c:456-522 | the reversed digit buffer and padding give exactly the zero-padded octal digits |
| `Octal.ParseOctalField` | src/lib/ustar.c:116-140 | accepts a field if and only if it starts with one or more octal digits, then a space or null byte, standing for a number that fits an unsigned long, and returns that number |
| `Octal.ParseExact` | src/lib/ustar.c:116-140 | the number a field is accepted as is the value of its leading digits, and no field is accepted as any other |
| `Octal.RoundTrip` | src/lib/ustar.c:116-140 | parsing undoes printing for every value that fits the field and an unsigned long |
| `Ustar.StripIdempotent` | src/lib/ustar.c:60-64 | stripping twice is stripping once, and the result never starts at the root or above |
| `Ustar.StripHarmless` | src/lib/ustar.c:60-64 | a stripped name does not begin with "/", "./" or "../" and is not "..", and exactly the non-empty names like that are left alone |
| `Ustar.StripPrefixes` | src/lib/ustar.c:60-64 | the loop terminates and computes the stripped name |
| `Ustar.Checksum` | src/lib/ustar.c:34-49 | the sum of all bytes with the checksum field read as spaces |
| `Ustar.MakeHeader` | src/lib/ustar.c:72-104 | refuses stripped names over 99 bytes, otherwise fills the buffer with the complete header |
| `Ustar.ComposedOwner` | src/lib/ustar.c:86-96 | permissions, owner, group, time and names of a composed header as a reader finds them |
| `Ustar.ParseHeader` | src/lib/ustar.c:157-198 | each error for the first test that fails; an entry has the checksum of the header, a name that is "." or a piece of the name field up to its null byte and never starts at the root or above, and the type and size the header says |
| `Ustar.EntryIsSaid` | src/lib/ustar.c:157-198 | the same for every 512 bytes that are accepted |
| `Ustar.AcceptExact` | src/lib/ustar.c:157-198 | exactly the headers with the magic word, version 00, a right checksum, a terminated name without prefix, a known type and, for files, a size that fits an int are accepted |
| `Ustar.DamageNoticed` | src/lib/ustar.c:157-198 | changing any one byte outside the checksum field of an accepted header makes it an error, never another entry or the end of the archive |
| `Ustar.EntryComposes` | src/lib/ustar.c:72-198 | composing an accepted entry again gives a header that parses to the same entry |
| `Ustar.HeaderRoundTrip` | src/lib/ustar.c:72-198 | parsing a composed header gives back the stripped name, the type and the size (0 for directories), for all sizes; only a negative size of a regular file is rejected |
| `Mlfqs.Clock.Tick` | src/devices/timer.c:188-205 | with at most 135 ready or running threads every tick evaluates the formulas exactly in 32 bits, and load_avg stays in [0, N*65536] and recent_cpu within (120*(2N+1)+100)*65536 |
| `Mlfqs.Clock.UpdateStats` | src/threads/thread.c:800-809 | the per-second loop computes the new load and recent_cpu of every thread exactly |
| `Mlfqs.RecentBound` | src/threads/thread.c:743-757 | the decay outweighs what a second and a nice value can add |
| `Mlfqs.LoadBound` | src/threads/thread.c:762-779 | the load average never exceeds the largest number of ready threads |
| `Mlfqs.RecentExact` | src/threads/thread.c:743-757 | the 32-bit evaluation equals the formula |
| `Mlfqs.LoadExact` | src/threads/thread.c:762-779 | the 32-bit evaluation equals the formula |
| `Mlfqs.PriorityExact` | src/threads/thread.c:723-738 | 63 less one for every four ticks of recent use and two for every point of nice, within 0 and 63: the priority says within which four ticks recent_cpu lies |
| `Mlfqs.LoadFormula` | src/threads/thread.c:762-779 | 59/60 of the old load and 1/60 of the ready threads, with the rounding error bounded |
| `Mlfqs.RecentFormula` | src/threads/thread.c:743-757 | (2 load)/(2 load + 1) of the old value, rounded toward zero, plus nice, with the rounding error bounded |
| `Mlfqs.GetRecentExact` | src/threads/thread.c:713-718 | multiplying by 100 and rounding stays in 32 bits if and only if -21474836 <= recent_cpu <= 21474508; the number returned is the rounded true value if and only if -21475164 <= recent_cpu <= 21474508 |
| `Mlfqs.Clock.AddThread` | src/threads/thread.c:885-897 | a new thread, with nice value 0 and no recent use, is within the bounds |
| `Mlfqs.Clock.SetNice` | src/threads/thread.c:678-699 | a new nice value recomputes the priority and keeps the bounds |
| `MlfqsRun.FeedbackIgnored` | src/threads/thread.c:461-508 | two systems that differ in nice values, recent_cpu, computed priorities and load, but not in the priorities their threads were created with, run the same threads at the same ticks for ever |
| `MlfqsRun.HighestStays` | src/threads/thread.c:602-620 | a thread created with a higher priority than every ready one keeps the processor at the end of each slice, whatever its computed priority |
| `MlfqsRun.RecentReadsNegative` | src/threads/thread.c:713-718 | a run from the start of the system, by the dispatch of the code: 135 threads as created, one with priority 63 and the others with 31, and within four seconds thread_get_recent_cpu returns a negative number for a positive value |

## Left out

- Inode.File.Extend: after a failure only the file's length and contents, the other files and the balance of the free map are promised; blocks already taken are leaked, as the source says.
- WalManager.Wal.Abort: when records of the transaction have left the 64-slot window only the readable ones are undone; WalRollback.AbortExact says exactly when that happens.
- Fair.RunQueue.SliceEevdf: threads that block, wake or change nice value in between are not modelled.
- Checksums of log records, log metadata and shutdown markers, log statistics and the list of active transactions.
- Failure of `malloc` inside the log and inode code. Whether the free map can be written back is fixed for a volume.
- Concurrent log appends while the append routine has dropped its lock.
- The scan for a victim is one step of `CacheSlots`; accessed bits that change during it are not modelled.
- Directories, paths, symbolic links, open-inode lists, link counts and deny-write counts beyond the test in a write.
- FIFO replacement in the cache; stride and lottery scheduling, which the source does not implement.
- Under the feedback queue, threads that block, wake, or call thread_set_nice in the middle of a slice.
- RAID 0 and RAID 1, `calloc` and `realloc`, printf conversions other than zero-padded octal: short routines without an invariant that spans calls.
- Device drivers, interrupts, paging, boot code and networking.
