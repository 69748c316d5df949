# MCSOS: verified models of six kernel components

MCSOS is a small teaching kernel written in C. This project models six of its
components in Dafny and proves what they promise, over every run and every
input: the journalled filesystem, the MCSFS1 filesystem, the buffer cache over
the block layer and the RAM disk, the kernel heap, the frame allocator with the
four-level page tables, and the scheduler with its locks.

Each component comes in two layers. The classes and methods follow the C code
statement by statement: the same loops, the same order of writes, the same
return codes, with buffers as arrays and structures as fields updated in place.
Every method is proved against a function or predicate on plain values, and the
theorems are about those values. `dafny verify dfyconfig.toml` checks
everything.

| files | component |
|---|---|
| `Bytes`, `Bitmap`, `CStrings` | little-endian fields, bitmaps in byte buffers, C strings |
| `JournalDisk`, `Journal`, `JournalCrash`, `JournalDamage` | block device with its fault counter, commit and recovery, power cuts, damaged journals |
| `JournalFs`, `JournalWrite`, `JournalRuns`, `JournalOps`, `JournalCheck`, `JournalSpace` | the filesystem on top: files, the two-transaction write, runs with cuts, the operations, what they accept, free space over runs |
| `Mcsfs1Layout`, `Mcsfs1Files`, `Mcsfs1`, `Mcsfs1Check`, `Mcsfs1Runs`, `Mcsfs1Space` | MCSFS1: disk layout, invariant, operations, what the checker accepts, runs, space over runs |
| `BlockLayer`, `CacheModel`, `CacheRuns`, `CacheRefusals`, `Bcache` | RAM disk and range check, the cache as a value, runs, runs with refused reads, the cache |
| `KmemModel`, `Kmem` | heap blocks and runs, headers in memory |
| `PmmModel`, `Pmm`, `PageEntry`, `VmmModel`, `Vmm`, `VmmRuns` | frames, page-table entries, page tables, both together |
| `SchedModel`, `Scheduler`, `Mutex`, `Lockdep`, `LockOrder` | scheduling, the owner mutex, the lock-order validator with spinlocks |

## Main results

- **Journal.** A write of a file runs two transactions. Cut it off after any
  number of block writes, during the mount before it or in a later recovery, as
  often as you like: once a recovery completes, fsck accepts the disk,
  every older file reads as before, and the new name is absent or reads exactly
  its data. The deciding write is the 27th after the mount
  (`JournalRuns.WriteKeeps`, `FilesAreDurable`, `AcknowledgedWritesSurvive`,
  `NothingAppears`; for one transaction `JournalCrash.CommitIsAtomic` and
  `RecoveryRestarts`). Every inode and block taken is accounted for, and a new
  file is refused exactly when files and writes cut between the two transactions
  use up the inodes or the files use up the directory
  (`JournalSpace.SpaceAccounted`, `NoSpaceExactly`). On any disk whatever, recovery
  redoes a transaction exactly if the journal holds what a commit of it wrote
  (`JournalDamage.RecoverExactly`), and one changed byte of the header or of a
  payload is always noticed (`HeaderDamage`, `PayloadDamage`, from
  `ChecksumTellsApart`).
- **MCSFS1.** Every run of create, write, read, unlink and stat that creates no
  name of exactly 27 bytes is a run on a map from names to byte strings, and fsck
  passes throughout (`Mcsfs1Runs.Run`, `ReadsLastWrite`,
  `Mcsfs1Files.*KeepsConsistent`). The code of every operation of such a run,
  NOSPC included, follows from an account of blocks held, free and lost
  (`Mcsfs1Space.RunBooked`, `FormatAndRun`, `StepBooked`). The checker accepts any
  volume exactly if it mounts, its metadata is marked and every file can be read to
  its end from marked blocks (`Mcsfs1Check.CheckMeans`).
- **Cache.** Over every run the cached devices stand for what plain devices would
  hold; a flush makes the devices equal to that (`CacheRuns.RunRefines`,
  `CacheModel.FlushAllSyncs`). In runs from an empty cache in which no read is
  refused, a block brought in stays for exactly `entry_count - 1` further misses
  (`CacheRuns.CachedForExactly`). In all runs, whatever is refused later, it is
  sure to stay until that many misses have been served exactly if no slot in use
  lay between empty ones when it came in, given a device with more blocks than
  slots (`CacheRefusals.SureToStayExactly`, `StaysDespiteRefusals`).
- **Heap.** After every run the blocks tile the arena with no two neighbours free;
  live blocks stay put and payloads are never written. A request is refused exactly
  if no free block is large enough, the blocks in use are exactly those handed out
  and not given back, no two of them overlap, and a run that gives everything back,
  in whatever order, ends with the initial block (`KmemModel.RunKeepsInv`,
  `RefusedExactly`, `LiveAreOwed`, `NotHandedOutTwice`, `AllReturnedEndsWhole`,
  `Kmem.Heap.*`).
- **Frames and page tables.** The hinted search always yields the lowest free
  frame; the page tables refine a partial map on page addresses, and no frame
  ever serves as two tables. A reserved frame is not handed out before it is freed,
  and mapping, even when it fails, loses no frame (`PmmModel.AllocTakesLowest`,
  `InitMeaning`, `ReservedNotHandedOut`, `VmmModel.MapAddsOne`, `UnmapRemovesOne`,
  `MapCode`, `VmmRuns.RunRefines`, `MapTakesTables`).
- **Scheduler and locks.** A thread at position `p` of the ready queue runs at
  exactly the `p + 1`-st passing of control; the mutex excludes in every
  interleaving; threads that ask the validator never wait in a circle
  (`SchedModel.FirstInFirstOut`, `Mutex.MutualExclusion`,
  `LockOrder.NoWaitCycle`).

## Where the code differs from what is said about it

The model follows the code. Each difference is stated by lemmas: a concrete case,
and the condition under which the promise does hold.

- Report M16, invariant 6 says that recovery writes nothing when the journal is
  corrupt. Recovery checks and applies one record at a time, so it writes nothing
  exactly when the header or the first record is bad
  (`JournalCrash.CorruptWritesNothingExactly`, `CorruptRecoveryCanWrite`).
- Report M16 lists a corrupt descriptor among the failures that recovery answers
  with CORRUPT. Neither checksum covers the record's target: a descriptor in which
  nothing but the target differs, and names another block of the device outside the
  journal, sends the record there, and every other difference in its 16 bytes is
  noticed (`JournalDamage.DescriptorDamage`).
- Report M12, invariant 4 says that a locked mutex has an owner. It has none in
  the two windows around the stores to `owner`, and only there
  (`Mutex.OwnerKnownExactly`, `WindowIsReached`). The other half, that an unlocked
  mutex has no owner, holds.
- Report M9, invariant 1 says that one thread is RUNNING. The idle thread keeps
  that state when another thread runs, so the claim holds exactly while the idle
  thread is current (`SchedModel.OneRunsExactly`, `TwoRun`).
- MCSFS1 accepts names of 27 bytes, which fill their field without a terminator.
  Such a name is found exactly when the next directory slot is free, and a run in
  which it is lost is given (`Mcsfs1Runs.FullNameFoundExactly`, `FullNameIsLost`).
- A file write is atomic for the files, not for the space: the inode and block of
  a write cut between its two transactions are lost, and fifteen such writes fill
  an empty disk (`JournalSpace.NoSpaceExactly`, `FilledWithoutFiles`).
- A memory-map region whose bounds do not survive the 64-bit rounding is taken
  for all of memory or for none of it (`PmmModel.FreeSpanExactly`,
  `UsedSpanExactly`, `WrappedRegionFreesAll`, `LateRegionReservesNothing`).
- Reads that a device refuses can shorten or lengthen the stay of a cached block
  (`CacheRefusals.RefusedReadShortensStay`, `RefusedReadLengthensStay`). That it
  stays until `entry_count - 1` further misses have been served is guaranteed, for
  every continuation with any refused reads, if and only if no slot in use lay
  between empty ones when it was brought in (`CacheRefusals.SureToStayExactly`; the
  only-if half needs a device with more blocks than there are slots). When no read
  is refused afterwards, `CacheRuns.BroughtIn` and `StaysExactly` give the stay from
  any state, and `CacheRuns.EvictedExactly` says of each request, refused or not,
  whether it evicts the block.
- A write that runs out of space in MCSFS1 marks every data block that was left and
  gives none back: they are lost until a format. The account says exactly when that
  happens, and a run is given that ends without a file and with two blocks of eight
  (`Mcsfs1Space.StepBooked`, `LostStaysLost`, `LostWithoutFiles`).
- The heap check accepts a list that stops short of the end of the heap. A list it
  accepts covers the heap exactly if its sizes are aligned and its last block ends
  where the heap does
  (`Kmem.CheckExactly`, `ChainTilesExactly`, `CheckIgnoresTail`). What it says of
  one damaged header is given in full (`Kmem.DamageFound`).
- The RAM-disk driver's own test lets wrapped offsets pass. What it lets through
  goes to the right blocks exactly if the offset does not wrap, and the range
  check of the block layer lets no other through
  (`BlockLayer.DriverReachesExactly`, `InRangeFits`, `WrappedRead`).

## Model

| member | source | states |
|---|---|---|
| Bytes.DecodeEncode | kernel/fs/mcsfs1j/m16_mcsfs_journal.c:229-235 | a little-endian field holds the number stored in it |
| Bytes.GetPutSame | kernel/fs/mcsfs1j/m16_mcsfs_journal.c:268-276 | reading a structure field gives what was stored |
| Bytes.GetPutApart | kernel/fs/mcsfs1j/m16_mcsfs_journal.c:268-276 | storing one field leaves fields that do not overlap it |
| Bitmap.MaskTest | src/pmm.c:31-33 | the bit test is the mask test the C code writes, for every byte and bit |
| Bitmap.Mark | src/pmm.c:23-29 | setting or clearing a bit changes that bit and no other |
| CStrings.CNamePadded | kernel/fs/mcsfs1j/m16_mcsfs_journal.c:521-522 | a name shorter than its zero-padded field is read back from it |
| JournalDisk.Device.constructor | kernel/fs/mcsfs1j/m16_mcsfs_journal.c:178-185 | a fresh device: zero blocks, no fault planned |
| JournalDisk.Device.ReadBlock | kernel/fs/mcsfs1j/m16_mcsfs_journal.c:155-161 | the block, or INVAL outside the device |
| JournalDisk.Device.WriteBlock | kernel/fs/mcsfs1j/m16_mcsfs_journal.c:163-176 | one write under the fault counter: it goes through and is counted, or fails and changes nothing, now and from then on |
| JournalDisk.Redo | kernel/fs/mcsfs1j/m16_mcsfs_journal.c:292-335 | a list of writes redone after any prefix of it gives what doing it once gives |
| Journal.ComputeChecksum | kernel/fs/mcsfs1j/m16_mcsfs_journal.c:141-149 | the loop computes the FNV-1a checksum of its bytes |
| Journal.HeaderRoundTrip | kernel/fs/mcsfs1j/m16_mcsfs_journal.c:268-309 | the header a commit writes is one that recovery takes as committed, with the same count |
| Journal.SlotRoundTrip | kernel/fs/mcsfs1j/m16_mcsfs_journal.c:251-267 | a logged record is read back by recovery with its target and data |
| Journal.CommitWrites | kernel/fs/mcsfs1j/m16_mcsfs_journal.c:243-290 | the writes of a commit one by one: clear, log, header, home blocks, clear |
| Journal.Commit | kernel/fs/mcsfs1j/m16_mcsfs_journal.c:243-290 | under any fault point exactly a prefix of the commit's writes reaches the disk, and the code says whether all did |
| Journal.WriteTransaction | kernel/fs/mcsfs1j/m16_mcsfs_journal.c:247-290 | the same for a transaction that passed the argument check |
| Journal.WriteLog | kernel/fs/mcsfs1j/m16_mcsfs_journal.c:247-267 | clearing the header and writing the records, or the point where that was cut off |
| Journal.LogRecord | kernel/fs/mcsfs1j/m16_mcsfs_journal.c:252-266 | one descriptor and one payload, in that order |
| Journal.WriteHome | kernel/fs/mcsfs1j/m16_mcsfs_journal.c:283-289 | the records written home in order, then the header cleared |
| Journal.ReplayRecord | kernel/fs/mcsfs1j/m16_mcsfs_journal.c:312-332 | one record checked against the disk as it is and applied, or CORRUPT and nothing written; `JournalDamage.SlotExactly` says which records pass |
| Journal.Replay | kernel/fs/mcsfs1j/m16_mcsfs_journal.c:311-333 | records are replayed one at a time until the end or a bad one |
| Journal.Recover | kernel/fs/mcsfs1j/m16_mcsfs_journal.c:292-335 | under any fault point recovery performs a prefix of its plan and returns its code; `JournalDamage.RecoverExactly` says what the plan is on every disk |
| JournalCrash.ReplayIsStatic | kernel/fs/mcsfs1j/m16_mcsfs_journal.c:311-333 | re-reading the journal after each record changes nothing as long as no record is aimed at the journal |
| JournalCrash.CutRecovery | kernel/fs/mcsfs1j/m16_mcsfs_journal.c:292-335 | a recovery cut off anywhere can be repeated with the same result |
| JournalCrash.RecoveryRestarts | kernel/fs/mcsfs1j/m16_mcsfs_journal.c:292-335 | however often and wherever recovery is cut off, one that completes ends where an undisturbed one would have, with the same code |
| JournalCrash.LogCommits | kernel/fs/mcsfs1j/m16_mcsfs_journal.c:247-279 | once the header is written the journal holds exactly the transaction |
| JournalCrash.BeforeCommit | kernel/fs/mcsfs1j/m16_mcsfs_journal.c:247-276 | before the header write the journal counts as empty and the home blocks are untouched |
| JournalCrash.AfterCommit | kernel/fs/mcsfs1j/m16_mcsfs_journal.c:276-289 | from the header write on, recovery applies every record, wherever the home writes stopped |
| JournalCrash.CommitIsAtomic | kernel/fs/mcsfs1j/m16_mcsfs_journal.c:243-335 | for up to 8 records, duplicates included, and any cut: after recovery the home blocks are all unchanged or have all records applied in order, and the journal is empty; the header write decides |
| JournalCrash.CorruptWritesNothingExactly | kernel/fs/mcsfs1j/m16_mcsfs_journal.c:292-335 | a CORRUPT recovery has written nothing if and only if the header or the first record is bad |
| JournalCrash.CorruptRecoveryCanWrite | kernel/fs/mcsfs1j/m16_mcsfs_journal.c:292-335 | a journal on which recovery changes a home block and then reports CORRUPT |
| JournalDamage.XorBits | kernel/fs/mcsfs1j/m16_mcsfs_journal.c:145-145 | the exclusive or of the model is that of the bits |
| JournalDamage.ChecksumTellsApart | kernel/fs/mcsfs1j/m16_mcsfs_journal.c:141-149 | sequences that differ in exactly one byte have different checksums |
| JournalDamage.KnownSums | kernel/fs/mcsfs1j/m16_mcsfs_journal.c:141-149 | the checksum agrees with the published values of 32-bit FNV-1a for the empty string and for `a` |
| JournalDamage.SlotExactly | kernel/fs/mcsfs1j/m16_mcsfs_journal.c:312-327 | recovery takes a record for a write if and only if the payload is its data and the descriptor's 16 bytes are those a commit writes |
| JournalDamage.HeaderExactly | kernel/fs/mcsfs1j/m16_mcsfs_journal.c:304-309 | recovery takes a header for committed if and only if its first 24 bytes are those a commit writes for some number and count of at most 8, and its checksum is right |
| JournalDamage.EmptyExactly | kernel/fs/mcsfs1j/m16_mcsfs_journal.c:301-303 | the journal counts as empty if and only if magic and state are as clearing leaves them |
| JournalDamage.ReplayExactly | kernel/fs/mcsfs1j/m16_mcsfs_journal.c:311-334 | a replay writes a list of records home and clears the journal if and only if each record in turn is what a commit writes |
| JournalDamage.RecoverExactly | kernel/fs/mcsfs1j/m16_mcsfs_journal.c:292-335 | recovery of any disk: nothing to do exactly on a cleared journal, the transaction exactly if a commit of it wrote the journal, CORRUPT otherwise |
| JournalDamage.DescriptorDamage | kernel/fs/mcsfs1j/m16_mcsfs_journal.c:312-321 | what any replacement of a descriptor leads to: another target if nothing but an in-range target differs, else CORRUPT with the records before it written |
| JournalDamage.PayloadDamage | kernel/fs/mcsfs1j/m16_mcsfs_journal.c:322-329 | one changed byte of a payload is always noticed, and only the records before it are written |
| JournalDamage.HeaderDamage | kernel/fs/mcsfs1j/m16_mcsfs_journal.c:301-309 | one changed byte of the header block is always noticed, and nothing is written |
| JournalFs.FindFrom | kernel/fs/mcsfs1j/m16_mcsfs_journal.c:438-446 | the first entry in use whose name matches, or none |
| JournalFs.SameHomeSameFiles | kernel/fs/mcsfs1j/m16_mcsfs_journal.c:558-653 | the checker's verdict and every file depend on the home blocks only |
| JournalFs.AddInodeClean | kernel/fs/mcsfs1j/m16_mcsfs_journal.c:513-518 | taking a free inode and block keeps the disk clean, and no entry uses them yet |
| JournalFs.AddEntryClean | kernel/fs/mcsfs1j/m16_mcsfs_journal.c:513-522 | adding the directory entry for them keeps the disk clean |
| JournalFs.InodesWith | kernel/fs/mcsfs1j/m16_mcsfs_journal.c:515-518 | filling in one inode of the table changes that inode only |
| JournalFs.EntriesWith | kernel/fs/mcsfs1j/m16_mcsfs_journal.c:519-522 | writing one directory entry changes that entry only |
| JournalWrite.MetaTxEffect | kernel/fs/mcsfs1j/m16_mcsfs_journal.c:513-538 | what the first transaction does to bitmaps, inodes and directory |
| JournalWrite.DataTxEffect | kernel/fs/mcsfs1j/m16_mcsfs_journal.c:519-551 | what the second transaction does: one entry and one data block |
| JournalWrite.MetaKeepsFiles | kernel/fs/mcsfs1j/m16_mcsfs_journal.c:513-538 | after the first transaction alone the disk is clean and every name reads as before |
| JournalWrite.DataAddsFile | kernel/fs/mcsfs1j/m16_mcsfs_journal.c:542-551 | after both, the new name reads its data and every other name as before |
| JournalWrite.TransactionRecovers | kernel/fs/mcsfs1j/m16_mcsfs_journal.c:243-335 | a transaction that changes the files, cut off anywhere, recovers to the files before it or after it |
| JournalWrite.TwoTransactions | kernel/fs/mcsfs1j/m16_mcsfs_journal.c:538-551 | two transactions in a row, cut off anywhere: the second one's header write decides |
| JournalWrite.FilePlanRecovers | kernel/fs/mcsfs1j/m16_mcsfs_journal.c:458-552 | the whole write on a mounted clean disk, cut off after any number of writes, recovers to the old files or the old files and the new one; it succeeds only for a new name, and an error writes nothing |
| JournalWrite.CompleteCommit | kernel/fs/mcsfs1j/m16_mcsfs_journal.c:243-290 | a commit that is not cut off leaves its records applied and the journal empty |
| JournalRuns.RebootKeeps | kernel/fs/mcsfs1j/m16_mcsfs_journal.c:292-335 | a reboot cut off anywhere leaves an accepted disk that recovers to the same disk |
| JournalRuns.WriteKeeps | kernel/fs/mcsfs1j/m16_mcsfs_journal.c:399-552 | from any accepted disk, with any name, data and cut, mount included: accepted again, old files unchanged, the new file there exactly if its deciding write was done |
| JournalRuns.StepKeeps | kernel/fs/mcsfs1j/m16_mcsfs_journal.c:399-552 | what one event of a run does to each name |
| JournalRuns.FilesAreDurable | kernel/fs/mcsfs1j/m16_mcsfs_journal.c:399-653 | in every run the checker accepts the disk at every point, and a file once readable never changes or vanishes |
| JournalRuns.AcknowledgedWritesSurvive | kernel/fs/mcsfs1j/m16_mcsfs_journal.c:458-552 | a write carried through reads back its data at the end of every run, whatever power cuts follow |
| JournalRuns.NothingAppears | kernel/fs/mcsfs1j/m16_mcsfs_journal.c:458-597 | what is readable at the end was readable at the start or is the data of a write to that name |
| JournalOps.StrEq | kernel/fs/mcsfs1j/m16_mcsfs_journal.c:129-139 | whether the stored name is the given one, comparing 32 characters at most |
| JournalOps.FindDirent | kernel/fs/mcsfs1j/m16_mcsfs_journal.c:438-446 | the first matching entry, or NOENT if there is none |
| JournalOps.FindFreeDirent | kernel/fs/mcsfs1j/m16_mcsfs_journal.c:448-456 | the first unused entry, or NOSPC if there is none |
| JournalOps.FindFreeBit | kernel/fs/mcsfs1j/m16_mcsfs_journal.c:420-436 | the first clear bit of the range, or NOSPC if there is none |
| JournalOps.CheckSuper | kernel/fs/mcsfs1j/m16_mcsfs_journal.c:411-416 | CORRUPT exactly unless magic, version, sizes and layout are right |
| JournalOps.Mount | kernel/fs/mcsfs1j/m16_mcsfs_journal.c:399-418 | recovery under the fault counter, then the superblock check; on success the disk is the recovered one |
| JournalOps.LoadTable | kernel/fs/mcsfs1j/m16_mcsfs_journal.c:195-204 | the four table blocks one after the other |
| JournalOps.Choose | kernel/fs/mcsfs1j/m16_mcsfs_journal.c:495-509 | EXISTS, NOSPC or the first free inode, block and slot, tested in that order |
| JournalOps.CommitTwo | kernel/fs/mcsfs1j/m16_mcsfs_journal.c:538-551 | the second transaction starts only when the first has been completed |
| JournalOps.AddFile | kernel/fs/mcsfs1j/m16_mcsfs_journal.c:474-552 | everything after the mount performs a prefix of its plan of writes |
| JournalOps.WriteFile | kernel/fs/mcsfs1j/m16_mcsfs_journal.c:458-552 | the whole call performs a prefix of its plan of writes under any fault point, with the matching code |
| JournalOps.Fetch | kernel/fs/mcsfs1j/m16_mcsfs_journal.c:567-597 | reading from a mounted disk: NOENT, CORRUPT, INVAL or the bytes, as long as the copy, if it is reached, stays inside the block buffer |
| JournalOps.ReadFile | kernel/fs/mcsfs1j/m16_mcsfs_journal.c:558-597 | a failed mount's code, or what the recovered disk holds for the name, under the same condition |
| JournalOps.FetchReads | kernel/fs/mcsfs1j/m16_mcsfs_journal.c:558-597 | on a clean disk reading gives the bytes the name stands for, or INVAL for a short buffer, or NOENT |
| JournalOps.AcceptedRead | kernel/fs/mcsfs1j/m16_mcsfs_journal.c:558-597 | reading an accepted disk changes no file and answers with the file's bytes; it fails only on a cut |
| JournalOps.MountRan | kernel/fs/mcsfs1j/m16_mcsfs_journal.c:399-418 | mounting an accepted disk changes no file and fails only when it is cut off |
| JournalOps.Fsck | kernel/fs/mcsfs1j/m16_mcsfs_journal.c:599-653 | the mount's code, or OK exactly when the recovered disk is clean and CORRUPT otherwise; on an accepted disk OK, or IO on a cut, and it stays accepted |
| JournalOps.Check | kernel/fs/mcsfs1j/m16_mcsfs_journal.c:608-652 | OK exactly on clean contents |
| JournalCheck.SuperExactly | kernel/fs/mcsfs1j/m16_mcsfs_journal.c:411-416 | a superblock is accepted if and only if magic, version, block size, directory and data start are as a format writes them |
| JournalCheck.MountExactly | kernel/fs/mcsfs1j/m16_mcsfs_journal.c:399-418 | on any disk a mount succeeds if and only if recovery does and leaves such a superblock; it writes what recovery writes |
| JournalCheck.RootExactly | kernel/fs/mcsfs1j/m16_mcsfs_journal.c:628-636 | the root is accepted if and only if it is marked, in use, a directory and at its block, with all metadata blocks marked |
| JournalCheck.CheckMeans | kernel/fs/mcsfs1j/m16_mcsfs_journal.c:608-652 | the checker accepts a disk if and only if superblock and root are right and every entry leads to a file with its inode and block marked |
| JournalCheck.FetchMeans | kernel/fs/mcsfs1j/m16_mcsfs_journal.c:567-597 | on any disk: NOENT if and only if no entry has the name, bytes only from a file in use that fits the buffer and lies on the disk, and never CORRUPT on a disk the checker accepts |
| JournalCheck.WriteCode | kernel/fs/mcsfs1j/m16_mcsfs_journal.c:458-509 | TOOLONG if and only if the name is empty or too long, INVAL if and only if otherwise the data is too long; a write that is refused leaves the recovered disk as it was, wherever it is cut off |
| JournalCheck.Numbered | kernel/fs/mcsfs1j/m16_mcsfs_journal.c:513-551 | the two commit headers of a write carry the two numbers after the superblock's generation, and six and two records |
| JournalOps.CheckEntry | kernel/fs/mcsfs1j/m16_mcsfs_journal.c:639-650 | one entry's checks, all of them |
| JournalOps.FormattedIsAccepted | kernel/fs/mcsfs1j/m16_mcsfs_journal.c:337-397 | what a format leaves is accepted and holds no file |
| JournalOps.SuperBlockRegions | kernel/fs/mcsfs1j/m16_mcsfs_journal.c:343-356 | the superblock written records where every region starts and how long it is |
| JournalOps.Format | kernel/fs/mcsfs1j/m16_mcsfs_journal.c:337-397 | a format that succeeds leaves an accepted disk without files, with only the root inode and the metadata blocks taken; without faults it succeeds |
| JournalOps.StoreTable | kernel/fs/mcsfs1j/m16_mcsfs_journal.c:383-389 | the table is stored in its four blocks and nothing else changes |
| JournalSpace.FileView | kernel/fs/mcsfs1j/m16_mcsfs_journal.c:474-552 | a write on a mounted disk cut off after `k` block writes: nothing taken below 14, an inode and a block below 27, the file from there on |
| JournalSpace.RefusedExactly | kernel/fs/mcsfs1j/m16_mcsfs_journal.c:458-509 | EXISTS exactly for a name that is there, NOSPC exactly without a free inode, block or slot |
| JournalSpace.StepSpace | kernel/fs/mcsfs1j/m16_mcsfs_journal.c:458-552 | what one event takes: nothing, an inode and a block, or these and a slot |
| JournalSpace.SpaceAccounted | kernel/fs/mcsfs1j/m16_mcsfs_journal.c:458-552 | over every run with any power cuts: the inodes and blocks taken are one for each file added and one for each write cut between its two commit records, and the slots taken one for each file added |
| JournalSpace.NoSpaceExactly | kernel/fs/mcsfs1j/m16_mcsfs_journal.c:458-552 | on every disk reached from a formatted one a new file is refused if and only if twelve files were added or files and writes cut between their commit records come to fifteen |
| JournalSpace.FilledWithoutFiles | kernel/fs/mcsfs1j/m16_mcsfs_journal.c:458-552 | a run of fifteen cut writes after which no file is there and every new one is refused |
| Mcsfs1Layout.InodesApart | fs/mcsfs1/mcsfs1.c:156-194 | inodes of the table do not overlap |
| Mcsfs1Layout.StoreInodeAt | fs/mcsfs1/mcsfs1.c:176-194 | storing one inode is read back and leaves the others |
| Mcsfs1Layout.StoreInodeView | fs/mcsfs1/mcsfs1.c:176-194 | storing an inode changes that inode and nothing else of the volume |
| Mcsfs1Layout.NewInodeFields | fs/mcsfs1/mcsfs1.c:431-436 | a new file is empty, linked once and has one block |
| Mcsfs1Layout.PutEntryView | fs/mcsfs1/mcsfs1.c:441-444 | writing a directory entry changes that entry only |
| Mcsfs1Files.LeakKeepsConsistent | fs/mcsfs1/mcsfs1.c:276-295 | marking more blocks keeps the volume consistent, as a write that runs out of space does |
| Mcsfs1Files.CreateKeepsConsistent | fs/mcsfs1/mcsfs1.c:397-450 | a create keeps: no shared blocks, everything live marked, metadata marked |
| Mcsfs1Files.UpdateKeepsConsistent | fs/mcsfs1/mcsfs1.c:452-505 | so does a rewritten inode with blocks that were free |
| Mcsfs1Files.UnlinkKeepsConsistent | fs/mcsfs1/mcsfs1.c:547-587 | so does giving back an inode and its blocks |
| Mcsfs1Files.LeakRepresents | fs/mcsfs1/mcsfs1.c:452-505 | a write that fails for lack of space changes no file |
| Mcsfs1Files.CreateRepresents | fs/mcsfs1/mcsfs1.c:397-450 | a create adds an empty file and leaves the others |
| Mcsfs1Files.UpdateRepresents | fs/mcsfs1/mcsfs1.c:452-505 | a write replaces one file and leaves the others |
| Mcsfs1Files.UnlinkRepresents | fs/mcsfs1/mcsfs1.c:547-587 | an unlink removes one file and leaves the others |
| Mcsfs1.ValidName | fs/mcsfs1/mcsfs1.c:83-98 | the code for a name: empty, too long, containing a slash, or fine |
| Mcsfs1.NameCodeExactly | fs/mcsfs1/mcsfs1.c:83-98 | a name is fine if and only if it has 1 to 27 characters and no slash; too long is said before slash |
| Mcsfs1.StrlenBound | fs/mcsfs1/mcsfs1.c:72-81 | the number of bytes before the first zero byte, at most the bound, read past the name field where that has no zero |
| Mcsfs1.SlotMatches | fs/mcsfs1/mcsfs1.c:225-225 | whether the slot is taken and the bytes up to its terminator are the name |
| Mcsfs1.ShortNameFound | fs/mcsfs1/mcsfs1.c:225-225 | for a slot whose field has its terminator, that means that its name is the given one |
| Mcsfs1.Lookup | fs/mcsfs1/mcsfs1.c:224-233 | the first slot that matches, or none, on any directory whose names can be read inside the block |
| Mcsfs1.ScanBits | fs/mcsfs1/mcsfs1.c:246-261 | the first clear bit of the range, or its end |
| Mcsfs1.WrittenContent | fs/mcsfs1/mcsfs1.c:484-499 | a file whose blocks hold the chunks of the data reads as the data, across block boundaries |
| Mcsfs1.UnlinkDisk | fs/mcsfs1/mcsfs1.c:547-587 | the steps of an unlink together remove the entry, the inode and its blocks |
| Mcsfs1.ConsistentPasses | fs/mcsfs1/mcsfs1.c:610-674 | a consistent volume passes the checker |
| Mcsfs1Check.SuperExactly | fs/mcsfs1/mcsfs1.c:133-154 | a superblock is accepted if and only if it agrees byte for byte with the one a format writes in eleven of its fields |
| Mcsfs1Check.MountExactly | fs/mcsfs1/mcsfs1.c:374-395 | a volume can be mounted if and only if it has such a superblock and the mode and first block of its root inode are those a format writes |
| Mcsfs1Check.CheckMeans | fs/mcsfs1/mcsfs1.c:610-674 | for any contents the checker accepts a volume if and only if it can be mounted, root inode and metadata blocks are marked, and every entry leads to a file that is readable to its end, with its inode and the blocks it needs marked |
| Mcsfs1Check.InodeMeans | fs/mcsfs1/mcsfs1.c:658-671 | for one inode: it passes if and only if the file can be read to its end and its blocks are data blocks that are marked |
| Mcsfs1.FormattedRepresents | fs/mcsfs1/mcsfs1.c:313-372 | a formatted volume stands for the empty map |
| Mcsfs1.LookupFinds | fs/mcsfs1/mcsfs1.c:212-236 | on a volume that stands for a map the lookup finds the slot of every file and nothing for any other name |
| Mcsfs1.Volume.FindDirent | fs/mcsfs1/mcsfs1.c:212-236 | the slot and inode of a file, NOENT exactly for names without one, or the name's code |
| Mcsfs1.Volume.WriteInode | fs/mcsfs1/mcsfs1.c:176-194 | the inode's bytes replaced, all else unchanged |
| Mcsfs1.Volume.AllocInodeBlock | fs/mcsfs1/mcsfs1.c:238-274 | the first free inode and the first free data block are marked, or nothing is and NOSPC comes back |
| Mcsfs1.Volume.AllocDataBlock | fs/mcsfs1/mcsfs1.c:276-295 | the first free data block is marked, or NOSPC |
| Mcsfs1.Volume.FreeSlot | fs/mcsfs1/mcsfs1.c:415-421 | the first free directory slot |
| Mcsfs1.Volume.Create | fs/mcsfs1/mcsfs1.c:397-450 | writes an empty file into the first free slot, inode and block; each error code exactly in its case, and an error changes no byte of the disk; the volume stays consistent unless the name has 27 bytes |
| Mcsfs1.Volume.Stat | fs/mcsfs1/mcsfs1.c:589-608 | the size of the file, or the error |
| Mcsfs1.Volume.Read | fs/mcsfs1/mcsfs1.c:507-545 | the whole file, RANGE for a short buffer, or the error |
| Mcsfs1.Volume.ReadData | fs/mcsfs1/mcsfs1.c:527-544 | the copy loop on any device contents: the bytes of the file, or CORRUPT exactly if a block it needs is missing or outside the device |
| Mcsfs1.Volume.GrowInode | fs/mcsfs1/mcsfs1.c:476-483 | the inode gets the blocks it lacks, all of them free before, and as many fewer are free; it succeeds exactly when enough are free, and otherwise leaves none free |
| Mcsfs1.RepresentsFits | fs/mcsfs1/mcsfs1.c:472-483 | whether a write has room is decided by the file's one slot: the blocks its inode lacks against the free data blocks |
| Mcsfs1.Volume.StoreChunks | fs/mcsfs1/mcsfs1.c:484-498 | the data goes to the inode's blocks and nowhere else |
| Mcsfs1.Volume.FinishWrite | fs/mcsfs1/mcsfs1.c:484-505 | after the data blocks and the inode are written the file reads as the data |
| Mcsfs1.Volume.Write | fs/mcsfs1/mcsfs1.c:452-505 | replaces the contents and gives the inode exactly the blocks it lacked; NOSPC exactly when fewer are free, and then every data block is marked and no file changed; other errors change no byte |
| Mcsfs1.Volume.FreeInodeAndBlocks | fs/mcsfs1/mcsfs1.c:297-311 | clears exactly the bits of the inode and its blocks |
| Mcsfs1.Volume.Unlink | fs/mcsfs1/mcsfs1.c:547-587 | removes the file and frees its slot, its inode and exactly its blocks; an error changes no byte of the disk |
| Mcsfs1.Volume.CheckMeta | fs/mcsfs1/mcsfs1.c:625-640 | true exactly if the root inode is marked, a directory and at its block, and all metadata blocks are marked; `Mcsfs1Check.CheckMeans` says what the checks together mean |
| Mcsfs1.Volume.CheckEntry | fs/mcsfs1/mcsfs1.c:648-671 | one entry's checks, all of them |
| Mcsfs1.Volume.Fsck | fs/mcsfs1/mcsfs1.c:610-674 | OK exactly on the volumes that pass all checks, whatever is on the device; `Mcsfs1Check.CheckMeans` says which these are |
| Mcsfs1.Volume.LoadSuper | fs/mcsfs1/mcsfs1.c:133-154 | CORRUPT exactly unless the superblock is right |
| Mcsfs1.Volume.Format | fs/mcsfs1/mcsfs1.c:313-372 | INVAL exactly for devices of the wrong size; otherwise an empty, consistent volume with every slot, file inode and data block free |
| Mcsfs1.Volume.Mount | fs/mcsfs1/mcsfs1.c:374-395 | on any device contents: OK exactly when the volume can be mounted, else CORRUPT; `Mcsfs1Check.MountExactly` says which can |
| Mcsfs1Runs.FullSlotFound | fs/mcsfs1/mcsfs1.c:225-225 | a slot whose name fills its field matches that name if and only if the next slot is free |
| Mcsfs1Runs.FullNameFoundExactly | fs/mcsfs1/mcsfs1.c:212-236 | after a 27-byte name is created in any slot but the last, on any consistent volume, the lookup finds it if and only if the next slot is free |
| Mcsfs1Runs.FullNameIsLost | fs/mcsfs1/mcsfs1.c:397-450 | a run from a format in which a 27-byte name is created and the lookup then finds nothing |
| Mcsfs1Runs.Perform | fs/mcsfs1/mcsfs1.c:397-608 | each operation answers and changes the map as the map semantics allows, space alone deciding between OK and NOSPC, and changes the volume exactly as its kind says |
| Mcsfs1Runs.Run | fs/mcsfs1/mcsfs1.c:397-674 | every run of operations that creates no 27-byte name is a run on the map, and the checker passes at its end |
| Mcsfs1Runs.Untouched | fs/mcsfs1/mcsfs1.c:397-608 | a file no successful operation named keeps its contents over any part of a run |
| Mcsfs1Runs.ReadsLastWrite | fs/mcsfs1/mcsfs1.c:452-545 | in every run a read returns what the last successful write to that name stored |
| Mcsfs1Space.ReleasedRoom | fs/mcsfs1/mcsfs1.c:297-311 | giving back an inode's blocks frees as many blocks as it has pointers |
| Mcsfs1Space.CreateBooked | fs/mcsfs1/mcsfs1.c:397-450 | a create keeps the account right: the file holds one block |
| Mcsfs1Space.WriteBooked | fs/mcsfs1/mcsfs1.c:476-505 | so does a write: the file holds the most blocks it ever needed |
| Mcsfs1Space.UnlinkBooked | fs/mcsfs1/mcsfs1.c:547-587 | so does an unlink: all the file held is free again |
| Mcsfs1Space.LossBooked | fs/mcsfs1/mcsfs1.c:276-295 | so does a write that runs out of space: all that was free is lost |
| Mcsfs1Space.NoRoomBooked | fs/mcsfs1/mcsfs1.c:415-429 | a create finds no room if and only if there are sixteen files or no free block; inodes never run out first |
| Mcsfs1Space.FitsBooked | fs/mcsfs1/mcsfs1.c:472-483 | a write finds room if and only if the account has as many free blocks as the file is short of |
| Mcsfs1Space.StepBooked | fs/mcsfs1/mcsfs1.c:397-608 | for every operation the account gives the code and stays right: marked data blocks are those held by files and those lost |
| Mcsfs1Space.RunBooked | fs/mcsfs1/mcsfs1.c:397-608 | every run answers with the codes of the account, and the account is right at its end |
| Mcsfs1Space.FormatAndRun | fs/mcsfs1/mcsfs1.c:313-608 | the same from a format on, with every data block free at the start |
| Mcsfs1Space.LostStaysLost | fs/mcsfs1/mcsfs1.c:276-295 | in no run does a lost block come back |
| Mcsfs1Space.EmptyVolume | fs/mcsfs1/mcsfs1.c:276-311 | on a volume without files everything but the lost blocks is free |
| Mcsfs1Space.LostWithoutFiles | fs/mcsfs1/mcsfs1.c:397-587 | a run on the smallest volume that ends with no file and two of eight data blocks |
| CacheModel.FindUnique | kernel/block/bcache.c:11-19 | the slot found for a block is the one slot that caches it |
| CacheModel.FlushKeeps | kernel/block/bcache.c:21-31 | writing a slot back changes no block a user sees and leaves the slot clean |
| CacheModel.FlushAllSyncs | kernel/block/bcache.c:130-141 | afterwards the devices hold exactly what users see, unchanged, and nothing is dirty |
| CacheModel.WrapIsMod | kernel/block/bcache.c:33-54 | the wrapping index is the remainder the code computes |
| CacheModel.SelectVictimKeeps | kernel/block/bcache.c:33-54 | choosing a slot changes nothing a user sees and gives a slot with no unsaved block |
| CacheModel.ReadKeeps | kernel/block/bcache.c:80-105 | a read changes nothing a user sees, caches each block at most once, and finds the block asked for |
| CacheModel.WriteKeeps | kernel/block/bcache.c:107-128 | a write changes the block written and no other block of any device |
| CacheRuns.WritesBackExactly | kernel/block/bcache.c:21-128 | a read or write changes a device only if it takes the slot of a dirty block, and then that block only; a block is dirty exactly if it was written since it was brought in |
| CacheRuns.StepRefines | kernel/block/bcache.c:80-141 | each operation does to the plain disks what it would do directly, and keeps the invariant |
| CacheRuns.RunRefines | kernel/block/bcache.c:80-141 | over every run the cached devices stand for what the plain devices would hold |
| CacheRuns.MissAges | kernel/block/bcache.c:33-54 | from any state a served miss costs every other slot in use one turn, and takes a slot that is empty or has no turn left |
| CacheRuns.Survives | kernel/block/bcache.c:33-54 | from any state a block stays cached through as many misses as its slot has turns left, when no read is refused meanwhile |
| CacheRuns.EvictedExactly | kernel/block/bcache.c:33-105 | in every state a request, refused or not, evicts a block exactly if it misses and the slot of the block has no turn left |
| CacheRuns.BroughtIn | kernel/block/bcache.c:33-105 | a block brought in gets at most `entry_count - 1` turns, and gets all of them if and only if no slot in use lies between empty ones as the hand meets them |
| CacheRuns.StaysExactly | kernel/block/bcache.c:33-105 | from any state a block brought in stays through exactly those turns and the miss after them evicts it, when no read is refused afterwards |
| CacheRuns.ServedKeepsGapless | kernel/block/bcache.c:33-128 | requests that no device refuses leave no slot in use between empty ones |
| CacheRuns.CachedForExactly | kernel/block/bcache.c:33-128 | in every run from an empty cache in which no read is refused, a block brought in stays through `entry_count - 1` misses and the next one evicts it |
| CacheRefusals.RefusedTurns | kernel/block/bcache.c:88-97 | what a refused read does to every other slot: nothing in a full cache, and otherwise the turns count from the slot it emptied |
| CacheRefusals.ShelterHolds | kernel/block/bcache.c:33-54 | while fewer than `entry_count - 1` misses were served, no miss takes the slot of a sheltered block, and only served misses use up its shelter |
| CacheRefusals.StaysDespiteRefusals | kernel/block/bcache.c:33-128 | a block brought in when no slot in use lies between empty ones is cached until `entry_count - 1` further misses have been served, in every run with any number of refused reads |
| CacheRefusals.SureToStayExactly | kernel/block/bcache.c:33-128 | that this holds for every continuation is equivalent to there being no slot in use between empty ones, given a device with more blocks than slots |
| CacheRefusals.RefusedReadShortensStay | kernel/block/bcache.c:80-105 | a refused read that leaves a slot in use between empty ones, after which two misses evict a block from a cache of three slots |
| CacheRefusals.RefusedReadLengthensStay | kernel/block/bcache.c:80-105 | a refused read after which a block is still cached after three served misses in a cache of three slots |
| BlockLayer.SpliceBlock | kernel/block/ramblk.c:17-33 | overwriting one block of the storage changes that block and no other |
| BlockLayer.RangeExactly | kernel/block/block.c:61-72 | EINVAL exactly for no blocks, OK exactly if the transfer ends on the device, else ERANGE |
| BlockLayer.DriverExactly | kernel/block/ramblk.c:17-33 | the driver's test passes if and only if the two wrapped products together stay within the storage |
| BlockLayer.InRangeFits | kernel/block/block.c:61-72 | a transfer the range check lets through has an offset that does not wrap and stays inside the storage |
| BlockLayer.DriverReachesExactly | kernel/block/ramblk.c:17-33 | a transfer the driver's own test lets through goes to the blocks asked for, all of them on the disk, if and only if its offset does not wrap |
| BlockLayer.WrappedOffsetPasses | kernel/block/ramblk.c:17-33 | on every disk of 512-byte blocks the driver's test lets a transfer at block 2^55 through, at offset 0; the range check refuses it |
| BlockLayer.WrappedRead | kernel/block/ramblk.c:17-37 | the driver's read of block 2^55 returns block 0 |
| BlockLayer.InitRamDisk | kernel/block/ramblk.c:57-81 | a device exactly for a block size that is a power of two of at least 512 and a storage of a positive number of such blocks, else EINVAL and none |
| BlockLayer.RamDisk.RamWrite | kernel/block/ramblk.c:17-41 | the driver's copy into storage, or its range error and no change |
| BlockLayer.RamDisk.Read | kernel/block/block.c:74-83 | the blocks, or the range check's code |
| BlockLayer.RamDisk.Write | kernel/block/block.c:85-94 | the blocks replaced and no others, or the range check's code and no change |
| Bcache.InitCache | kernel/block/bcache.c:56-78 | an empty cache with its hand at the first slot, or EINVAL exactly for no slots or a block size of 0 |
| Bcache.BufferCache.FindEntry | kernel/block/bcache.c:11-19 | the slot that caches the block, or none |
| Bcache.BufferCache.FlushEntry | kernel/block/bcache.c:21-31 | the slot's block goes to its device if it is dirty |
| Bcache.BufferCache.ScanInvalid | kernel/block/bcache.c:37-45 | the first invalid slot from the hand on, wrapping |
| Bcache.BufferCache.ChooseVictim | kernel/block/bcache.c:33-54 | the first invalid slot from the hand on, else the slot under the hand after its block is saved |
| Bcache.BufferCache.BringIn | kernel/block/bcache.c:88-102 | a miss makes room and reads the block; a refused read leaves the slot invalid |
| Bcache.BufferCache.Read | kernel/block/bcache.c:80-105 | what a user sees of the block, or the device's code |
| Bcache.BufferCache.Write | kernel/block/bcache.c:107-128 | the block is cached and dirty with the data |
| Bcache.BufferCache.FlushAll | kernel/block/bcache.c:130-141 | every slot is flushed |
| KmemModel.FirstFit | kernel/mm/kmem.c:130-137 | the first free block that is large enough, or none |
| KmemModel.AllocKeepsInv | kernel/mm/kmem.c:54-78 | an allocation keeps the tiling, the alignment and that no two neighbours are free |
| KmemModel.AllocAddsOne | kernel/mm/kmem.c:125-139 | it leaves every live block where it is and adds exactly one, aligned and large enough |
| KmemModel.FreeJoins | kernel/mm/kmem.c:149-162 | a free replaces the block and its free neighbours, at most one on each side, by one free block |
| KmemModel.FreeKeepsInv | kernel/mm/kmem.c:80-98 | a free keeps the tiling and leaves no two neighbours free |
| KmemModel.FreeRemovesOne | kernel/mm/kmem.c:149-162 | exactly the freed block stops being live |
| KmemModel.BytesAccountedFor | kernel/mm/kmem.c:164-180 | used bytes, free bytes and 48 per block add up to the arena |
| KmemModel.NothingLiveMeansOneBlock | kernel/mm/kmem.c:80-98 | a heap with nothing allocated is one free block over the whole arena |
| KmemModel.RunKeepsInv | kernel/mm/kmem.c:54-162 | after every run of allocations and frees, valid or not, the invariant holds |
| KmemModel.RunEndsWhole | kernel/mm/kmem.c:80-162 | a run that ends with nothing allocated, whatever the order of frees, ends with the initial block |
| KmemModel.LivePayloadsApart | kernel/mm/kmem.c:41-47 | payloads are 16-aligned, inside the arena and apart from every other block |
| KmemModel.LiveUntilFreed | kernel/mm/kmem.c:125-162 | a block in use stays at its address with its size until it is freed |
| KmemModel.RefusedExactly | kernel/mm/kmem.c:125-139 | an allocation answers null, and changes nothing, if and only if the size is 0, too large to round, or more than every free block has |
| KmemModel.AllocServes | kernel/mm/kmem.c:54-139 | otherwise exactly one block comes into use: at the address answered, aligned, inside the lowest free block that is large enough, with the size asked for rounded up or all of it when 80 bytes or less would remain |
| KmemModel.FreeReleases | kernel/mm/kmem.c:149-162 | a free takes exactly the block at that address out of use, or none if there is none |
| KmemModel.LiveDetermine | kernel/mm/kmem.c:80-98 | two heaps over one arena with no two neighbours free and the same blocks in use are equal |
| KmemModel.NotHandedOutTwice | kernel/mm/kmem.c:125-162 | in every run the payloads of two allocations do not overlap unless the first was freed in between |
| KmemModel.LiveAreOwed | kernel/mm/kmem.c:125-162 | in every run the blocks in use are exactly those at addresses handed out and not given back |
| KmemModel.AllReturnedEndsWhole | kernel/mm/kmem.c:80-162 | a run that gives back every address it was handed, in whatever order, ends with the initial block |
| Kmem.SplitLinked | kernel/mm/kmem.c:67-77 | after the header writes of a split the links are those of the new list |
| Kmem.MergeLinked | kernel/mm/kmem.c:84-96 | after the header writes of a merge the links are those of the new list |
| Kmem.SplitClean | kernel/mm/kmem.c:67-77 | a split leaves no marked header outside the list |
| Kmem.MergeClean | kernel/mm/kmem.c:88-96 | a merge clears the mark of the header it takes in |
| Kmem.SplitSpares | kernel/mm/kmem.c:67-77 | a split writes no header over a live payload |
| Kmem.MergeSpares | kernel/mm/kmem.c:84-96 | a merge writes no header over a live payload |
| Kmem.CheckExactly | kernel/mm/kmem.c:182-204 | the check returns 0 if and only if the list is in order: marked headers, right back links, each where the last ends, at most 2^20 of them |
| Kmem.ChainTilesExactly | kernel/mm/kmem.c:182-204 | a list in order tiles the heap if and only if its sizes are aligned and its last block ends where the heap ends |
| Kmem.CheckPasses | kernel/mm/kmem.c:182-204 | on a well-formed heap it returns 0 up to 2^20 blocks and -3 beyond |
| Kmem.AcceptedIsLinked | kernel/mm/kmem.c:182-204 | a list that is accepted and covers the heap has exactly the headers of a heap with these blocks |
| Kmem.DamageFound | kernel/mm/kmem.c:190-201 | a sound list with any one header replaced: -6, -7 or -8 for its mark, back link or a size past the end; a size or link changed alone gives -4, -5 or -3, or goes unnoticed exactly in the cases named |
| Kmem.CheckIgnoresTail | kernel/mm/kmem.c:182-204 | a list that stops short of the heap's end and is accepted |
| Kmem.LargestIsLargest | kernel/mm/kmem.c:172-176 | the figure reported is the size of a largest free block |
| Kmem.AllocStats | kernel/mm/kmem.c:125-180 | an allocation adds its block's size to the bytes in use and takes one free block from the count unless it split one |
| Kmem.FreeStats | kernel/mm/kmem.c:149-180 | a free takes its block's size off the bytes in use |
| Kmem.Heap.Validate | kernel/mm/kmem.c:182-204 | terminates on any memory and reports what the list check says |
| Kmem.Heap.Init | kernel/mm/kmem.c:100-123 | succeeds exactly when the aligned part of the region has room; then the heap is one free block |
| Kmem.Heap.Split | kernel/mm/kmem.c:54-78 | splits exactly when more than 80 bytes remain, sparing live payloads |
| Kmem.Heap.Coalesce | kernel/mm/kmem.c:80-98 | merges the block with all free blocks after it, sparing live payloads |
| Kmem.Heap.Alloc | kernel/mm/kmem.c:125-139 | null, and then nothing changes, exactly for 0, a size too large to round, or no free block large enough; else the lowest such block serves it: exactly one block comes into use, at the address returned, and no live block or payload changes |
| Kmem.Heap.Memset | kernel/mm/kmem.c:35-39 | exactly the bytes of the range take the value |
| Kmem.Heap.Calloc | kernel/mm/kmem.c:141-147 | null exactly when the product overflows, is 0 or too large to round, or no free block is large enough; else exactly one block comes into use, for the product, zeroed, with no other byte written |
| Kmem.Heap.Free | kernel/mm/kmem.c:149-162 | each code exactly in its case: on an initialised heap of at most 2^20 blocks OK exactly for null or the address of a block in use; exactly that block goes out of use, and every other live payload is spared |
| Kmem.Heap.GetStats | kernel/mm/kmem.c:164-180 | totals, counts and the largest free block of the list, adding up to the arena |
| PmmModel.AlignUp | src/pmm.c:11-13 | the next page boundary, or 0 past the last one |
| PmmModel.FreeOneKeeps | src/pmm.c:35-49 | marking a frame free keeps the counters and the hint right and changes that frame only |
| PmmModel.UseOneKeeps | src/pmm.c:51-62 | marking a frame used keeps the counters and the hint right and changes that frame only |
| PmmModel.FreeRangeKeeps | src/pmm.c:64-84 | freeing a range keeps them right and frees exactly the span computed |
| PmmModel.ReserveRangeKeeps | src/pmm.c:86-109 | reserving a range keeps them right and takes exactly the span computed |
| PmmModel.AllocTakesLowest | src/pmm.c:177-196 | the frame returned is the lowest free one, found from the hint on and never frame 0; without free frames nothing changes |
| PmmModel.FreeExactly | src/pmm.c:198-211 | frees exactly the frame named; refused exactly unless that is an aligned, non-zero frame in range and in use |
| PmmModel.AllocThenFree | src/pmm.c:177-211 | freeing the frame just allocated restores frames and counters, and it is handed out again |
| PmmModel.ReservedCounts | src/pmm.c:102-108 | the reserved counter grows by the frames that were free before |
| PmmModel.InitExactly | src/pmm.c:127-175 | for every map: free are the frames other than 0 in a span of a usable region and in no span of another region |
| PmmModel.OrderDoesNotMatter | src/pmm.c:158-171 | the order of regions and repetitions change nothing |
| PmmModel.FreeSpanExactly | src/pmm.c:64-84 | the span freed is the frames wholly inside the region if and only if its bounds survive the 64-bit arithmetic |
| PmmModel.UsedSpanExactly | src/pmm.c:86-109 | the span taken is the frames the region overlaps if and only if its bounds survive |
| PmmModel.IgnoredExactly | src/pmm.c:77-80 | the ignored frames are those past the end of a region that begins in range |
| PmmModel.ReserveMeaning | src/pmm.c:86-109 | a reservation takes exactly the frames the range overlaps |
| PmmModel.ReserveExactly | src/pmm.c:213-219 | a reservation succeeds exactly for a length other than 0; the frames it overlaps are then in use, no other frame changed, and what was free counts as reserved |
| PmmModel.ReservedNotHandedOut | src/pmm.c:177-219 | a frame of a reserved range is in use and not handed out in any run in which it is not freed |
| PmmModel.RefusedUntilReady | src/pmm.c:177-219 | before initialisation every call is refused and changes nothing |
| PmmModel.InitCounts | src/pmm.c:127-175 | after initialisation the ignored frames add up over the usable regions, and free and reserved frames together are the frames the usable regions offer |
| PmmModel.LowRegionsHold | src/pmm.c:64-109 | regions that end at or below 2^64 - 4096 have bounds that survive |
| PmmModel.InitMeaning | src/pmm.c:127-175 | free after initialisation: not frame 0, wholly inside a usable region, overlapped by no other region |
| PmmModel.WrappedRegionFreesAll | src/pmm.c:64-84 | five usable bytes just below 2^64 free every frame but frame 0 |
| PmmModel.LateRegionReservesNothing | src/pmm.c:86-109 | a reserved region that ends at 2^64 - 1 reserves nothing |
| PmmModel.StepKeeps | src/pmm.c:177-219 | each operation keeps the invariant and frees no frame it was not asked to |
| PmmModel.NotHandedOutTwice | src/pmm.c:177-219 | a frame in use is not handed out in any run in which it is not freed |
| Pmm.FrameAllocator.SetBit | src/pmm.c:23-29 | one bit of the buffer changes |
| Pmm.FrameAllocator.MarkFrameFree | src/pmm.c:35-49 | the step of the model, in place |
| Pmm.FrameAllocator.MarkFrameUsed | src/pmm.c:51-62 | the step of the model, in place |
| Pmm.FrameAllocator.MarkRangeFree | src/pmm.c:64-84 | the loop frees the span of the model |
| Pmm.FrameAllocator.MarkRangeUsed | src/pmm.c:86-109 | the loop takes the span of the model |
| Pmm.FrameAllocator.Init | src/pmm.c:127-175 | succeeds exactly for a non-empty map, an aligned size and a large enough buffer; then the state is the model's, with its invariant |
| Pmm.FrameAllocator.AllocFrame | src/pmm.c:177-196 | both loops together are the search of the model, whatever the hint |
| Pmm.FrameAllocator.FreeFrame | src/pmm.c:198-211 | the step of the model, in place |
| Pmm.FrameAllocator.ReserveRange | src/pmm.c:213-219 | refused exactly before initialisation or for length 0; then exactly the frames the range overlaps are in use besides those that were, if its bounds survive the 64-bit rounding; the step of the model, in place |
| Pmm.FrameAllocator.IsFrameFree | src/pmm.c:221-229 | whether the address is that of a free frame in range |
| PageEntry.TableEntryFields | src/vmm.c:62-62 | a table entry is present and writable with no other flag, not huge, and points to its frame |
| PageEntry.LeafEntryFields | src/vmm.c:106-108 | a page entry is present, has the allowed flags only, and gives back an address below 2^52 |
| PageEntry.AddrDigits | include/vmm.h:20-20 | the address of an entry is its bits 12 to 51, whatever the others are |
| PageEntry.AllowedDigits | src/vmm.c:106-107 | of the flags asked for bits 1 to 4, 8 and 63 are kept and no others |
| PageEntry.FlagDigits | include/vmm.h:10-17 | bit 0 says present and bit 7 says huge, whatever the others are |
| PageEntry.AddressRoundTrip | src/vmm.c:13-22 | a canonical page address is determined by its four indices |
| PageEntry.PathRoundTrip | src/vmm.c:13-22 | every four indices are those of a canonical page address |
| VmmModel.LinkWalk | src/vmm.c:31-65 | a new empty table changes no walk except the one that ends at it |
| VmmModel.LinkKeeps | src/vmm.c:31-65 | it keeps the tables distinct and every translation |
| VmmModel.SetKeeps | src/vmm.c:102-108 | writing one last-level entry changes the translation of one page |
| VmmModel.NextTableKeeps | src/vmm.c:31-65 | finding or making the next table keeps the tree and every translation, whatever it returns |
| VmmModel.ReachKeeps | src/vmm.c:92-100 | so do the three levels together; the table reached is the one on the path |
| VmmModel.MapAddsOne | src/vmm.c:84-110 | a map adds exactly one translation, where there was none, or fails at any level and changes none |
| VmmModel.UnmapRemovesOne | src/vmm.c:138-161 | an unmap removes exactly one translation and fails exactly where there is none |
| VmmModel.QueryReads | src/vmm.c:112-136 | a query reports the entry that maps the page, or NOT_FOUND |
| VmmModel.MapCode | src/vmm.c:84-110 | the code of a map in full: INVAL, then what is there (EXISTS), then the frames (NOMEM, INVAL) |
| VmmModel.MapAccounts | src/vmm.c:31-110 | whether a map succeeds or fails, every frame taken from the source has become a table or was given back, and every table stays one |
| VmmModel.EmptyReach | src/vmm.c:47-65 | below an empty table every level takes one frame |
| Vmm.AddressSpace.Init | src/vmm.c:67-82 | sets the root exactly if it is aligned |
| Vmm.AddressSpace.ZeroPage | src/vmm.c:3-7 | all 512 entries become 0 |
| Vmm.AddressSpace.GetOrAllocNextTable | src/vmm.c:31-65 | the step of the model, with what it takes from the frame source and gives back |
| Vmm.AddressSpace.MapPage | src/vmm.c:84-110 | the map of the model, in place |
| Vmm.AddressSpace.QueryPage | src/vmm.c:112-136 | the query of the model |
| Vmm.AddressSpace.UnmapPage | src/vmm.c:138-161 | the unmap of the model, in place |
| VmmRuns.AnswersAreFresh | src/pmm.c:177-196 | successive allocations give frames that were free, each different |
| VmmRuns.SourceIsFresh | src/vmm.c:47-61 | frames from the allocator are no table yet |
| VmmRuns.StepKeepsSound | src/vmm.c:31-161 | every map, unmap and other use of the allocator keeps table frames distinct and in use |
| VmmRuns.StepRefines | src/vmm.c:84-161 | each event changes the partial map as it should; a map succeeds only where nothing was mapped, an unmap exactly where something was |
| VmmRuns.RunRefines | src/vmm.c:31-161 | over every run the tables translate exactly as the partial map, and no frame serves as two tables |
| VmmRuns.MapTakesTables | src/vmm.c:31-110 | after a map, successful or not, the frames in use are those in use before and those that are tables |
| VmmRuns.FreeAllExactly | src/pmm.c:198-211 | frames given back are free and no other frame is touched |
| VmmRuns.EmptyRootIsSound | src/vmm.c:67-82 | an empty root table is a start with nothing mapped |
| SchedModel.StartInv | kernel/mcsos_thread.c:56-86 | the initial scheduler satisfies the invariant |
| SchedModel.MeetKeeps | kernel/mcsos_thread.c:113-128 | so does one that has met a new thread |
| SchedModel.EnqueueKeeps | kernel/mcsos_thread.c:131-149 | a thread is queued at the end exactly unless it is current, idle or a zombie; the invariant holds |
| SchedModel.ConcernsOne | kernel/mcsos_thread.c:113-149 | meeting, queueing and waking a thread changes nothing about any other thread, and a refusal changes nothing |
| SchedModel.WakesExactly | kernel/mcsos_thread.c:221-229 | exactly a blocked thread can be woken, and it goes to the end of the queue |
| SchedModel.YieldEffect | kernel/mcsos_thread.c:170-199 | a yield runs the head of the queue or the idle thread and queues the old thread unless it is idle |
| SchedModel.YieldKeeps | kernel/mcsos_thread.c:170-199 | it keeps the queue a duplicate-free list of exactly the ready threads, and the switch counts at twice the total |
| SchedModel.YieldExactly | kernel/mcsos_thread.c:170-199 | control passes to the head of the queue or the idle thread; the old thread is left ready, or running if idle; if they differ each is counted one switch and no third thread changes |
| SchedModel.BlockKeeps | kernel/mcsos_thread.c:210-219 | so does a block, refused exactly for the idle thread; the old thread is blocked and the next one runs |
| SchedModel.BlockExactly | kernel/mcsos_thread.c:210-219 | the same for a block, which leaves the old thread blocked and not in the queue |
| SchedModel.StepQueue | kernel/mcsos_thread.c:131-229 | passing control moves everyone up by one; nothing else moves anyone |
| SchedModel.RunKeeps | kernel/mcsos_thread.c:131-229 | the invariant holds after every run |
| SchedModel.StillWaiting | kernel/mcsos_thread.c:151-199 | until its turn a queued thread stays queued, nearer the head by the controls passed, and does not run |
| SchedModel.FirstInFirstOut | kernel/mcsos_thread.c:131-229 | the thread at position `p` becomes current at exactly the `p + 1`-st successful yield or block, whatever is queued meanwhile |
| SchedModel.QueueExcludesCurrent | kernel/mcsos_thread.c:131-199 | no queued thread is current or idle, and all are ready |
| SchedModel.OneRunsExactly | kernel/mcsos_thread.c:183-191 | one thread is RUNNING if and only if the idle thread is current |
| SchedModel.TwoRun | kernel/mcsos_thread.c:170-199 | a run after which two threads are RUNNING |
| Scheduler.Scheduler.constructor | kernel/mcsos_thread.c:56-86 | the boot thread is current and idle, the queue empty |
| Scheduler.Scheduler.Prepare | kernel/mcsos_thread.c:88-129 | each code exactly in its case; on success the stack pointer is inside the stack, aligned and with room below |
| Scheduler.Scheduler.Append | kernel/mcsos_thread.c:139-147 | the list gets one more element at its end, with tail and count |
| Scheduler.Scheduler.Enqueue | kernel/mcsos_thread.c:131-149 | the enqueue of the model on the linked list |
| Scheduler.Scheduler.PickNext | kernel/mcsos_thread.c:151-168 | the head leaves the list; the idle thread stands in for an empty one |
| Scheduler.Scheduler.Yield | kernel/mcsos_thread.c:170-199 | the yield of the model on the linked list, keeping the invariant |
| Scheduler.Scheduler.BlockCurrent | kernel/mcsos_thread.c:210-219 | the block of the model on the linked list |
| Scheduler.Scheduler.MarkReady | kernel/mcsos_thread.c:221-229 | the wake-up of the model on the linked list |
| Scheduler.Scheduler.Tick | kernel/mcsos_thread.c:201-208 | both tick counters go up by one |
| Scheduler.Scheduler.ReadyCount | kernel/mcsos_thread.c:231-242 | the length of the list, which is the count kept |
| Scheduler.Scheduler.Validate | kernel/mcsos_thread.c:244-272 | terminates on any heap, cyclic lists included; OK if and only if the list from the head is null-terminated, of the length kept, all valid and READY, ends at the tail and does not contain current |
| Mutex.StepKeeps | kernel/sync/mutex.c:13-39 | every atomic step keeps: one thread engaged at most, locked means someone is, the owner word names the holder |
| Mutex.MutualExclusion | kernel/sync/mutex.c:13-39 | in every interleaving at most one thread is anywhere between winning the exchange and clearing the lock word |
| Mutex.DeadlockExactly | kernel/sync/mutex.c:17-23 | try_lock reports a deadlock exactly to the thread that holds the mutex, else BUSY |
| Mutex.OthersKeepPhase | kernel/sync/mutex.c:13-39 | no thread's standing is changed by another thread |
| Mutex.UnlockExactly | kernel/sync/mutex.c:28-39 | unlock is refused, and changes nothing, exactly when the caller does not hold the mutex |
| Mutex.OwnerKnownExactly | kernel/sync/mutex.c:24-37 | a locked mutex has an owner if and only if no thread is in one of the two windows; an unlocked one has none |
| Mutex.WindowIsReached | kernel/sync/mutex.c:17-24 | a run into such a window |
| Mutex.Lock.TryLock | kernel/sync/mutex.c:13-26 | undisturbed, the call takes the machine's steps; each code exactly in its case, and on success the mutex is locked and owned by the caller |
| Mutex.Lock.Unlock | kernel/sync/mutex.c:28-39 | undisturbed, the owner's call frees the mutex and any other call changes nothing |
| Lockdep.AcceptsExactly | kernel/sync/lockdep.c:27-52 | on an increasing stack a class is accepted if and only if it is above all held classes and there is room; the stack stays increasing |
| Lockdep.ReleaseUndoes | kernel/sync/lockdep.c:54-72 | a release undoes the acquire of the class on top and leaves the stack alone otherwise |
| Lockdep.ViolationsCounted | kernel/sync/lockdep.c:27-72 | every refusal for a class other than 0 is counted once, and nothing else is |
| Lockdep.RefusalSays | kernel/sync/lockdep.c:27-52 | INVAL exactly for class 0, OVERFLOW exactly without room, DEADLK exactly for a class not above all held ones, in this order |
| Lockdep.ReleaseSays | kernel/sync/lockdep.c:54-72 | OK exactly for the highest class held, which leaves the stack; INVAL exactly for class 0, PERM exactly when nothing is held |
| Lockdep.Validator.IsHeld | kernel/sync/lockdep.c:15-25 | whether the class is on the stack |
| Lockdep.Validator.Acquire | kernel/sync/lockdep.c:27-52 | the acquire check of the model, in place |
| Lockdep.Validator.Release | kernel/sync/lockdep.c:54-72 | the release of the model, in place |
| LockOrder.StepKeeps | kernel/sync/spinlock.c:20-41 | every step keeps: held classes increase, held locks are on the stack, the lock waited for is on top |
| LockOrder.LocksChange | kernel/sync/spinlock.c:20-41 | only an exchange closes a lock, for the thread that spins on it and only if it is open; no step changes another thread |
| LockOrder.StacksChange | kernel/sync/lockdep.c:27-72 | a thread goes on to spin exactly on a class above all it holds, which joins its stack; a report takes off exactly what was opened |
| LockOrder.WaitingClimbs | kernel/sync/lockdep.c:41-47 | a thread waited for waits, if at all, for a higher class |
| LockOrder.NoWaitCycle | kernel/sync/lockdep.c:27-72 | for any number of threads, in no reachable state do threads wait for each other in a circle of any length |
| LockOrder.SomeoneCanMove | kernel/sync/spinlock.c:28-34 | if anyone waits, some waiting thread finds its lock open or held by a thread that does not wait |

## Left out

- Null-pointer arguments: parameters are never null, so the one-line checks for them are not modelled.
- Integer widths of counters: violation, switch, tick, write, reserved and ignored counters are unbounded; where wrapping matters (offsets, rounding, sizes, stack ends) it is modelled.
- Mcsfs1.Volume.FindDirent: is stated on volumes that stand for a map, which every run without 27-byte names keeps; `Mcsfs1.Lookup` is the search on other directories.
- Mcsfs1.Volume.Create: is stated on mounted, consistent volumes, which every run without 27-byte names keeps; the codes on damaged volumes are not modelled.
- Mcsfs1.Volume.Read: likewise.
- Mcsfs1.Volume.Write: likewise.
- Mcsfs1.Volume.Unlink: likewise.
- Mcsfs1.Volume.Stat: likewise.
- Mcsfs1.Volume.ReadData: requires a size of at most eight blocks, all an inode has pointers for; the code does not check it there, and the checker and every write do.
- Mcsfs1.Volume.Fsck: is stated for devices of 16 to 4096 blocks, the sizes a format accepts.
- Mcsfs1Space.RunBooked: excludes the creation of names of exactly 27 bytes, as `Mcsfs1Runs.Run` does.
- Mcsfs1Space.FormatAndRun: likewise.
- CacheRuns.Survives: leaves out later reads that a device refuses, which `CacheRefusals.RefusedTurns` treats step by step and `CacheRefusals.StaysDespiteRefusals` over runs.
- CacheRuns.StaysExactly: likewise.
- CacheRuns.CachedForExactly: likewise.
- Mcsfs1.StrlenBound: requires that the bytes it looks at lie inside the block; in the last slot a name of 27 bytes would be read past its end.
- Mcsfs1.SlotMatches: likewise.
- Mcsfs1.Lookup: likewise.
- Mcsfs1Runs.FullNameFoundExactly: leaves out the last slot for the same reason.
- Mcsfs1Runs.Perform: excludes the creation of names of exactly 27 bytes, after which the volume is no map of names; `FullNameFoundExactly` says what the next lookup finds. Other operations take names of any length.
- Mcsfs1Runs.Run: likewise.
- MCSFS1 device failures: its block device never reports an error; the journal's device does.
- JournalOps.Fetch: requires that the size found on the disk, if the copy is reached, fits the block buffer, which holds on every accepted disk and which the code relies on.
- JournalOps.ReadFile: likewise.
- Journal.Commit: takes targets that are blocks of the device, as every caller in the file has them.
- Journal.WriteTransaction: likewise.
- Journal.WriteHome: likewise.
- JournalOps.StrEq: names of 32 characters or more are compared by their first 32, as in the code.
- Torn block writes: a block write is atomic. Damage of more than one byte that leaves the checksum as it was is not noticed by the code, and no more is stated about it than `JournalDamage.RecoverExactly` says.
- Journal records aimed at the journal itself: commits and recoveries are stated for targets outside the journal, as every caller in the file has them.
- Bcache.BufferCache.Write: requires the block to lie inside the device, since the code does not check it.
- Cache and device list: one cache over any number of RAM disks; the registry of devices, names and the flush callback are not modelled.
- Kmem.Heap.Free: requires that no marked header lies outside the block list; clients are taken to leave none in their payloads, and the allocator itself leaves none.
- Kmem.Heap.Init: requires that the region does not wrap around the address space, as an object in C does not; a heap set up over memory that already holds marked headers is outside `Free`'s requirement.
- Heap contents: headers and the bytes `kmem_memset` writes are kept by address in two maps, and header writes do not show among the bytes; headers at overlapping addresses are kept apart, which the 16-byte alignment and the mark's odd value justify.
- Frame sources other than the frame allocator: `VmmModel` takes any sequence of answers and states what it needs of them; `VmmRuns` proves it for the allocator. The callback that takes frames back is taken to be there.
- Meaning of page flags, TLB invalidation and control registers: entries are numbers with fields.
- Physical addresses at or above 2^52: entries keep bits 12 to 51 only, and frames used as tables are taken to be below that.
- Uninitialised scheduler: a scheduler is created with its boot thread; the code's refusal before that is not modelled, nor are thread names, entry points and saved registers other than the stack pointer.
- Scheduler.Scheduler.Prepare: requires a thread the scheduler has not met before.
- Scheduler.Scheduler.Enqueue: requires a thread that the scheduler has met and that is not queued already, as the code demands of its callers; `mcsos_sched_pick_next` is modelled as a step of a yield only.
- Context switches in assembly, interrupts, boot code, system calls, the ELF loader and the virtual filesystem: not part of the model.
- Memory ordering: atomic accesses are sequentially consistent steps; that spinning ends is not stated.
- Mutex.Lock.TryLock and Mutex.Lock.Unlock: are the calls without interference; interleavings are the subject of the state machine.
- LockOrder.NoWaitCycle: covers spinlocks with a class each whose acquires the validator accepted and which only their holders open.
