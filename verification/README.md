# Crash safety and indexing of three persistent-memory file systems

This project models the hard core of PMFS, NOVA and SlotFS: how their journals bring
persistent memory back to a consistent state after a power failure, how their logs and
trees say where the data of a file is, and how they share out blocks.

Code that computes is modelled by functions, code that updates a structure by a class
whose methods keep the source's loops and branches. A protocol that a power failure can
interrupt is a step system over two images: `cur`, what the processor sees, and `dur`,
what survives. A store changes `cur`; a persist step copies one word, one log slot or one
header to `dur` at any moment; a fence is a guard that waits for the lines flushed before
it. The main theorems speak about every run of such a system, or about every input of a
method.

## Parts

**PMFS undo journal** (`PmfsUndoWalk`, `PmfsRecovery`, `PmfsCrash`, `PmfsCrashSteps`,
`PmfsCleaner`, `PmfsGenerations`, `PmfsWipe`, `PmfsJournal`, `PmfsReserve`, `PmfsRuns`,
`PmfsWipeRuns`).
`PmfsUndoWalk` proves what the backward walk of recovery computes, against a declarative
definition of which records are undone; `PmfsRecovery` what undoing, skipping and wiping one
slot does to it. `PmfsCrash` and `PmfsCrashSteps` run concurrent transactions, the log
cleaner, crashes and recoveries that crash themselves, also while they wipe slots; the result
is crash atomicity. Log positions are unbounded there; `PmfsGenerations` proves that the
16-bit generation ids of the ring identify the lap, with power failures between the wiping,
the store of the generation and the store of the head. `PmfsJournal` has the loops of the
source over ring and memory arrays and proves that they compute the walk and the cleaner's
scan. `PmfsReserve` has the space test of a reservation. Guards of the step system that come
from the callers of the journal: open transactions save disjoint bytes; the last reserved slot
is kept for the closing record; the cleaner runs under the mutex and sees a closing record only
when it is persistent. What the theorems single out, each with a run or an input (`PmfsRuns`,
`PmfsWipeRuns`):

- In the last generation recovery wipes the slots it passes. A fence follows the wipe of a start
  record; the other wipes become persistent in any order. A second crash can make the walk attach
  a record or a closing record that is left to an open transaction below. `WipeIff` says exactly
  when that is harmless, for every point of the walk and every set of wiped slots that can be
  persistent then. The step system wipes with the guard `Unreached`, one of its cases, which the
  code does not have.
- Storing the next generation, and then the head, in the middle of the ring as the last lap
  begins leaves used slots that the last lap will not wipe (`SkipsNothing`).
- A journal whose persistent head and tail agree is mounted in the same generation, which
  is sound exactly when no slot past the tail became persistent (`NoStray`).
- The cleaner walks over a reserved transaction that has stored no record yet
  (`FirstOpenStarted`).
- The cleaner's scan for an open transaction that is the last of its lap, under a tail that has
  wrapped around to a slot other than 0, goes past the end of the ring (`ScanLeavesIff`).
- A reservation that finds too little room takes for free what the cleaner says it has handled,
  in up to three calls, and the cleaner counts the entries of an open transaction that it stops
  at each time. When the tail wraps around, the room at the front is judged by the head read
  before the cleaning. `SpaceTestIff` says exactly when slots in use are given away.

**NOVA file index and recovery scan** (`NovaFileIndex`, `NovaScan`). The radix tree from
pages to write entries, kept by copy-on-write writes and truncates, equals the replay of the
log in every run, and every data block is mapped, kept for a snapshot or free. The windowed
scan after a crash marks exactly the blocks that the rebuilt tree maps.

**NOVA garbage collection** (`NovaLogPages`, `NovaFastGc`, `NovaThoroughGc`, `NovaGc`,
`NovaFileRuns`, `NovaPagedRuns`). Both collectors on linked pages, including allocation of a new
log and freeing of the old one, keep the file and the tree. `NovaFileRuns` lets collection drop
entries between the operations of a run; `NovaPagedRuns` puts the log of such a run in pages, and
proves the page counters that fast collection goes by.

**NOVA snapshots** (`NovaSnapshots`, `NovaSnapshotLists`, `NovaSnapshotStore`). A step system
of writes, creations, deletions and the background cleaner; the page lists it uses; and a
class with the source's operations, each proved to take the steps of the system. What the
theorems single out:

- The cleaner's single target is overwritten by the next deletion, and the end of a pass clears
  whatever target there is; blocks that no snapshot sees then stay until the snapshot that holds
  them is deleted or cleaned (`HandOnTidyIff`, `TidyIff`, `LostPass`, `LostInPass`).
- A deletion leaves the cleaner on a snapshot that is gone exactly if it is the one being
  cleaned, or the last one and the target (`DanglingIff`, `TargetFreed`, `PassFreed`,
  `PassHandedOn`).
- Walking a joined list reads the mark of an empty page in the middle as an entry
  (`JoinWalkable`, `JoinCleanly`, `ThreeIdleSnapshots`).

**NOVA lite journal** (`NovaLiteJournal`, `NovaLiteCrash`, `NovaLiteTx`). All or nothing in
every run. Recovery has no fence between writing the old values back and resetting the tail;
`ResetIff` says exactly when the reset may persist, `ResetTooEarly` gives a run to where it may
not, and the step system has the condition as a guard.

**SlotFS B-tree** (`SlotKeys`, `SlotTree`, `SlotBTree`). A finite map with hints. Its
limits: `max_keys` wraps to 0 from height 7; `btree_next` from the last slot of a tree of height 0
gives slot 0; the hint that a range setter leaves is coherent only if the range is one key or
the callback stops at its first or second, and `GetPtrHint` says where any other leads.

**PMFS inode B-tree** (`PmfsTree`, `PmfsBTree`, `PmfsShrink`, `PmfsGrow`, `PmfsInode`,
`PmfsInodeRuns`). Truncate, allocation and height changes on any tree conserve blocks and keep the
mapping of the blocks outside the cut, as far as the new height reaches. A truncation has five
ends, each proved to come exactly under its condition and each with a file that comes to it: the
tree fits; the `BUG_ON` of `pmfs_decrease_btree_height` fires, when the file is to be empty, or no
file block outside the cut is mapped, and some pointer lies before or after the cut
(`SparseFirstWrite`, `FaultedWrite`); the height reduction reads the pointers of a null root, or
puts a null root in place (`WriteAndTruncate`); or the inode keeps a root that was freed
(`StaleTruncate`). Height reduction loses a block exactly when a pointer lies after the cut and the
new span.

**Allocators** (`RangeLists`, `NovaFreeList`, `NovaSaveLists`, `PmfsBalloc`). Sorted lists of
maximal ranges under allocation and free, alone and in round trips, one of them through the
log written at unmount. NOVA's superpage allocator never takes a left margin of 0: of an
aligned range it allocates behind the first 2 MB, and `AllocSuperpage` says which range serves
and where. A free is accepted although a later block of the range is free, if the search ended at
the lower neighbour (`FreedTwice`).

**NOVA parity and paged log** (`NovaParity`, `NovaRepair`, `NovaPagedLog`). Repair of a block
from one parity stripe, and appending to a paged log against walking it.

`Division`, `FreshIds` and `Options` are helpers.

## Model

| member | source | states |
|---|---|---|
| `PmfsUndoWalk.GroupLowStops` | pmfs/journal.c:189-247 | where the walk back over one group stops: at a start record, the ring edge, the head, or just above a closing record, and at nothing of the kind before |
| `PmfsUndoWalk.PlanIsUndone` | pmfs/journal.c:815-845 | the grouping walk undoes a record iff it belongs to a started group that no closing record caps |
| `PmfsUndoWalk.PlanDescends` | pmfs/journal.c:815-845 | records are undone newest first, each once |
| `PmfsUndoWalk.RecoverLowest` | pmfs/journal.c:815-845 | a byte covered by undone records ends with the value saved by the oldest of them |
| `PmfsUndoWalk.RecoverIff` | pmfs/journal.c:815-845 | recovery yields a given image iff every byte saved by an undone record has, in the oldest one, the wanted value and every other byte already has it |
| `PmfsUndoWalk.RecoverIdempotent` | pmfs/journal.c:815-845 | recovering twice is recovering once |
| `PmfsRecovery.UndoTop` | pmfs/journal.c:83-114 | undoing the topmost undone record leaves the rest of the walk the same image to restore |
| `PmfsRecovery.SkipTop` | pmfs/journal.c:189-247 | passing a record that is not undone, and the group it closes, leaves the same records to undo |
| `PmfsRecovery.WipeOther` | pmfs/journal.c:144-163 | wiping a slot that is not undone changes no other slot's fate if it is no mark or no open transaction reaches it |
| `PmfsRecovery.WipeStart` | pmfs/journal.c:144-163 | wiping the start record of a group that is undone in place keeps the image that recovery will restore |
| `PmfsCrash.SealedKept` | pmfs/journal.c:727-745 | no record of a closed transaction is undone, whichever subset of slots is persistent |
| `PmfsCrash.OpenUndone` | pmfs/journal.c:648-725 | every fenced record of an open transaction is persistent and is undone |
| `PmfsCrash.LowestSaves` | pmfs/journal.c:648-725 | the oldest undone record of a byte holds its committed value |
| `PmfsCrash.MountedRestores` | pmfs/journal.c:815-845 | in every mounted state of the invariant a crash would be repaired to the committed image |
| `PmfsCrashSteps.StepKeepsInv` | pmfs/journal.c:505-770 | all 21 steps (reserve, log, fence, write, commit, abort, persist, clean, crash, and those of recovery, its wiping included) keep the journal invariant |
| `PmfsCrashSteps.RunKeepsInv` | pmfs/journal.c:505-770 | the invariant holds at every moment of every run |
| `PmfsCrashSteps.CrashAtomic` | pmfs/journal.c:815-845 | at every moment of every run, also inside recovery and its wiping, recovery of what survives yields exactly the committed transactions |
| `PmfsCrashSteps.RecoveryEnds` | pmfs/journal.c:787-845 | after a recovery both images hold exactly the committed data |
| `PmfsCrashSteps.OnlyCommitsTakeEffect` | pmfs/journal.c:727-745 | the committed image changes only when a commit record becomes persistent, in the bytes that transaction saved and to the values it stored |
| `PmfsCrashSteps.OrderedNoStray` | pmfs/journal.c:505-612 | if slots persist no earlier than the tail that covers them, no run leaves a stray slot behind an empty journal |
| `PmfsCleaner.CleanKeepsOpen` | pmfs/journal.c:249-392 | the cleaner's scan stops before every open transaction and between transactions when the lowest open one has a record |
| `PmfsCleaner.CleanerSafeIff` | pmfs/journal.c:249-392 | the cleaner leaves all open transactions in the journal iff the lowest open one has stored its first record |
| `PmfsRuns.CleanerPassesOpen` | pmfs/journal.c:320-392 | a run to a reservation without a record that the cleaner passes |
| `PmfsRuns.StrayReached` | pmfs/journal.c:884-902 | a run to a journal that looks empty with a live record past the tail |
| `PmfsRuns.ScanLeavesReached` | pmfs/journal.c:249-318 | a run to a journal, the window of a ring of six slots, on which the cleaner's scan leaves the ring |
| `PmfsReserve.MakeRoom` | pmfs/journal.c:551-562 | up to three calls of the cleaner, each adding what it reports |
| `PmfsReserve.NewTransaction` | pmfs/journal.c:505-612 | the loop with its retries and its second round leaves journal and outcome as the next rows describe them |
| `PmfsReserve.SweepAgain` | pmfs/journal.c:320-392 | a second call of the cleaner moves nothing and reports the open transaction at the head once more |
| `PmfsReserve.HandledMoved` | pmfs/journal.c:249-392 | the cleaner reports at most the open transaction it stops at beyond what the head moved |
| `PmfsReserve.TestIs` | pmfs/journal.c:544-562 | the test passes iff the room by the head read, or that and all reports, suffice; the head is then where the first call left it |
| `PmfsReserve.SpaceTestIff` | pmfs/journal.c:505-612 | for every ring, head, tail and request, the reservation stays clear of the slots in use iff no test that lets it through comes short of the room there is, at the tail or at the front |
| `PmfsReserve.ShortIsOpen` | pmfs/journal.c:505-612 | at the tail a test comes short iff it needs cleaning and the cleaner stops at an open transaction whose entries, counted three times, make up for the missing slots |
| `PmfsReserve.FrontWin` | pmfs/journal.c:563-581 | the window that the second test sees: what is left and the slots skipped, or nothing when the head is slot 0 |
| `PmfsReserve.UnsafeOverlaps` | pmfs/journal.c:505-612 | a reservation has a slot in use iff it and the slots in use before it are more than the ring |
| `PmfsReserve.OpenReserves` | pmfs/journal.c:249-318 | sixteen slots with one free and an open transaction of five at the head: three are handed out |
| `PmfsReserve.StaleReserves` | pmfs/journal.c:544-581 | eight slots, five in use, three wanted: one is freed, the tail wraps around and slots in use are handed out |
| `PmfsGenerations.GenSteps` | pmfs/journal.c:65-81 | the 16-bit successor and predecessor, which skip 0, step through the laps, and a cycle ends exactly at 65535 |
| `PmfsGenerations.CrashEmptyIff` | pmfs/journal.c:884-902 | mounting an empty journal as it is keeps ids unambiguous iff no stray slot lies past the tail |
| `PmfsGenerations.PersistGenIff` | pmfs/journal.c:794-813 | storing the next generation keeps ids unambiguous iff no used slot lies before the head when the last lap begins |
| `PmfsGenerations.PersistHeadIff` | pmfs/journal.c:794-813 | storing the head after it does iff no used slot lies before the tail when the last lap begins |
| `PmfsGenerations.CrashRecoverIff` | pmfs/journal.c:787-845 | both stores together keep ids unambiguous iff recovery does not leave generation 65534 with used slots before the tail |
| `PmfsGenerations.StepKeepsInv` | pmfs/journal.c:787-845 | every step, with wiping, generation and head of recovery persisting one by one and power failures in between, keeps ids unambiguous |
| `PmfsGenerations.StrayPassesTest` | pmfs/journal.c:884-902 | a run to a record past the tail that passes for one of the current lap |
| `PmfsGenerations.RunKeepsInv` | pmfs/journal.c:320-392 | stale ids never come due within a cycle, in every run of stores, cleaning and recoveries cut short |
| `PmfsGenerations.GenerationTestExact` | pmfs/journal.c:189-247 | in every run, over any number of wrap-arounds, a slot passes the id test iff it was stored in that very lap; no slot past the tail passes when mounted, and none between the stores of generation and head |
| `PmfsGenerations.SkippedSlotPassesTest` | pmfs/journal.c:787-813 | a run of power failures inside recovery up to generation 65535, after which storing the head lets a record of lap 1 pass for new |
| `PmfsWipe.WipeIff` | pmfs/journal.c:144-247 | for every point of the walk and every set of wiped slots above it that has all start records, recovery from there yields the wanted image iff no open transaction reaches up, or what is left takes nothing from that one |
| `PmfsWipeRuns.ClosedGroupHarms` | pmfs/journal.c:235-245 | a run to a recovery past a committed transaction: with its start wiped an uncommitted store stays, with its commit record wiped too a committed store is rolled back |
| `PmfsWipeRuns.UndoneGroupHarms` | pmfs/journal.c:235-245 | a run to a recovery with a transaction undone: with its start wiped recovery restores a wrong value |
| `PmfsJournal.EntriesRestore` | pmfs/journal.c:648-725 | undoing the 48-byte records cut from a range restores the range, whatever was stored there since |
| `PmfsJournal.PlanGroup` | pmfs/journal.c:189-247 | undoing one group and then the rest of the walk is the whole walk |
| `PmfsJournal.UndoJournal.UndoLogentry` | pmfs/journal.c:83-97 | the saved bytes are back in place and no other byte changes |
| `PmfsJournal.UndoJournal.UndoTransaction` | pmfs/journal.c:99-114 | memory becomes the records of the current generation undone in descending order |
| `PmfsJournal.UndoJournal.FindGroup` | pmfs/journal.c:189-247 | the scan finds the group's lowest slot, its length, and whether it is started and closed |
| `PmfsJournal.UndoJournal.RecoverTransaction` | pmfs/journal.c:189-247 | a group is undone iff started and not closed; its slots are wiped only in the last generation, all others stay |
| `PmfsJournal.UndoJournal.InvalidateLogentries` | pmfs/journal.c:144-163 | exactly the slots of the group lose their generation |
| `PmfsJournal.UndoJournal.AddLogentry` | pmfs/journal.c:648-725 | fails iff the reservation is too small; otherwise the next slots hold the range cut in 48-byte pieces with start and closing flags, and no other slot changes |
| `PmfsJournal.UndoJournal.ProcessTransaction` | pmfs/journal.c:249-318 | the ring scan returns the length of the closed group, or 0 for an open one, and the entries counted in either case; it goes past the end of the ring iff nothing decides it before |
| `PmfsJournal.UndoJournal.CleanStep` | pmfs/journal.c:320-392 | one step of the cleaner: in the last generation a closed group or a slot of another generation is wiped, a record without its start stays; the entries handled are counted |
| `PmfsJournal.UndoJournal.CleanJournal` | pmfs/journal.c:320-392 | the head moves exactly to where the scan of the window ends and exactly the passed slots of the last generation are wiped, but for records stepped over; the total returned counts the open transaction it stops at; it fails iff one of its scans leaves the ring |
| `PmfsJournal.ScanLeavesIff` | pmfs/journal.c:249-318 | the scan for a transaction leaves the ring iff the tail has wrapped around past slot 0 and the transaction is open and last of its lap |
| `PmfsJournal.ScanLeavesRing` | pmfs/journal.c:249-318 | a ring of six slots on which it does |
| `PmfsJournal.UndoJournal.RecoverSlot` | pmfs/journal.c:815-845 | one round of the recovery loop leaves the same work to do on the new memory |
| `PmfsJournal.UndoJournal.RecoverSlots` | pmfs/journal.c:815-845 | the backward loop over the ring computes the recovery of the window |
| `PmfsJournal.UndoJournal.RecoverUndoJournal` | pmfs/journal.c:787-845 | memory is the recovery of the window, the journal is empty and in the next generation, and slots outside the wiped window stay |
| `NovaFileIndex.SkippingIsSound` | nova/rebuild.c:358-383 | a replay that skips fully invalid entries gives the same tree when no page maps to one |
| `NovaFileIndex.FileIndex.FreeOldEntry` | nova/log.c:131-177 | the displaced blocks are freed and counted invalid, or all kept for a snapshot and not counted |
| `NovaFileIndex.FileIndex.Flush` | nova/log.c:802-866 | settling a run of displaced pages leaves the books as if page by page |
| `NovaFileIndex.FileIndex.Displace` | nova/log.c:802-866 | adding a page to the pending run keeps exactly the pages before it settled |
| `NovaFileIndex.FileIndex.AssignWriteEntry` | nova/log.c:802-866 | all pages of the entry map to it, others stay, and the displaced pages are charged and freed once each although the loop batches runs |
| `NovaFileIndex.FileIndex.FindNext` | nova/inode.c:281-349 | the least mapped page from a given one, or none iff there is none |
| `NovaFileIndex.FileIndex.DeleteFileTree` | nova/inode.c:281-349 | exactly the pages from `first` on are unmapped, charged and freed, holes in between included |
| `NovaFileIndex.FileIndex.CowWrite` | nova/log.c:802-866 | a copy-on-write write is a step of the run relation and keeps the file consistent |
| `NovaFileIndex.FileIndex.Truncate` | nova/inode.c:391-429 | a truncate is a step of the run relation and keeps the file consistent |
| `NovaFileIndex.FileIndex.RebuildTree` | nova/rebuild.c:385-505 | replay from an empty tree yields the tree of the log and changes neither counters nor free blocks |
| `NovaFileIndex.DeadIsUnmapped` | nova/log.c:23-76 | an entry whose counter is full maps no page |
| `NovaFileIndex.UnmappedIsDead` | nova/log.c:23-76 | with no snapshot, an entry's counter is full iff it maps no page |
| `NovaFileIndex.WriteKeeps` | nova/log.c:802-866 | a write keeps tree, counters and the partition of blocks consistent |
| `NovaFileIndex.TruncateKeeps` | nova/inode.c:281-349 | so does a truncate |
| `NovaFileIndex.HarmlessKeeps` | nova/log.c:507-544 | so does an attribute entry that cuts no page, and any other entry |
| `NovaFileIndex.RunConsistent` | nova/log.c:802-866 | consistency holds after every run of operations |
| `NovaFileIndex.LiveTreeIsReplay` | nova/rebuild.c:385-505 | after every run the live tree is the replay of the log, with and without dead entries, and each block is exactly one of mapped, kept, free |
| `NovaScan.Scanner.WriteEntry` | nova/bbuild.c:861-912 | the ring holds the replayed blocks of the window after one more write entry |
| `NovaScan.Scanner.SetattrEntry` | nova/bbuild.c:937-1004 | and after one more set-size entry, which clears only up to the old size |
| `NovaScan.Scanner.SetFileBm` | nova/bbuild.c:914-935 | exactly the blocks of the window are marked and the ring is left clean |
| `NovaScan.Scanner.ScanLog` | nova/bbuild.c:1025-1136 | one pass over the log leaves the replay of the window and the last page of the file |
| `NovaScan.Scanner.TraverseFileInodeLog` | nova/bbuild.c:1025-1136 | all windows together mark exactly the blocks that replay maps, however long the file is |
| `NovaScan.ScanMarksRebuiltTree` | nova/bbuild.c:1025-1136 | the marked blocks are exactly those the rebuilt tree maps |
| `NovaLogPages.BlockOfIsMapped` | nova/gc.c:21-102 | the block that a paged log gives a page is the one of the plain replay |
| `NovaLogPages.ThinSame` | nova/gc.c:21-102 | dropping any set of invalid entries changes the block of no page |
| `NovaFastGc.FastThin` | nova/gc.c:563-746 | the kept pages hold the old log without some invalid entries |
| `NovaFastGc.LiveEntryKept` | nova/gc.c:104-139 | a page with a valid entry is never freed |
| `NovaFastGc.FastKeepsFile` | nova/gc.c:563-746 | every page of the file keeps its block and the tree stays right |
| `NovaThoroughGc.ThoroughThin` | nova/gc.c:299-430 | the new log is the old one without its invalid entries, the tail page kept whole |
| `NovaThoroughGc.SlotFollows` | nova/gc.c:157-183 | a slot of the tree points after the move to a copy of the same entry |
| `NovaThoroughGc.ThoroughKeepsFile` | nova/gc.c:299-430 | every page of the file keeps its block and the re-pointed tree is right |
| `NovaGc.NovaLog.FreePage` | nova/gc.c:141-155 | the page is gone and the log's chain is intact |
| `NovaGc.NovaLog.CheckPage` | nova/gc.c:563-746 | an invalid page behind the head is unlinked and freed, any other page stays |
| `NovaGc.NovaLog.UnlinkAndFree` | nova/gc.c:141-155 | the chain closes over the removed page and only its neighbour's link changes |
| `NovaGc.NovaLog.DropInvalidPages` | nova/gc.c:563-746 | the loop frees exactly the invalid pages between head and tail and finds the first live one |
| `NovaGc.NovaLog.MoveHead` | nova/gc.c:563-746 | the log starts at the first live page, ends with the new pages, and a dead head is freed |
| `NovaGc.NovaLog.FastGc` | nova/gc.c:563-746 | the log is the live pages and the tail page; a page is freed iff it is invalid and not the tail page |
| `NovaGc.NovaLog.AllocatePages` | nova/log.c:1059-1162 | a linked list of blank new pages, one after the other |
| `NovaGc.NovaLog.FreeContiguous` | nova/log.c:1373-1416 | exactly the pages of the list are freed although the loop batches runs of neighbours |
| `NovaGc.NovaLog.AssignFileEntry` | nova/gc.c:157-183 | the tree slots that pointed to the old entry point to the new one, others stay |
| `NovaGc.NovaLog.AppendHead` | nova/log.c:1325-1371 | a place with room for the entry, on the same, the next or a newly linked page |
| `NovaGc.NovaLog.CopyEntry` | nova/gc.c:299-430 | a valid entry is copied and its slots follow; an invalid one is dropped |
| `NovaGc.NovaLog.CopyLog` | nova/gc.c:299-430 | the loop passes every page but the last and stops there |
| `NovaGc.NovaLog.SwitchLog` | nova/gc.c:299-430 | the log is the new pages and the tail page, and exactly the old pages are freed |
| `NovaGc.NovaLog.ThoroughGc` | nova/gc.c:299-430 | a compacted log of the valid entries with the tree re-pointed, or an unchanged log if it has one page or allocation falls short |
| `NovaGc.NovaLog.CollectLog` | nova/gc.c:563-746 | whichever collectors run, every page keeps its block and its entry, tree and log agree, and the tail page is untouched |
| `NovaFileRuns.CollectKeeps` | nova/gc.c:21-102 | dropping an invalid entry and renumbering the tree keeps tree, counters and blocks consistent |
| `NovaFileRuns.DoKeeps` | nova/log.c:507-544 | operations on the file keep that attribute entries without a change of size cut nothing off |
| `NovaFileRuns.InvalidateKeeps` | nova/log.c:547-574 | so does invalidating such an entry |
| `NovaFileRuns.CollectedRunIsReplay` | nova/gc.c:21-102 | in every run with collection between the operations the live tree is the replay of the log, blocks are accounted for, and invalidated attribute entries cut nothing off |
| `NovaFileRuns.PagedTreeOK` | nova/gc.c:157-183 | however the log of such a run lies in pages, its tree of addresses is right |
| `NovaFileRuns.ThinByDrops` | nova/gc.c:299-430 | what a collector leaves of the log, a run of single drops leaves |
| `NovaPagedRuns.OnFileKeeps` | nova/log.c:23-76 | an operation on the file keeps the page counters right: each entry that becomes invalid is counted once |
| `NovaPagedRuns.SupersedeKeeps` | nova/log.c:547-574 | so does invalidating a superseded entry |
| `NovaPagedRuns.DropPageKeeps` | nova/gc.c:563-746 | dropping a page whose counters are equal keeps tree, counters and blocks consistent |
| `NovaPagedRuns.RewriteKeeps` | nova/gc.c:299-430 | so does rewriting all pages but the last with the valid entries |
| `NovaPagedRuns.PagedRunRight` | nova/gc.c:104-139 | in every run the counters of every page are right, they are equal iff all its entries are invalid, and the tree is the replay of the log |
| `NovaSnapshots.DeletableIff` | nova/snapshot.c:461-491 | an entry is deletable iff no live snapshot sees it |
| `NovaSnapshots.StepKeeps` | nova/snapshot.c:910-1090 | every step keeps held, freed and current blocks consistent |
| `NovaSnapshots.SnapshotSafety` | nova/snapshot.c:461-540 | in every run no block is freed twice, no current block is freed, and a block that a live snapshot sees is held and not freed |
| `NovaSnapshots.TidyIff` | nova/snapshot.c:989-1090 | from a state with each unneeded block in reach of the cleaner, a step leaves one iff it is quiet: a deletion that overwrites no pending work and takes no snapshot from under the cleaner |
| `NovaSnapshots.RunTidy` | nova/snapshot.c:1332-1355 | runs of quiet steps keep each unneeded block in reach |
| `NovaSnapshots.Reclaimed` | nova/snapshot.c:1332-1355 | in such runs, whenever there is no target, a dead block is freed iff no live snapshot sees it |
| `NovaSnapshots.HandOnTidyIff` | nova/snapshot.c:989-1033 | a deletion at any point of a pass keeps the work of the cleaner iff it neither overwrites work that is still to do nor deletes the snapshot being cleaned |
| `NovaSnapshots.DeleteLastTidyIff` | nova/snapshot.c:1046-1090 | deleting the last snapshot keeps it iff that one is neither target nor being cleaned |
| `NovaSnapshots.DanglingIff` | nova/snapshot.c:989-1090 | a step leaves target or pass on a snapshot that is gone iff it deletes the one being cleaned, or the last one and the target |
| `NovaSnapshots.NeverAstray` | nova/snapshot.c:197-256 | a run without such a deletion never cleans the list of a snapshot that is gone |
| `NovaSnapshots.LostInPass` | nova/snapshot.c:1332-1355 | a run of ten steps in which a deletion during a pass loses its work |
| `NovaSnapshots.TargetFreed` | nova/snapshot.c:1046-1090 | a run that cleans a target deleted before the pass |
| `NovaSnapshots.PassFreed` | nova/snapshot.c:1046-1090 | a run that cleans the last snapshot, deleted during the pass |
| `NovaSnapshots.PassHandedOn` | nova/snapshot.c:989-1033 | a run that cleans a snapshot handed on during the pass |
| `NovaSnapshots.LostPass` | nova/snapshot.c:989-1033 | a run of eleven steps after which a block no snapshot sees is held with the cleaner idle |
| `NovaSnapshotLists.AppendedRows` | nova/snapshot.c:405-459 | appending to a list adds one row, across page ends |
| `NovaSnapshotLists.JoinWalkable` | nova/snapshot.c:989-1033 | two joined lists can be deleted iff each can and no empty page ends up inside |
| `NovaSnapshotLists.JoinCleanly` | nova/snapshot.c:989-1033 | and cleaned iff the first can be deleted, the second cleaned, and no empty page of earlier snapshots ends up inside |
| `NovaSnapshotLists.CleanList` | nova/snapshot.c:197-256 | exactly the rows taken over from earlier snapshots that died by this snapshot's epoch are freed and marked, the others stay in order; a page mark is read as an entry iff an empty page of an earlier snapshot lies inside |
| `NovaSnapshotLists.DeleteEntries` | nova/snapshot.c:112-171 | exactly the rows not yet deleted are freed, each once; a page mark is read as an entry iff an empty page lies inside |
| `NovaSnapshotStore.SnapshotStore.FindTarget` | nova/snapshot.c:50-66 | the first snapshot from an epoch on, or none iff there is none |
| `NovaSnapshotStore.SnapshotStore.CreateSnapshot` | nova/snapshot.c:910-978 | the state takes the create step, or the failed one, which still advances the epoch |
| `NovaSnapshotStore.SnapshotStore.AppendData` | nova/snapshot.c:461-540 | the state takes the retire step, and the entry is deletable iff no live snapshot sees it |
| `NovaSnapshotStore.SnapshotStore.DeleteSnapshot` | nova/snapshot.c:1046-1090 | the state takes the hand-on step or the delete-last step, and stays as it is iff the snapshot is unknown; a page mark is read iff it is the last one with a list that cannot be walked |
| `NovaSnapshotStore.SnapshotStore.LinkToNext` | nova/snapshot.c:989-1033 | all blocks held by the snapshot pass to the next one and no other changes owner |
| `NovaSnapshotStore.SnapshotStore.DeleteLists` | nova/snapshot.c:258-305 | exactly the blocks the snapshot holds are freed once, unless a list cannot be walked |
| `NovaSnapshotStore.SnapshotStore.CleanOne` | nova/snapshot.c:197-256 | the state takes the clean-list step of one CPU, the one astray iff the snapshot is gone; a page mark is read iff the list cannot be cleaned |
| `NovaSnapshotStore.SnapshotStore.CleanSnapshot` | nova/snapshot.c:1332-1355 | the state takes the whole pass over the CPUs and the target is cleared; it goes wrong iff the target is gone or one of its lists cannot be cleaned |
| `NovaSnapshotStore.ThreeIdleSnapshots` | nova/snapshot.c:24-48 | three snapshots with no write in between, the first two deleted: the cleaner reads a page mark as an entry |
| `NovaLiteJournal.NextPtrSlot` | nova/journal.c:75-87 | the address arithmetic walks a ring of 128 slots inside the page |
| `NovaLiteJournal.SlotsApart` | nova/journal.c:75-87 | up to 127 consecutive entries are distinct slots and tail never meets head |
| `NovaLiteJournal.FlushCovers` | nova/journal.c:287-309 | the one or two flushed ranges cover every entry between head and tail, wrap-around included |
| `NovaLiteJournal.UndoIff` | nova/journal.c:165-187 | undo in recovery's order restores memory iff only logged words changed, also when a word was logged twice |
| `NovaLiteCrash.StepKeeps` | nova/journal.c:311-464 | every step (append, fence, tail, store, head, persist, crash, undo, reset) keeps the journal invariant |
| `NovaLiteCrash.AllOrNothing` | nova/journal.c:165-187 | at every moment of every run recovery of what survives yields the committed words, which only the persisting of the new head changes |
| `NovaLiteCrash.CommitTakesAll` | nova/journal.c:416-427 | a commit takes effect with all stores made since the transaction began |
| `NovaLiteCrash.CommitIff` | nova/journal.c:416-427 | moving the head commits the right image iff all stores of the transaction are persistent |
| `NovaLiteCrash.ResetIff` | nova/journal.c:165-187 | persisting the tail reset of recovery is right iff all restored words are persistent |
| `NovaLiteCrash.ResetTooEarly` | nova/journal.c:165-187 | a run to a reset with a restored word not persistent |
| `NovaLiteTx.FieldCounts` | nova/journal.c:311-382 | creating logs 2 to 4 words and renaming 2 to 8, far fewer than the ring holds |
| `NovaLiteTx.LiteJournal.AppendEntry` | nova/journal.c:210-233 | the next slot holds the 8-byte aligned address and its present value |
| `NovaLiteTx.LiteJournal.AppendInode` | nova/journal.c:245-277 | the fields of the inode that the transaction will change are saved in order |
| `NovaLiteTx.LiteJournal.AppendDentry` | nova/journal.c:279-285 | both words of the father's dentry are saved when there is one |
| `NovaLiteTx.LiteJournal.CreateInodeTransaction` | nova/journal.c:311-339 | the journal holds exactly the fields of both inodes with their old values and the tail is behind them |
| `NovaLiteTx.LiteJournal.CreateRenameTransaction` | nova/journal.c:341-382 | the same for up to four inodes and a dentry |
| `NovaLiteTx.LiteJournal.CreateLogentryTransaction` | nova/journal.c:384-414 | the same for the words of a log entry |
| `NovaLiteTx.LiteJournal.Commit` | nova/journal.c:416-427 | the journal is empty again |
| `NovaLiteTx.LiteJournal.Recover` | nova/journal.c:165-187 | memory is the undo of the entries between head and tail and the journal is empty |
| `SlotKeys.DigitsDiffer` | slotfs/btree.c:99-121 | different keys have different paths |
| `SlotKeys.DigitsFull` | slotfs/btree.c:48-97 | the path with all digits full is that of the last key |
| `SlotKeys.DigitsSucc` | slotfs/btree.c:48-97 | the successor path is the path of the successor key, carries included |
| `SlotTree.FindLeaf` | slotfs/btree.c:99-121 | descending by digits finds the only leaf slot with that path, or a missing child |
| `SlotTree.AddChild` | slotfs/btree.c:19-33 | a new node keeps the tree well formed and every old slot where it is |
| `SlotTree.ExpandAt` | slotfs/btree.c:144-154 | after the root moves down, a path finds its old value iff its first digit is 0 |
| `SlotBTree.BTree.InitMaxKeys` | slotfs/btree.c:296-302 | the table holds the capacities exactly up to height 6 and is 0 above, where 64 bits overflow |
| `SlotBTree.BTree.constructor` | slotfs/btree.c:35-46 | a new tree is empty |
| `SlotBTree.BTree.Expand` | slotfs/btree.c:144-154 | one level more, no value changes and every slot serves the same key |
| `SlotBTree.BTree.Pos` | slotfs/btree.c:99-121 | the slot of the key is found or created and no value changes |
| `SlotBTree.BTree.Get` | slotfs/btree.c:232-247 | the value of the key in the map the tree stands for |
| `SlotBTree.BTree.Climb` | slotfs/btree.c:48-97 | the climb ends at the lowest ancestor with a next branch, or at the root when the path is full |
| `SlotBTree.BTree.DescendLeft` | slotfs/btree.c:48-97 | the descent ends at the leftmost leaf below a branch |
| `SlotBTree.BTree.NextSlot` | slotfs/btree.c:48-97 | where iteration goes from every slot, the last one of the tree included |
| `SlotBTree.BTree.NextKey` | slotfs/btree.c:48-97 | from the slot of a key to the slot of the next key, no value changed; from the last slot to none, or to slot 0 in a tree of one level |
| `SlotBTree.BTree.Set` | slotfs/btree.c:156-171 | the map is updated at the key and nowhere else |
| `SlotBTree.BTree.SetRange` | slotfs/btree.c:202-230 | exactly the keys before the first one the callback stops at are set; success iff the range is not empty and none stops |
| `SlotBTree.BTree.GetPtrHint` | slotfs/btree.c:249-288 | from a hint on any slot, whatever its number, the slot it leads to, and that this is the key's iff the hint is coherent or not used |
| `SlotBTree.TwoKeyRange` | slotfs/btree.c:173-200 | after a range of two keys the hint leads to the second one's slot for the first |
| `SlotBTree.BTree.SetRangeHint` | slotfs/btree.c:173-200 | the same update as without hint; the hint left behind is coherent iff the range is one key or the callback stops at its first or second |
| `SlotBTree.ReachEnds` | slotfs/btree.c:156-171 | the loop that expands the tree ends within the table iff the key is below 2^56 |
| `PmfsTree.RangeSplits` | pmfs/inode.c:232-315 | a block number is in a range iff it is in the part of the range that its child is handed |
| `PmfsTree.LookDistinct` | pmfs/pmfs.h:479-501 | two file blocks never share a data block if no block occurs twice in the tree |
| `PmfsBTree.TruncateBlocks` | pmfs/inode.c:232-315 | exactly the range is cut, every removed block is freed once, and the node is freed iff nothing lies before the range and nothing after it |
| `PmfsBTree.TruncateChild` | pmfs/inode.c:232-315 | the same for one child, leaf or subtree or hole |
| `PmfsShrink.TruncAfter` | pmfs/inode.c:232-315 | after truncation no pointer lies behind a block iff none lay behind it and the cut |
| `PmfsShrink.TruncLeft` | pmfs/inode.c:348-391 | the leftmost subtree of the truncated tree is the leftmost subtree truncated |
| `PmfsTree.DataLooks` | pmfs/pmfs.h:479-501 | a tree with a data block maps some file block |
| `PmfsShrink.DataLeft` | pmfs/inode.c:348-391 | the leftmost subtree has all data blocks iff no file block beyond it is mapped |
| `PmfsGrow.AllocBlocks` | pmfs/inode.c:560-654 | holes of the range are filled with fresh blocks in order, present blocks stay, failure means the supply ran out, and no more than one block per level and file block is taken |
| `PmfsInode.RaisedMap` | pmfs/inode.c:519-549 | a level on top of the root changes the mapping of no block |
| `PmfsInode.HeightLeast` | pmfs/inode.c:348-391 | the height computed for a size is the least one that spans it |
| `PmfsInode.Inode.NoSharing` | pmfs/pmfs.h:479-501 | mapped blocks are distinct and neither free nor freed |
| `PmfsInode.Inode.IncreaseHeight` | pmfs/inode.c:519-549 | no mapping changes, blocks are conserved, and failure means the supply ran out |
| `PmfsInode.Inode.AllocateBlocks` | pmfs/inode.c:656-750 | on success every block of the range is mapped; old mappings never change, blocks are conserved, failure has only the two causes of the source, and a supply of more than three blocks per file block and three more suffices |
| `PmfsInode.Inode.Truncate` | pmfs/inode.c:434-516 | on any tree: which of the five ends it has, each exactly when; where the new height is reached, the mapping outside the cut and below the new span, exactly when no block is dropped, and exactly when no data block is; blocks are conserved |
| `PmfsInode.Inode.CutRange` | pmfs/inode.c:434-516 | the tree becomes its truncation, the range is unmapped and no other block |
| `PmfsInode.Inode.FitHeight` | pmfs/inode.c:348-391 | the end of height reduction on any truncated tree, the `BUG_ON` included |
| `PmfsInode.Inode.LowerTo` | pmfs/inode.c:348-391 | the loop reads a null root's pointers iff the leftmost path ends above the last step, else it ends at the leftmost subtree, null or not, and loses a block iff a pointer lies behind the new span |
| `PmfsInodeRuns.SparseFirstWrite` | pmfs/inode.c:348-391 | a file written first at any block from 512 on and truncated to it ends in the `BUG_ON` |
| `PmfsInodeRuns.FaultedWrite` | pmfs/xip.c:190-240 | so does an empty file with a two-block write that faulted in the second, truncated to 0 |
| `PmfsInodeRuns.WriteAndTruncate` | pmfs/xip.c:190-240 | a faulted write up to block 512, truncated to one block: it loses a block, puts a null root in place and loses blocks, or reads a null root, by where the write began and the file ended |
| `PmfsInodeRuns.StaleTruncate` | pmfs/inode.c:348-391 | blocks 5 and 512, truncated to six blocks and then to five: the inode keeps a root that was freed |
| `RangeLists.Canonical` | nova/balloc.c:377-501 | two sorted lists of maximal ranges with the same blocks are the same ranges |
| `NovaFreeList.FreeList.FindFreeSlot` | nova/balloc.c:319-375 | from any node the tree search can visit, the place of the range, and exactly when it is refused |
| `NovaFreeList.FreeList.FreeBlocks` | nova/balloc.c:377-501 | for any block type, refused exactly as the source tests it; accepted, the list stays right iff the range lies within the list's blocks and none of it was free, and then the free set gains exactly the range |
| `NovaFreeList.FreedTwice` | nova/balloc.c:319-375 | a list on which a range with free blocks is accepted and spoils it |
| `NovaFreeList.FreeList.AllocSuperpage` | nova/balloc.c:589-718 | succeeds iff some range has 512 blocks behind its aligned left margin; the first such range serves, from its margin on, and exactly those blocks leave the free set |
| `NovaFreeList.FreeList.AllocUnaligned` | nova/balloc.c:720-847 | the free set loses exactly the returned range; 4 KB requests fail only on an empty list |
| `NovaFreeList.FreeList.AllocBlocks` | nova/balloc.c:720-847 | at most the wanted number is taken, exactly those blocks leave the free set, list and counters stay right, and log allocation never adds a node |
| `NovaFreeList.AllocThenFree` | nova/balloc.c:377-501 | freeing what was allocated gives back the same ranges and count |
| `NovaSaveLists.AppendPair` | nova/bbuild.c:362-399 | one pair is written behind the others, across page ends, iff there is room |
| `NovaSaveLists.SaveLists` | nova/bbuild.c:424-433 | the log holds the ranges of all CPUs in order |
| `NovaSaveLists.LoadPair` | nova/bbuild.c:196-264 | a pair goes to the list of the CPU it belongs to, and first, last and counters follow |
| `NovaSaveLists.LoadLists` | nova/bbuild.c:196-264 | every CPU gets exactly its pairs in log order |
| `NovaSaveLists.SaveThenLoad` | nova/bbuild.c:196-264 | each CPU reads back exactly the ranges it saved |
| `NovaSaveLists.UnmountThenMount` | nova/bbuild.c:487-538 | taking log pages before saving and giving them back after loading restores the same free ranges, in any order |
| `NovaSaveLists.PagesSuffice` | nova/bbuild.c:487-538 | the pages counted before they are taken suffice for what is saved after |
| `PmfsBalloc.AlignedLeast` | pmfs/balloc.c:151-280 | the rounded address is the least aligned one behind a range |
| `PmfsBalloc.BlockMap.NewBlock` | pmfs/balloc.c:151-280 | an aligned free run joins the blocks in use; refused only if behind no range an aligned run fits; ranges stay maximal |
| `PmfsBalloc.BlockMap.FreeBlock` | pmfs/balloc.c:52-140 | the run is refused iff it lies in no range in use; otherwise exactly it leaves the blocks in use, with any hint that points into the list, and the new hint does |
| `NovaParity.CalculateParity` | nova/parity.c:20-54 | the loop computes the XOR of all stripes at every offset |
| `NovaParity.UnrolledParity` | nova/parity.c:140-256 | so does the unrolled loop over eight stripes |
| `NovaParity.Rebuilt` | nova/parity.c:258-372 | a byte rebuilt from parity is the original iff the damage of the other stripes cancels out there |
| `NovaRepair.RestoreData` | nova/parity.c:258-372 | an accepted candidate is written back; failure iff none of the tried ones is accepted or the parity is lost, and then nothing changes |
| `NovaRepair.CandidateIff` | nova/parity.c:258-372 | a candidate is the original stripe iff the block is recoverable at that offset |
| `NovaRepair.RestoreIff` | nova/parity.c:258-372 | if no wrong candidate that is tried passes the checksum, repair succeeds iff the block is recoverable at a tried offset, after a media error or a mismatch |
| `NovaRepair.ScribbleRecoverable` | nova/parity.c:258-372 | damage of at most one stripe length that starts no later than this stripe's end is recoverable |
| `NovaRepair.VerifyData` | nova/checksum.c:705-865 | such damage, or a stripe lost to a media error, is repaired in all verified stripes and both checksum copies are right again |
| `NovaRepair.TooLate` | nova/parity.c:258-372 | damage that another stripe has in its last byte makes every tried candidate wrong |
| `NovaPagedLog.StaysOn` | nova/nova.h:865-885 | the walker never leaves a page before its last entry and reads each entry where it was stored |
| `NovaPagedLog.PagedLog.Walk` | nova/nova.h:856-885 | walking yields exactly the appended entries in order |
| `NovaPagedLog.PagedLog.Append` | nova/log.c:1292-1371 | the log gains exactly this entry at its end, whether the page is turned, extended or neither |
| `NovaPagedLog.PagedLog.Extend` | nova/log.c:1292-1323 | new pages hang behind the tail page and nothing stored changes |
| `NovaPagedLog.PagedLog.TurnPage` | nova/log.c:1325-1371 | the tail moves to the next page with the old page closed for the walker |

## Left out

- Everything above the file: directories and dentries, permissions, mmap and DAX, in-place writes, symlinks, sysfs and ioctl.
- PMFS redo logging (`pmfs_redo_transaction`, `pmfs_recover_redo_journal`), the truncate list, and huge data blocks in the inode tree.
- PmfsCrashSteps.StepKeepsInv: a slot wiped during recovery becomes persistent only where no open transaction reaches a wiped mark, and of an undone group the start record first; the code has no such guard, and `PmfsWipe.WipeIff` says exactly when it is not needed.
- PmfsCrashSteps.StepKeepsInv: reservation takes the free space as given; `PmfsReserve.SpaceTestIff` says when the test of `pmfs_new_transaction` gives it. A transaction keeps its last slot for the closing record, which the callers see to.
- PmfsReserve.NewTransaction: for reservations smaller than the ring; waking the cleaner thread is not modelled.
- PmfsCleaner.CleanerSafeIff: for a linear log; `PmfsJournal.UndoJournal.CleanJournal` has the ring and its end.
- PmfsGenerations.RunKeepsInv: the two stores that end recovery have the conditions of `PersistGenIff` and `PersistHeadIff` as guards.
- NovaFileIndex.LiveTreeIsReplay: copy-on-write files without in-place writes and without a second log; garbage collection is a step in `NovaFileRuns`.
- NovaScan.Scanner.TraverseFileInodeLog: snapshot entries, log-page marking and the per-inode thread pool are not modelled.
- NovaGc.NovaLog.CollectLog: whether thorough collection runs and how many pages it asks for are parameters, so the estimate in the source does not matter; extending the new log is taken to succeed; crash points between its stores are not modelled, nor the alternate log and directory or mmap entries.
- NovaGc.NovaLog.AllocatePages: page by page; the source takes runs of contiguous blocks.
- NovaPagedRuns.PagedRunRight: the pages of a run are a sequence; `NovaGc` has the links, and takes as its start what this theorem gives.
- NovaSnapshots.SnapshotSafety: one mount, from an empty snapshot table; saving the lists at unmount and restoring them is not modelled. A run ends where the cleaner goes on a snapshot that is gone. Handing on is one step for all CPUs, and a write that races a deletion is not modelled.
- NovaLiteTx.LiteJournal.CreateInodeTransaction: without the replica inode and entry checksums of `metadata_csum`.
- NovaLiteTx.LiteJournal.CreateLogentryTransaction: for log entries of 8 to 64 bytes, the sizes NOVA has.
- NovaLiteCrash.AllOrNothing: guards the reset of recovery as in `ResetIff`, since the source has no fence there.
- PmfsInode.Inode.AllocateBlocks: does not set the EOFBLOCKS flag, which is a parameter of `Truncate`.
- SlotBTree.BTree.SetRangeHint: with a coherent hint.
- SlotBTree.BTree.Get: requires a key within the capacity, which the source does not check; keys are below 2^56, where `ReachEnds` has the end of the expanding loop; iteration and search without creation, destruction, the arena allocator and allocation failure are not modelled.
- PmfsInode.Inode.Truncate: what the inode goes on with after the `BUG_ON` or with a null root is not modelled.
- NovaFreeList.FreeList.FreeBlocks: the red-black tree is a sorted sequence and allocation of nodes succeeds.
- NovaFreeList.FreeList.AllocBlocks: retry on other CPUs and zeroing are not modelled.
- NovaRepair.VerifyData: one block; a wrong content that is examined and passes its checksum is shut out; a media error takes a whole stripe.
- NovaPagedLog.PagedLog.Append: allocation succeeds, of one page each time, and there is one log, not two.
- Metadata checksums and replicas, the inode tables, the failure-recovery threads, SlotFS's slot and inode layers.
