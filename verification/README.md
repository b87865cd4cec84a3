# btrfs-progs: the offline engines, modelled and proved

This project models the parts of btrfs-progs 3.12 that rewrite or judge a file system
without mounting it, and proves what they are for:

* **Conversion and rollback** (`Layout`, `Tiling`, `RefTree`, `View`, `Allocator`,
  `Relocation`, `Image`, `Accounting`, `Convert`, `Rollback`, `CopyFiles`).  An ext2 file system is converted in
  place and rolled back.  The device is a sequence of sectors, block groups partition it,
  and the two file trees (the file system and the ext2 image file) are maps from file
  ranges to runs of sectors.  The theorem is `CopyFiles.ConvertExt2AndBack`: for every
  device, block bitmap and set of inodes with their block callbacks, a successful conversion
  shows every file block as before, can be rolled back, and after that every sector that
  ext2 used holds what it held at the start; a conversion that gives up has not touched any
  of ext2's sectors, and it succeeds whenever the sectors it may write outnumber the tree
  blocks, the first 64K with the super block, and ext2's own sectors that have to move.
* **The checker's books** (`InodeMerge`, `InodeEnds`, `InodeNames`, `CowRecords`, `ExtentRefs`,
  `ExtentHistory`, `ExtentSound`, `SpaceCache`, `RootRecs`, `RootPrune`, `RootRefs`,
  `RootReport`, `ChunkCheck`).  Inode records spliced out of shared subtrees, their
  copy-on-write sharing, extent reference counts, the free-space cache, reachable roots and
  the verdict on them, and the cross-check of chunks, block groups, device extents and
  devices.  A good verdict is characterised by what was delivered: `ExtentSound.CheckEvents`,
  `RootReport.CheckRootRefs`, `SpaceCache.VerdictFrom` and `InodeMerge.NotedExact`.
* **Metadata images** (`Bytes`, `ImageFile`, `DumpWorkers`, `LeafSurgery`).  The file
  format with its writer and reader, the pool of compressing threads as a state machine,
  and the in-place surgery on chunk leaves.
* **Chunk-tree recovery** (`NewestWins`, `StripeOrder`, `StripeTruth`, `StripePairs`) and
  the **directory index** (`DirIndex`).

`Basics` holds what several modules share.

Code that changes things in place is modelled by classes and methods with loops; each is
proved against a specification on values, and the laws are lemmas about that
specification or `ensures` clauses of whole runs (`Rollback.ConvertThenRollback`,
`ExtentSound.CheckEvents`, `RootReport.CheckRootRefs`, `NewestWins.Scan`, `ImageFile.DumpAndRestore`, `DirIndex.Replay`,
`CowRecords.Run`, `DumpWorkers.AnyInterleaving`).

## Where the code and its promise differ

* `verify_space_cache` checks the gap after the last extent even when an earlier gap has
  failed, and the result of that last check replaces the failure (cmds-check.c:3328-3342).
  So a verdict of 0 does not imply an exact cache.  `SpaceCache.VerifyFooled` is an
  example, and `SpaceCache.VerifyExact` gives the condition: a good verdict means an exact
  cache if and only if no entry runs across the start of an extent.  `SpaceCache.VerdictFrom`
  says when the verdict is good at all: the entries are exactly the free stretches outside
  the stripes and the extents that count.  All extents of the group count, or only those
  before one whose gap in front is a single free stretch that runs on behind its start.
  `SpaceCache.ExactAccepted` is the other half of the promise: an exact cache of longest
  entries always passes.
* With overlapping file extents a plain walk forgets the end of the longer, earlier extent
  while a splice remembers it (cmds-check.c:1142-1177 against 630-643).
  `InodeMerge.OverlapForgetsEnd` is an example.  Links, size, first offset and the overlap
  itself agree on all inputs.  By `InodeEnds.EndExact` the end agrees for every way of
  splitting the items if and only if no extent ends after the last one, and by
  `InodeEnds.GapExact` the first gap agrees if and only if no extent before the first hole
  between neighbouring extents reaches into it; `InodeEnds.GapHidden` is an example.
* The cross-check of chunks and devices does not notice a chunk that names one place twice.
  `ChunkCheck.RepeatedStripe` is an example, and `ChunkCheck.TotalsAgree` shows that the
  totals agree exactly when no chunk does.
* A DIR_ITEM that arrives for a root backref which already has a DIR_ITEM and a ROOT_REF is
  counted again (cmds-check.c:1656-1659).  `RootRefs.LateDirItem` is an example; by
  `RootRefs.Run` the reference counts of all roots are the numbers of their reachable
  backrefs if and only if no DIR_ITEM is late.  A repeated DIR_ITEM before the ROOT_REF does
  no harm.
* Pruning sets the count of FS_TREE to 1 whatever refers to it (cmds-check.c:1740-1741), so
  one lost backref removes FS_TREE itself, and a second one takes the 32-bit counter from 0
  to 2^32 - 1 and brings it back.  `RootRefs.FsTreeLost` and `RootRefs.FsTreeRevived` are
  examples.  When one place refers to FS_TREE from outside every closed set of roots,
  `RootRefs.RootCache.PruneRoots` says exactly what happens: FS_TREE is lost if and only if
  no place in FS_TREE itself refers to FS_TREE behind that one (given at most 2^32 places);
  without a place outside every closed set it is always left.  With several, only the case of two roots that nothing refers to is decided;
  in any case the roots left follow from whether FS_TREE is.
* For RAID0 the first lookup of a recovered chunk may return a block in the middle
  (chunk-recover.c:1469-1501, extent-cache.c:29-43), and the stripes skipped that way are
  filled in list order although blocks were found on them.  `StripeTruth.WrongStripe` is an
  example.  `StripeTruth.Raid0Exact` gives the condition on the chunk: every order and every
  lookup is harmless if and only if there are at most two stripes or all found blocks lie in
  one stripe.  `StripePairs.Raid10Exact` gives the one for RAID10, where a block may have
  been found on one extent of its pair only, and `StripePairs.WrongPair` an example;
  `StripeTruth.RestExact` gives the condition on the state after the scan.
* `custom_alloc_extent` jumps over a run that touches a pinned byte by the whole request
  (btrfs-convert.c:177-180).  In a conversion this never loses space: free and pinned
  sectors are disjoint, which `Convert.Converter` keeps as an invariant, so by
  `Allocator.Space.AllocExtent` its ENOSPC is conclusive for every size.

## Model

| member | source | states |
|---|---|---|
| `Layout.LookupBlockGroup` | extent-tree.c:206-228 | finds the block group of a sector, and fails only for a sector outside every group |
| `Layout.SuperOffsetBytes` | disk-io.h:37-43 | the first super block is at 64K, and mirror m > 0 at 16K times 4096 to the power m |
| `Layout.IntersectWithSuper` | btrfs-convert.c:203-217 | true exactly when some sector of the range lies in the 64K stripe of a super block mirror |
| `Tiling.BlkIterate.Proc` | btrfs-convert.c:416-470 | one callback of a block iteration: the recorded extents and the pending run still tile what was seen and send each block to its disk block |
| `Tiling.BlkIterate.Finish` | btrfs-convert.c:535-548 | the closing flush leaves no gap up to the end of the file |
| `Tiling.CreateFileExtents` | btrfs-convert.c:484-556 | for every increasing sequence of callbacks the extents tile the file without gap or overlap, send each block to its disk block and holes to 0, never cross a block group end or a super block stripe edge, and record super block sectors singly |
| `Tiling.CreateImageFileRange` | btrfs-convert.c:1102-1152 | the same for a stretch of the image file, where each used block maps to itself and each unused one is a hole |
| `Tiling.RecordsReadBack` | btrfs-convert.c:384-414 | reading a recorded file back: a block is found at a disk block exactly when the callbacks put it there |
| `Tiling.SuperBoundary` | btrfs-convert.c:452-463 | from a sector in a super block stripe the next one is in the stripe too, or the rounded-up boundary has been reached |
| `Allocator.Space.constructor` | btrfs-convert.c:117-147 | the free map is exactly the blocks ext2 does not use, without the super block stripes and the first 64K |
| `Allocator.Space.FindFirstDirty` | btrfs-convert.c:158-168 | returns the first free run at or after the position, maximal at its end |
| `Allocator.Space.AllocExtent` | btrfs-convert.c:150-201 | a returned range is free, unpinned and inside one non-SYSTEM block group, and is taken off the free map; the search ends after at most one wrap; failure means that nothing fits when requests are single sectors or nothing free is pinned |
| `RefTree.ReservedWhole` | btrfs-convert.c:1124-1147 | an extent that has one sector in a SYSTEM group or super block stripe lies in it as a whole |
| `RefTree.ReplaceAt` | btrfs-convert.c:1854-1901 | after an item has been replaced by pieces, its blocks are read from their new sectors and every other block from where it was |
| `RefTree.ReplaceWellFormed` | btrfs-convert.c:1854-1901 | the replacement keeps file items apart, in bounds, within one group, and shared reserved extents whole |
| `View.SameViewTrans` | btrfs-convert.c:2076-2108 | contents and sharing read through the file trees are preserved across successive relocations |
| `View.TracksDone` | btrfs-convert.c:2041-2066 | when no old sector of the range is referenced any more, both trees read the same contents as before, and two blocks share a sector after exactly if they did before |
| `Relocation.FitsWritable` | btrfs-convert.c:1016-1038 | an allocated sector belongs neither to ext2 nor to any live extent or tree block, and is not reserved |
| `Relocation.StaysClean` | btrfs-convert.c:2076-2108 | a region already cleaned is not refilled by cleaning another one |
| `Relocation.AllClean` | btrfs-convert.c:2076-2108 | when all SYSTEM groups and super block stripes are clean, no live extent has a reserved sector |
| `Relocation.ReplaceMoves` | btrfs-convert.c:1854-1901 | one relocated item reads every block from the copy of its old sector |
| `Relocation.NoStraddle` | btrfs-convert.c:1949-1966 | an extent that touches a region to be cleaned does not begin before it |
| `Relocation.MovedKept` | btrfs-convert.c:1854-1901 | a move puts no item on reserved sectors |
| `Relocation.MovedAway` | btrfs-convert.c:1968-2062 | the pass leaves no item of its tree behind it |
| `Relocation.BothGone` | btrfs-convert.c:2063-2066 | after a pass for each tree the range is empty |
| `Accounting.BookStart` | btrfs-convert.c:117-147 | when the conversion starts, every sector that may be written is free or holds a tree block |
| `Accounting.NothingFree` | btrfs-convert.c:150-201 | when nothing can be handed out, every sector that may be written holds a tree block, held one since the last commit, or holds a copy |
| `Accounting.FullMeansCrowded` | btrfs-convert.c:150-201 | then the sectors that may be written are no more than the tree blocks, the first 64K with the super block, and ext2's own sectors that have to move |
| `Accounting.CopyCounted` | btrfs-convert.c:1856-1880 | a copy is paid for by a reserved sector that had none |
| `Accounting.ImageLeft` | btrfs-convert.c:1154-1295 | what has to move after image creation is ext2's own |
| `Image.ImageOnePerTree` | btrfs-convert.c:1154-1295 | the image and the files each refer to an extent on reserved sectors at most once |
| `Rollback.FilesStillRead` | btrfs-convert.c:2295-2324 | image creation, clean-up and the move of the super block leave every file block readable with its content |
| `Convert.Converter.constructor` | btrfs-convert.c:2236-2293 | the state after the inodes were copied, with the tree blocks written by then: free sectors, ext2 sectors and tree blocks are apart, nothing free is pinned, and no sector that may be written is missing from the books |
| `Convert.Converter.AllocAndWrite` | btrfs-convert.c:1016-1038 | a copy or a tree block lands on a sector that was spare, and nothing else changes; when there is none, the device is full of tree blocks and copies |
| `Convert.Converter.DropReference` | extent-tree.c:2353-2395 | the last reference to an extent pins it, except in super block stripes |
| `Convert.Converter.Commit` | extent-tree.c:2021-2041 | a commit turns exactly the pinned sectors into free ones and keeps the relocation invariant |
| `Convert.Converter.WriteTrees` | btrfs-convert.c:2046-2056 | any number of tree blocks copied, freed and committed between two relocations, within the budget, keeps the relocation invariant, the books and ext2's sectors; it stops early only when the device is full |
| `Convert.Converter.RelocateSector` | btrfs-convert.c:1856-1880 | each old sector has one copy: found again if it exists, otherwise allocated and written |
| `Convert.Converter.CopyRun` | btrfs-convert.c:1854-1893 | copies a run sector by sector; the recorded extents send each block to the copy of its old sector, only spare sectors are written, and each old sector is copied once |
| `Convert.Converter.RelocateOneReference` | btrfs-convert.c:1770-1908 | success, a different extent under the key, or no space; in every case ext2's sectors are intact, and on success the item reads its copies |
| `Convert.Converter.PassItem` | btrfs-convert.c:1968-2062 | one extent of a pass, whatever the relocation of its reference returns, keeps the invariant and moves the cursor on |
| `Convert.Converter.RelocatePass` | btrfs-convert.c:1968-2062 | one pass over the range keeps the relocation invariant, moves away every extent that its tree refers to once, and says whether it met any |
| `Convert.Converter.RelocateExtentsRange` | btrfs-convert.c:1921-2066 | success leaves the range without live extents, both trees with the same contents and sharing, and no reserved sector newly occupied; when each tree refers to an extent once, the limit of 17 passes is never reached, and failure means that tree blocks and copies fill every sector that may be written |
| `Convert.Converter.CleanupSysChunk` | btrfs-convert.c:2076-2108 | ext2's sectors stay intact and the books balanced whatever happens; success leaves no live extent in any SYSTEM group or super block stripe and both trees with the same contents and sharing; failure means that tree blocks and copies fill every sector that may be written |
| `Image.AddCopy` | btrfs-convert.c:1199-1216 | a sector of the first 64K or the super block goes into the image as a copy of its own |
| `Image.AddDirect` | btrfs-convert.c:1272-1277 | an extent of a file is shared by the image as a whole |
| `Image.AddRange` | btrfs-convert.c:1265-1294 | the stretch between two file extents is covered by direct mappings and holes |
| `Convert.Converter.GrowTrees` | btrfs-convert.c:1154-1295 | tree blocks written while the image is built disturb neither ext2's sectors nor what the image reads so far |
| `Image.ImageComplete` | btrfs-convert.c:1154-1295 | a finished image covers the device, and each of its sectors shows what ext2 had there |
| `Convert.Converter.CreateExt2Image` | btrfs-convert.c:1154-1295 | with tree blocks written at any point, success leaves the file trees alone and an image in which every used sector and the first 64K can be read; ext2's sectors are intact and the books balanced in any case, and failure means that tree blocks and copies fill every sector that may be written |
| `Rollback.CleanupConverted` | btrfs-convert.c:2310-2335 | image creation followed by clean-up gives the state that rollback expects |
| `Rollback.MigrateSuper` | btrfs-convert.c:1651-1700 | the btrfs super block is at 64K, everything below is zero, everything above is unchanged |
| `Rollback.MigrateConverted` | btrfs-convert.c:1651-1700 | moving the super block does not disturb what the image is read from |
| `Rollback.Device.BuildMapping` | btrfs-convert.c:2485-2540 | the mapping holds exactly the image blocks that are stored elsewhere, in order and in bounds; an intact image is accepted |
| `Rollback.Device.CopyAllBack` | btrfs-convert.c:2612-2650 | every mapped block except the super block gets its backup; the place of the super block's backup is found |
| `Rollback.Device.ZeroMirrors` | btrfs-convert.c:2603-2611 | the mirrors of the super block beyond the first are zeroed, and no other sector outside their stripes changes |
| `Rollback.Device.ConvertedApart` | btrfs-convert.c:2485-2545 | no copy source is ever a copy destination |
| `Rollback.Device.BlockRestored` | btrfs-convert.c:2603-2668 | one ext2 block followed through all writes of a rollback ends with its old content |
| `Rollback.Device.Rollback` | btrfs-convert.c:2382-2680 | a refused rollback writes nothing; an accepted one writes the sector at 64K last and once; from a converted state it is accepted and every used sector is restored |
| `Rollback.MigrateAndRollBack` | btrfs-convert.c:2382-2680 | from a converted state: the super block is put in place, later writes avoid the image, and the rollback restores every ext2-used sector |
| `Rollback.ConvertThenRollback` | btrfs-convert.c:2202-2341 | for any file tree as copy_inodes leaves it, any tree blocks so far and any number of further ones: a successful conversion has its super block at 64K and reads every file block as ext2 had it, and the rollback succeeds and restores every ext2-used sector; a conversion that fails has not changed any of them, and the writable sectors are no more than tree blocks and copies |
| `CopyFiles.CopyInode` | btrfs-convert.c:963-1014 | the extents of one inode stay in its group and stripe limits, lie on its own blocks only, and read back as its callbacks |
| `CopyFiles.CopyInodes` | btrfs-convert.c:1042-1098 | for every set of inodes whose data blocks are ext2's and unshared, the extents form the file tree that conversion starts from, and a file block is read from a sector exactly when a callback of its inode put it there |
| `CopyFiles.ConvertExt2AndBack` | btrfs-convert.c:2202-2341 | from the callbacks of all inodes to the rolled back device: after a conversion every file block reads as ext2 had it, and after the rollback every ext2-used sector holds its old content; the conversion succeeds when the sectors it may write outnumber the tree blocks, the first 64K with the super block, and ext2's own sectors that have to move |
| `InodeMerge.WalkEnd` | cmds-check.c:1142-1177 | after an extent, the end of a walk depends only on the items after it |
| `InodeMerge.WalkSums` | cmds-check.c:1120-1177 | over any list of items, the size of a walk is the sum of the name lengths and of the charged bytes of the extents, holes not counted, and its links are the DIR_ITEMs |
| `InodeMerge.SpliceAgrees` | cmds-check.c:588-662 | merging the record of a later stretch of items agrees with walking on over those items |
| `InodeMerge.SharedWalkAgrees` | cmds-check.c:664-731 | for every split of an inode's items into pieces and every bracketing of the merges, links, size, first offset and overlap equal a plain walk, and without overlap so do end and first gap |
| `InodeMerge.SpliceIntoNew` | cmds-check.c:345-398 | splicing into a cache without a record is splicing into a new record |
| `InodeMerge.OverlapForgetsEnd` | cmds-check.c:1142-1177 | two overlapping extents whose merged end is 100 and whose walked end is 15 |
| `InodeEnds.WalkSplit` | cmds-check.c:1142-1177 | how the walk over all items depends on the walks over a front part and the rest, overlapping or not |
| `InodeEnds.EndBounds` | cmds-check.c:588-662 | whatever the splits and the bracketing, the end is at least the walked end and at most the greatest end of an extent |
| `InodeEnds.EndExact` | cmds-check.c:630-643 | every splitting gives the walked extent_end if and only if no extent ends after the last one does |
| `InodeEnds.GapBounds` | cmds-check.c:588-662 | no splitting finds a gap before the walked one, and a gap that no earlier extent covers is found |
| `InodeEnds.WalkHole` | cmds-check.c:1153-1160 | the gap that a walk finds is the first hole between neighbouring extents |
| `InodeEnds.GapExact` | cmds-check.c:610-643 | every splitting gives the walked first_extent_gap if and only if no extent before the first hole between neighbouring extents reaches into it |
| `InodeEnds.GapHidden` | cmds-check.c:610-643 | three extents whose walked gap is 15 and whose merged record has none |
| `InodeEnds.OverlapExact` | cmds-check.c:1153-1160 | a walk reports an overlap exactly when some extent ends after the next one starts |
| `InodeEnds.NoOverlapSame` | cmds-check.c:588-731 | when no extent ends after the next one starts, every splitting gives the record of the plain walk in all fields |
| `InodeMerge.InodeRecord.AddBackref` | cmds-check.c:538-586 | one link for every DIR_ITEM and none for other items; the back references are those that `NotedExact` speaks of |
| `InodeMerge.NotedExact` | cmds-check.c:538-586 | over any items about one name: it ends without error if and only if no item came with one and no two clash (two of one kind, sequence numbers or file types that differ); it has been seen from exactly the sides the items show, and without error it has their sequence number and file type |
| `InodeNames.ReplayedItems` | cmds-check.c:588-617 | merging replays, for one back reference of the source, at most one item of each kind into the back reference of that name, found or made, and no other changes |
| `InodeNames.SplicedName` | cmds-check.c:588-617 | that is enough: for any items seen by the source and by the destination, the merged name has an error if and only if all items together clash, and has been seen from the sides that either has |
| `InodeMerge.PrunedMember` | cmds-check.c:408-427 | pruning loses exactly the names seen from all three sides without error |
| `InodeMerge.InodeRecord.ProcessFileExtent` | cmds-check.c:1120-1177 | one extent item adds to the accumulators as the specification says |
| `InodeMerge.InodeRecord.MergeFrom` | cmds-check.c:588-662 | merging adds both accumulators, replays the back references, keeps the first inode item and reports a second one, and joins all flags; the difference of links to add never goes below zero |
| `CowRecords.Fsck.GetInodeRec` | cmds-check.c:345-386 | a record to write to has one reference, and no cache shows any change |
| `CowRecords.Fsck.Change` | cmds-check.c:345-386 | a change through one cache is seen through that cache and through no other |
| `CowRecords.Fsck.MaybeFree` | cmds-check.c:408-462 | a complete, checked record leaves its cache and its memory is released; nobody else notices |
| `CowRecords.Fsck.FreeInodeRec` | cmds-check.c:388-401 | dropping a reference changes nothing that any cache shows and frees a record only without users |
| `CowRecords.Fsck.SpliceOne` | cmds-check.c:684-714 | by move or by copy, the destination shows the record or the merge; the merge source is never the record merged into |
| `CowRecords.Fsck.SpliceSharedNode` | cmds-check.c:664-722 | both caches of the destination show the joined records, the source is emptied or unchanged, and every other node is unchanged |
| `CowRecords.CloneOk` | cmds-check.c:260-279 | replacing a shared record by a private copy keeps every count equal to its number of users and every view |
| `CowRecords.WriteOk` | cmds-check.c:356-364 | a write to a record with one reference shows in exactly one cache |
| `CowRecords.RemoveOk` | cmds-check.c:454-461 | removing the only user's record leaves no dangling pointer and all counts right |
| `CowRecords.FreeOk` | cmds-check.c:388-401 | giving up the reference of a node in transit keeps every count equal to its users |
| `CowRecords.Run` | cmds-check.c:664-722 | over any sequence of changes and splices the counted, shared records read like private copies |
| `ExtentRefs.AllBackpointersChecked` | cmds-check.c:2028-2140 | accepts a record exactly when every back reference was seen from both sides with matching counts and they add up to the references |
| `ExtentRefs.Checker.MaybeFree` | cmds-check.c:2173-2185 | a record is dropped early exactly when it is complete, consistent and free of duplicates, and the books stay balanced |
| `ExtentRefs.Checker.AddExtentRec` | cmds-check.c:2448-2575 | a new record, or the old one with the item or reference taken in and then dropped if nothing more is expected of it; no other record changes, and the ledger stays balanced |
| `ExtentRefs.Checker.AddTreeBackref` | cmds-check.c:2577-2622 | the first back reference of that parent or root, or an appended one, is marked from the right side; nothing else changes |
| `ExtentRefs.Checker.AddDataBackref` | cmds-check.c:2624-2700 | the first matching back reference, or an appended one, takes the count of an item or one more finding; a found reference counts once, a reference item not at all; what may match is settled by `ExtentSound.CheckEvents` |
| `ExtentRefs.Checker.CheckBlock` | cmds-check.c:2286-2335 | a checked tree block marks its record and drops it when it is finished |
| `ExtentRefs.Checker.CheckExtentRefs` | cmds-check.c:5105-5166 | reports no error exactly when every live record is clean, and then all extents balance |
| `ExtentRefs.Run` | cmds-check.c:2448-2700 | whatever the order of events and however often records are dropped and made again, no error means that each extent's items count exactly the references delivered for it; there is no error exactly when every record still there is clean |
| `ExtentRefs.SingleItem` | cmds-check.c:2448-2575 | with one extent item per extent the total is that item's count |
| `ExtentHistory.FinishedAll` | cmds-check.c:2173-2185 | a record that is dropped early has heard everything about its extent: no event for it is still to come |
| `ExtentHistory.FoldStands` | cmds-check.c:2448-2700 | after any number of events the record of an extent tells exactly what was delivered, or nothing was delivered yet, or nothing more will be |
| `ExtentHistory.AllClean` | cmds-check.c:5105-5166 | at the end a record whose events fit together has nothing to report |
| `ExtentHistory.ConsistentSettled` | cmds-check.c:2448-2700 | events that fit together, in whatever order they come, leave nothing to report |
| `ExtentSound.DatasKnownNoted` | cmds-check.c:2384-2423 | whatever the events, only the first data back reference of a key is marked by reference items, and one that is alone with its key has counted all its file references, all of one size |
| `ExtentSound.CleanAgrees` | cmds-check.c:2028-2140 | a clean record means that pointers and tree references, and file references and counted data references, match one to one, with the sizes of the item |
| `ExtentSound.FoldStanding` | cmds-check.c:2448-2700 | after any number of events, with one extent item, the record knows what was delivered, or nothing but checks was, or it was dropped in agreement, or an event came too late and the record can never be clean again |
| `ExtentSound.SettledAgrees` | cmds-check.c:5105-5166 | one extent item and nothing to report: the events of the extent agree, seen from both sides |
| `ExtentSound.SettledSilent` | cmds-check.c:5105-5166 | no extent item and nothing to report: nothing refers to the extent and nothing is said about it |
| `ExtentSound.CheckEvents` | cmds-check.c:2384-5166 | the whole check, both ways: events that fit together are accepted in any order; no error means, for every extent, that the items count the references; with one extent item, that each pointer has its reference item and the other way round, that each data key's count is the number of its file references, that these have the item's size, and that the owner was looked at; without one, that nothing refers to the extent |
| `SpaceCache.CheckExact` | cmds-check.c:3180-3272 | a range check succeeds exactly when the cache has an entry for every stretch between super block stripes, and takes out exactly those; it never reaches an empty range |
| `SpaceCache.CheckFails` | cmds-check.c:3180-3272 | a range check that fails stops at the first stretch without its entry, having taken out exactly the entries of the stretches before |
| `SpaceCache.FreeSpace.CheckCacheRange` | cmds-check.c:3180-3272 | the recursive method computes that check and ends |
| `SpaceCache.FreeSpace.VerifySpaceCache` | cmds-check.c:3274-3355 | the verdict over a block group is good if and only if the entries are exactly the free stretches outside the stripes and the extents that count: all of the group, or those before one whose failed gap is forgotten |
| `SpaceCache.ScanAccounts` | cmds-check.c:3299-3337 | when no gap fails, the entries taken out are exactly the free bytes before the last extent's end |
| `SpaceCache.VerifyExact` | cmds-check.c:3274-3355 | after a good verdict the entries cover exactly the free bytes outside stripes if and only if no entry runs across the start of an extent |
| `SpaceCache.VerdictFrom` | cmds-check.c:3274-3355 | for any entries and sorted extents, the verdict in terms of entries and extents alone, both ways |
| `SpaceCache.ExactAccepted` | cmds-check.c:3274-3355 | entries that cover exactly the free bytes outside stripes, none of them adjoining another, get a good verdict |
| `SpaceCache.VerifyFooled` | cmds-check.c:3274-3355 | a wrong cache that gets a good verdict |
| `RootRecs.CountsReachable` | cmds-check.c:1656-1677 | the count grows exactly when the backref becomes reachable, or for a repeated DIR_ITEM |
| `RootRecs.NoteMarked` | cmds-check.c:1644-1673 | after any events for a place, its backref has the marks of what was delivered, and has no error if and only if no event came with one, there is no second ROOT_REF or ROOT_BACKREF, and all sequence numbers agree |
| `RootRecs.ReachableBoth` | cmds-check.c:1675-1677 | the reachable backrefs of a root are the places delivered both as a DIR_ITEM and as a ROOT_REF |
| `RootRefs.RootCache.AddRootBackref` | cmds-check.c:1633-1679 | the one backref of that place, found or made, notes the event; the count grows by one exactly when the code counts, and no other root changes; the records tell what was delivered |
| `RootPrune.VisitCounted` | cmds-check.c:1756-1769 | visiting a root whose count is at least its reachable backrefs drops exactly those from dead roots and lowers the count by as many, never below zero |
| `RootPrune.VisitFsCount` | cmds-check.c:1740-1769 | the counter of FS_TREE after n lost backrefs is 1 - n modulo 2^32 |
| `RootPrune.VisitKeeps` | cmds-check.c:1756-1769 | a visit of any root keeps everything that is true while pruning |
| `RootPrune.FsVerdict` | cmds-check.c:1740-1771 | FS_TREE is left when all that refer to it belong to closed sets; when one place does not, it is lost unless a reference of its own comes behind that place; two places from roots that nothing refers to leave it |
| `RootRefs.RootCache.PruneRecord` | cmds-check.c:1756-1769 | the inner loop computes the visit, with its lookups and its 32-bit counter |
| `RootRefs.RootCache.PruneRoots` | cmds-check.c:1728-1771 | from any records: the loop ends with the greatest set of roots in which each is FS_TREE, has a late DIR_ITEM, or is referred to from the set, or with the greatest such set without FS_TREE, in any visiting order; it decides FS_TREE as `FsVerdict` says; all other counts match, and a backref stays reachable exactly when the root it lies in is left |
| `RootPrune.SurvivorsClosed` | cmds-check.c:1740-1771 | a pass without change leaves a closed set |
| `RootRefs.Run` | cmds-check.c:1633-1771 | over any list of events: found_ref is the number of places that refer to a root from both sides plus its late DIR_ITEMs, equal to that number for all roots if and only if no DIR_ITEM is late; the roots left after pruning are the greatest set closed over the delivered references, or without FS_TREE the greatest such set that lacks it; when at most one place refers to FS_TREE from outside every closed set, and none from FS_TREE, FS_TREE is left if and only if there is no such place; two places from roots that nothing refers to leave it |
| `RootRefs.LateDirItem` | cmds-check.c:1656-1659 | ROOT_REF, DIR_ITEM, DIR_ITEM counts one place twice and keeps an unreferenced root alive; the same events with the ROOT_REF last count it once |
| `RootRefs.FsTreeLost` | cmds-check.c:1740-1769 | the check of ROOT_REF and DIR_ITEM for FS_TREE in a root that nothing refers to ends without any root |
| `RootRefs.FsTreeRevived` | cmds-check.c:1740-1769 | with two such roots the counter goes from 1 over 0 to 2^32 - 1, and the check ends with FS_TREE |
| `RootReport.ReportRoot` | cmds-check.c:1773-1817 | a root adds an error exactly when it is an unreferenced tree that is no orphan, is referenced without a root item, or has a reachable backref with an error or without one of its four marks |
| `RootReport.UnresolvedBroken` | cmds-check.c:1803-1814 | the unresolved backrefs at the end are the places, in roots that are left, which refer to the root from both sides but were not delivered from all four sides in agreement |
| `RootReport.CheckRootRefs` | cmds-check.c:1633-1835 | events, pruning and report together: the check returns 0 exactly when it reports no root, and reports a root if and only if, in terms of the events and the roots left, it is unreferenced, lacks its root item, or is referred to from a broken place (FS_TREE: when no place refers to it from outside every closed set); the roots left are the greatest closed set as in `RootRefs.Run` |
| `ChunkCheck.CheckChunkRefs` | cmds-check.c:5204-5306 | accepts a chunk exactly when its block group and a device extent for every stripe exist, equal in all compared fields, and claims exactly those |
| `ChunkCheck.StripesHold` | cmds-check.c:5182-5202 | for every profile the stripes that do not hold parity, at the computed length, hold all copies of the chunk, rounded down to whole rows |
| `ChunkCheck.CheckChunks` | cmds-check.c:5309-5362 | 0 exactly when chunks, block groups and device extents fit together with nothing left over |
| `ChunkCheck.CheckDeviceUsed` | cmds-check.c:5365-5394 | accepts a device exactly when its extents add up to the bytes it records as used |
| `ChunkCheck.CheckDevices` | cmds-check.c:5397-5424 | 0 exactly when every device adds up and every device extent has a device |
| `ChunkCheck.SameMembers` | cmds-check.c:5309-5394 | a list with the members of a duplicate-free list totals at least as much, and the same exactly when it has no duplicate |
| `ChunkCheck.TotalsAgree` | cmds-check.c:5182-5424 | when both checks return 0, the used bytes of all devices equal the stripes times their length over all chunks exactly when no chunk repeats a stripe |
| `ChunkCheck.RepeatedStripe` | cmds-check.c:5204-5424 | a chunk with the same stripe twice that passes both checks with 8 bytes used for 16 occupied |
| `Bytes.NumLE` | btrfs-image.c:624-636 | a little-endian number reads back when it fits its width |
| `ImageFile.Put` | btrfs-image.c:761-768 | stores a number into the index block and touches nothing else |
| `ImageFile.Metadump.MetaClusterInit` | btrfs-image.c:624-636 | the index block carries the magic number, its own offset and the packing |
| `ImageFile.Metadump.FillIndex` | btrfs-image.c:761-768 | the index block lists exactly the queued items, whatever was in it before |
| `ImageFile.Metadump.WriteBuffers` | btrfs-image.c:737-813 | the queue becomes one cluster of at most 83 items, padded to a block, at its recorded offset; an empty queue writes nothing |
| `ImageFile.Metadump.FlushPending` | btrfs-image.c:869-949 | everything asked for so far is recorded in the same order; after the last flush nothing is outstanding |
| `ImageFile.Metadump.AddExtent` | btrfs-image.c:951-968 | a range is recorded after all earlier ones, merged or not |
| `ImageFile.ImageMore` | btrfs-image.c:737-813 | appending a cluster at the current offset keeps the file an image, with 64-bit offsets |
| `ImageFile.AddCluster` | btrfs-image.c:1836-1904 | whatever items a well-formed cluster holds are what the reader gets, and it stops at the next cluster |
| `ImageFile.Restore` | btrfs-image.c:2306-2330 | every image file is accepted and yields the items of its clusters in order |
| `ImageFile.DumpAndRestore` | btrfs-image.c:1249-1330 | for every sequence of ranges, writing and reading back gives exactly the bytes of the ranges, each at its address, in order |
| `DumpWorkers.ReadyMeansQuiet` | btrfs-image.c:750-759 | when num_ready reaches num_items no worker holds or awaits an item |
| `DumpWorkers.StepInv` | btrfs-image.c:581-622 | every step of every thread keeps the invariant |
| `DumpWorkers.RunInv` | btrfs-image.c:581-622 | so does every run |
| `DumpWorkers.AnyInterleaving` | btrfs-image.c:581-949 | for any number of threads and any interleaving no freed buffer is used, num_ready counts exactly the finished items, clusters are written only while no worker has an item, no late count reaches the next cluster, and the file is the one a single thread writes |
| `DumpWorkers.SameFile` | btrfs-image.c:581-949 | two complete dumps of the same items leave the same file |
| `DumpWorkers.WorkShrinks` | btrfs-image.c:587-618 | each step of a worker, waking aside, uses up work |
| `DumpWorkers.NeverStuck` | btrfs-image.c:581-757 | no deadlock and no lost wake-up while the main thread waits, and none at the end |
| `LeafSurgery.Memmove` | btrfs-image.c:1467-1469 | the overlapping move puts the old bytes in their new place and changes nothing else |
| `LeafSurgery.ShiftedContiguous` | btrfs-image.c:1460-1471 | the shifted offsets and the shrunk size still describe a contiguous leaf |
| `LeafSurgery.MovedItems` | btrfs-image.c:1440-1472 | after the move every other item has its bytes and the truncated one its prefix |
| `LeafSurgery.Leaf.TruncateItem` | btrfs-image.c:1440-1472 | on every well-formed leaf the item becomes its prefix and nothing else changes |
| `LeafSurgery.FixedChunk` | btrfs-image.c:1519-1535 | a rewritten chunk has one stripe on the target device and no profile bits, and keeps all its other fields |
| `LeafSurgery.FixedItem` | btrfs-image.c:1507-1537 | the same for an item of any kind: a chunk is cut to one stripe and rewritten, anything else is left |
| `LeafSurgery.FixTwice` | btrfs-image.c:1507-1537 | rewriting a second time changes nothing |
| `LeafSurgery.Leaf.Fixup` | btrfs-image.c:1507-1537 | all keys and all items that are not chunks stay; every chunk item then reads as a chunk of one stripe on the target device without profile bits, with its other fields as they were |
| `NewestWins.Cache.Process` | chunk-recover.c:215-269 | a scanned record replaces the older ones it overlaps, yields to a newer one, and an error means a different record of equal generation |
| `NewestWins.Scan` | chunk-recover.c:97-359 | after any error-free scan in any order the cache is disjoint, has every record newer than all it overlaps, and lacks only records that a newer one overlaps |
| `StripeOrder.StripeIndex` | chunk-recover.c:1394-1422 | the index is the slot of the block in a layout laid out row by row (next slot in the row, each RAID5 and RAID6 row turned by one against the last), leaves room for all mirrors, and is even for RAID10 |
| `StripeOrder.SlotHere` | chunk-recover.c:1394-1422 | the slot of stripe number n in that layout, profile by profile |
| `StripeOrder.RowLeavesOut` | chunk-recover.c:1407-1416 | a row of RAID5 or RAID6 covers every slot but the one or two in front of its first |
| `StripeOrder.NextStripe` | chunk-recover.c:1424-1434 | the next boundary is after the block and at most one stripe away |
| `StripeOrder.PlaceBlock` | chunk-recover.c:1479-1493 | one round: exactly the unassigned extents with a copy of the block take the slots from its index on, in list order |
| `StripeOrder.RoundKeeps` | chunk-recover.c:1479-1493 | a round keeps extents and unset slots equal in number, shares every extent once, and puts each only where a found block shows it belongs |
| `StripeOrder.ScanBlocks` | chunk-recover.c:1469-1501 | the scan ends; its result is that of the rounds over the blocks it visited, each of which a lookup may return |
| `StripeOrder.FillRest` | chunk-recover.c:1514-1537 | filling gives the remaining extents to the unset stripes in list order and is a bijection, or a device is missing |
| `StripeOrder.RebuildOrderedStripes` | chunk-recover.c:1453-1539 | success gives exactly the rounds over the visited blocks followed by the filling, a bijection between stripes and device extents; for RAID5 and RAID6 each stripe holds a block found on it, and failure with found blocks means that an extent stayed unassigned; otherwise failure means that a device is missing |
| `StripeOrder.BijectionCovers` | chunk-recover.c:1453-1539 | then every device extent is some stripe |
| `StripeTruth.ScannedRight` | chunk-recover.c:1479-1493 | against the true layout, every stripe that the scan decided is the true one, up to the order of mirrors of a RAID10 row, and the filling does not change it |
| `StripeTruth.ParityTrue` | chunk-recover.c:1506-1511 | a rebuilt RAID5 or RAID6 chunk is the true layout, where truth is stated by the row-by-row layout |
| `StripeTruth.ParityMissing` | chunk-recover.c:1506-1511 | an extent that stays unassigned in a RAID5 or RAID6 chunk holds none of the blocks that the lookups returned |
| `StripeTruth.RestExact` | chunk-recover.c:1513-1537 | the filling puts no found block on a wrong stripe, whatever the order of the list, if and only if each unassigned extent with a found block has no wrong stripe left |
| `StripeTruth.Raid0Exact` | chunk-recover.c:1453-1539 | a RAID0 chunk shows every found block on its stripe, for every list order and every block that lookups may return, if and only if it has at most two stripes or all found blocks lie in one stripe |
| `StripeTruth.WrongStripe` | chunk-recover.c:1469-1501 | three RAID0 stripes and two found blocks of which the first ends on a stripe that does not hold it |
| `StripePairs.Raid10Exact` | chunk-recover.c:1453-1539 | a RAID10 chunk shows every found copy in its pair, for every list order and every block that lookups may return, if and only if it has one pair and no other stripe, or all found blocks were found on the same extents, or it has two pairs and every block in the pair of the last one was found on both extents |
| `StripePairs.WrongPair` | chunk-recover.c:1469-1501 | two pairs, each with a block found on one extent, of which some list order shows a copy in the wrong pair |
| `DirIndex.EncodeFields` | dir-item.c:126-149 | each field of a packed entry reads back |
| `DirIndex.MatchDirItemName` | dir-item.c:222-251 | walking the packed entries finds the first one of that name, or none if there is none |
| `DirIndex.DirTree.InsertWithOverflow` | dir-item.c:28-60 | room is made at the end of the bucket exactly when the bucket lacks the name |
| `DirIndex.DirTree.InsertDirItem` | dir-item.c:112-182 | fails exactly when the directory has the name, and then changes nothing; otherwise the name maps to its location, and outside the tree root so does its index, each in an item of its own; no other name, index or item changes, and every item keeps its old bytes |
| `DirIndex.DirTree.InsertXattrItem` | dir-item.c:62-110 | the same for extended attributes, which share the packing and leave the index alone |
| `DirIndex.DirTree.LookupDirItem` | dir-item.c:184-220 | returns the location of the insertion that succeeded, or nothing |
| `DirIndex.DirTree.LookupDirIndex` | dir-item.c:150-173 | reading the item of an index gives the location that the insertion with that index put there, or nothing |
| `DirIndex.Replay` | dir-item.c:112-251 | any history of insertions and of lookups by name or by index, under any hash function, answers as two maps would |

## Left out

- Conversion works in whole sectors: ext2 block size, btrfs sector size and tree block size are one unit, so packing of small files into inline extents, compression and partial sectors do not occur.
- Device input and output cannot fail in the model, and memory never runs out; insertion into a b-tree fails only where the code tests for it.
- Trees are maps from keys to items and interval caches are sets of disjoint intervals; b-tree nodes, transactions, red-black trees and volume mapping are not part of this model.
- `Convert.Converter.WriteTrees`: the metadata written during conversion is any number of tree-block copies, frees and commits between the steps, with arbitrary contents, on sectors that are neither ext2's nor reserved; how many blocks are written in all is bounded by a parameter instead of being derived from the trees, which tree a block belongs to is not followed, nor are the blocks of the chunk tree in SYSTEM groups.
- `CopyFiles.CopyInodes`: data blocks only; directories, extended attributes and the fields of inode items are left out, and it is a precondition that no data block of ext2 belongs to two places.
- `Tiling.CreateFileExtents`: the packing of a small file into an inline extent is left out, because the unit of the model is a whole sector.
- `Rollback.Device.Rollback`: the check that SYSTEM groups are otherwise empty and the rewriting of the chunk tree before the copying are left out; they write only outside the sectors of the image, as other writes between conversion and rollback may.
- `Rollback.ConvertThenRollback`: nothing mounts and changes the file system in between, except writes that avoid the sectors of the image; the flags of the image inode and the final re-reading of the trees during rollback are not followed.
- `InodeMerge.SharedWalkAgrees`: checksum and orphan flags and the inode item are left out of whole walks, as they are plain unions and the first item met; the inode FREE_INO starts with one link and is excluded.
- `CowRecords.Fsck.SpliceSharedNode`: does not follow the inode a node is currently working on, nor the walk that decides which nodes are spliced.  Memory is explicit there (a map from pointers to records) so that sharing and freeing can be stated.
- `ExtentRefs.Run`: records are found by the start of the extent, since ranges of different extents do not overlap; duplicate records are counted and never resolved, because repair is not part of this model.
- `ExtentHistory.ConsistentSettled`: a block is checked after its extent was first mentioned, as the walk does; an extent is mentioned as a tree block or as data, not both.
- `ExtentSound.CheckEvents`: an extent at 0 and an item of size 1 are excluded from the second half, because the code takes 0 and 1 for "not known yet"; of several reference items of one data key the last one counts, and the sizes of file references under a shared parent are not compared, as in the code.
- `InodeMerge.NotedExact`: speaks of one name as long as the inode item has not been met; from then on a resolved name is dropped from the list, which `InodeMerge.PrunedMember` states.
- `RootReport.CheckRootRefs`: FS_TREE's own verdict is left open when a place refers to it from outside every closed set, because its counter then no longer says what refers to it; the printed details are left out.
- `RootRefs.RootCache.PruneRoots`: cycles among roots count as referenced, as in the code.
- `RootRefs.Run`: when several places refer to FS_TREE from outside every closed set and fewer than two of them are in roots that nothing refers to, nothing is said about whether FS_TREE is left, because that depends on how many such references one visit meets.  Counting up is not bounded to 32 bits.
- `SpaceCache.FreeSpace.VerifySpaceCache`: bitmaps are taken as already turned into entries, and extents are sorted and disjoint.
- `ChunkCheck.CheckChunks`: the lists of good and bad chunks are not returned.
- `ImageFile.AddCluster`: an index that claims more entries than its block can hold is an error here; the code would read beyond the block.
- `ImageFile.DumpAndRestore`: compression is any function with a left inverse; the contents of a byte depend on its address and on whether it is data, so zeroing and renaming inside tree blocks happens before the model's view; the first scan for the chunk tree and the restoring threads are not followed.
- `DumpWorkers.AnyInterleaving`: a failed compression or write is not modelled.
- `LeafSurgery.Leaf.Fixup`: one leaf; the loop over the leaves of a buffer and the checksum are left out.  The item table is kept beside the data instead of in front of it, which is sound because the data of a well-formed leaf starts behind the table.
- `NewestWins.Cache.Process`: lists of mirrors and the limit on their number are left out.
- `StripeOrder.RebuildOrderedStripes`: device uuids are left out; that no tree block crosses a stripe, that a block has at most one copy per sub-stripe and that device extents are disjoint are preconditions, and for `StripePairs.Raid10Exact` that found blocks are not empty.  The shape of the red-black tree is left out: a lookup may return any overlapping block.
- `DirIndex.DirTree.InsertDirItem`: an item may grow without bound; deletion of entries is not modelled.
- Name sanitising, log trees and the tree walk of btrfs-image, update of its super block, repair heuristics of the checker, cmds-chunk.c, and all command-line and graphical front ends are not part of this model.
