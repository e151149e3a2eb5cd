# KernFS digestion: a verified model

Assise keeps file data in a per-process log. KernFS, the shared file system daemon, *digests* that
log: it replays the entries into inodes, maps file blocks through an extent tree, and moves logged
blocks into files by exchanging entries of a block map table. This project models that path and
proves what it keeps:

* **The extent tree** (`FreeBlocks`, `Extents`, `PblockCodec`, `ExtentTrees`, `TreeEdits`,
  `ExtentStore`, `InsertSpec`, `MergeSpec`, `SplitSpec`, `LookupSpec`, `RemoveSpec`, `KernfsExtents`,
  `ExtentLedger`, `PlainCreate`).  `KernfsExtents.ExtentTree` is the tree of one inode as an object:
  a store of nodes that its methods rewrite in place, the root in the inode, path cursors, and the
  set of used blocks. Its abstract value is the map from file blocks to physical blocks
  (`Blocks()`); `Valid()` says that the store represents a well-formed tree (extents sorted and
  disjoint, uniform depth, no node over its capacity or empty below the root, every index key the first block
  of its subtree) and that every used block has exactly one owner.
* **Log digestion** (`DigestLog`, `DigestMeaning`, `DigestReplay`, `DigestLimits`, `KernfsDigest`): the
  entry-by-entry reading of a batch, what it leaves of every byte, the reading through the versioned
  replay list, and exactly when the two agree.
* **The digest ring** (`DigestRing`): the forwarding protocol among KernFS nodes as a state machine.
* **Remapping** (`BlockSize`, `MapTable`, `DigestSpec`, `NvmDevice`, `DigestFile`): the
  logical-to-physical table on NVM, and digest_file on top of it and of the extent tree.
* **CRC32C** (`Crc32c`): the table-driven checksum against polynomial division.
* **The benchmark's containers** (`AvlTrees`, `AvlStore`, `AvlRotation`, `AvlSwap`, `AvlDestroy`,
  `FbAvl`, `Fileset`): filebench's AVL tree as an object whose methods rewrite nodes with parent
  links in place, against a tree value and its in-order sequence; and the fileset that keeps its
  entries in three such trees and hands them out to threads.

The capacities of tree nodes are parameters (`Caps`: root index capacity at least 2, block
capacities at least those of the root). The block allocator is an oracle: it returns any run of
free blocks, as long as asked for unless a parameter (`supply`) says that it has only shorter ones;
block numbers are unbounded unless a device size is given.

`dafny verify dfyconfig.toml` checks the whole project.

## Model

| member | source | states |
|---|---|---|
| KernfsExtents.ExtentTree.InsertExtent | kernfs/extents.c:1870-2105 | for every well-formed tree and every extent disjoint from it, the tree stays well formed and its map is the old one plus exactly the extent's blocks, through append, prepend, next leaf, split, growth, merge and merge-up; without MLFS_GET_BLOCKS_PRE_IO the new blocks end up in an extent that cannot be merged with the next one, nor with the one before unless it took them in already, and a leaf that fits has moved into the inode, with it they are an extent of their own; no node is added while the extent continues another one or its leaf or the next one has room |
| KernfsExtents.ExtentTree.CreateNewLeaf | kernfs/extents.c:1345-1405 | ends at a leaf with room for the extent, where the extent belongs; no extent moves in file order; the depth grows by one if and only if no index node on the path has a free entry |
| KernfsExtents.ExtentTree.Split | kernfs/extents.c:1027-1257 | the leaf and every full index node above it are cut at the border, and the new right halves hang under the first index node with a free entry; all new nodes are accounted for |
| KernfsExtents.ExtentTree.GrowInDepth | kernfs/extents.c:1266-1339 | the root's content moves to a fresh block under a new one-entry root |
| KernfsExtents.ExtentTree.InsertIndex | kernfs/extents.c:957-1021 | refuses an equal key or a full node and then changes nothing; otherwise the entry goes right after or before the cursor |
| KernfsExtents.ExtentTree.CorrectIndexes | kernfs/extents.c:1655-1705 | after the first block of a leaf changed, every index key above is the first block of its subtree again |
| KernfsExtents.ExtentTree.MergeRight | kernfs/extents.c:1758-1794 | the run of extents from the given one on that can be joined becomes one extent, the block map and the physical blocks stay; afterwards it cannot be merged with the next one; the result says if and only if the first two could be merged |
| KernfsExtents.ExtentTree.MergeUp | kernfs/extents.c:1800-1838 | a single leaf below the root moves into the inode and its node is freed if and only if it fits; otherwise nothing changes |
| KernfsExtents.ExtentTree.TryToMerge | kernfs/extents.c:1844-1862 | the extent is merged with its left neighbour if that is possible and otherwise to the right, in both cases as far as it goes; the leaf moves up if and only if it then fits; the block map stays |
| MergeSpec.CanMergeExactly | kernfs/extents.c:1707-1749 | two neighbours may be merged if and only if one extent that can be stored maps the blocks of both |
| MergeSpec.MergeCoalesces | kernfs/extents.c:1844-1862 | if only the neighbours around the new extent could be merged, no two neighbours of the leaf can be afterwards |
| KernfsExtents.ExtentTree.RemoveSpace | kernfs/extents.c:2487-2688 | for every well-formed tree and range: the new map is the old one minus exactly the blocks start to end, the tree is well formed again, the walk with its explicit stack terminates, and the accounts balance |
| KernfsExtents.ExtentTree.RmLeaf | kernfs/extents.c:2200-2352 | the leaf loses exactly the blocks in the range, their physical blocks are freed, keys above are corrected, an emptied leaf leaves its parent |
| KernfsExtents.ExtentTree.RmIdx | kernfs/extents.c:2152-2194 | the entry and its node are gone, the node's block is freed, the first key is handed upward |
| KernfsExtents.ExtentTree.WalkTree | kernfs/extents.c:2580-2672 | from any state of the walk, the remaining tree is the trimmed one when the root is left |
| KernfsExtents.ExtentTree.SplitExtentAt | kernfs/extents.c:2358-2465 | the logical to physical map is unchanged and only the written state of the two sides changes, even when the second half splits or grows the tree; the second half is merged with what follows, or with PRE_IO is an extent of its own |
| KernfsExtents.ExtentTree.Convert | kernfs/extents.c:2690-2724 | from the given block to the end of its unwritten extent the blocks become initialised, at the same places, and are merged unless PRE_IO is set; nothing else changes |
| KernfsExtents.BinSearchIdx | kernfs/extents.c:624-665 | finds the last index entry at or below the block, or the first entry |
| KernfsExtents.BinSearch | kernfs/extents.c:685-733 | finds the last extent that starts at or below the block, or the first one; -1 in an empty leaf |
| KernfsExtents.ExtentTree.Find | kernfs/extents.c:860-950 | every block has one place in the tree and the descent ends there, with a path that names the nodes on the way |
| KernfsExtents.ExtentTree.NextAllocatedBlock | kernfs/extents.c:1592-1648 | the first block of the extent after the cursor, across leaves |
| KernfsExtents.ExtentTree.GetBlocks | kernfs/extents.c:2779-3031 | a mapped block gives the rest of its extent, as far as asked for; without create a hole gives a length that is free and ends at the next mapped block or the request; with create as many new blocks are mapped as there is room for, are asked for and the allocator has in a row, where none were and from blocks that were free, merged with their neighbours or, with PRE_IO, on their own |
| KernfsExtents.ExtentTree.MapHole | kernfs/extents.c:2738-2772 | the reported hole holds no mapped block and stops exactly at the next one |
| KernfsExtents.ExtentTree.AllocRun | kernfs/extents.c:120-205 | a run of free blocks, as long as asked for or as the allocator has, becomes used and the counter grows by its length |
| KernfsExtents.ExtentTree.FreeRun | kernfs/extents.c:249-300 | a used run becomes free and the counter shrinks by its length |
| KernfsExtents.ExtentTree.constructor | kernfs/extents.c:380-391 | an empty tree on a device where others hold the used blocks |
| LookupSpec.Covered | kernfs/extents.c:2859-2873 | a block is mapped if and only if the extent the search ended at covers it |
| LookupSpec.RoomIsFree | kernfs/extents.c:2948-2966 | the room that a creating request takes is free if and only if the request does not start before the first extent and reach into it |
| LookupSpec.OverlapBeforeFirst | kernfs/extents.c:1604-1607 | a request for blocks 8 to 12 in front of an extent at 10 takes five blocks, three of them already mapped |
| LookupSpec.OldExtentWins | kernfs/extents.c:685-733 | after that, a search for block 10, 11 or 12 ends at the old extent |
| RemoveSpec.TrimmedMap | kernfs/extents.c:2230-2320 | trimming a sorted run of extents removes exactly the blocks of the range |
| SplitSpec.SplitSame | kernfs/extents.c:2371-2442 | an extent split in two with unchanged state stands for the same blocks |
| Extents.WithLenReads | kernfs/extents.h:225-285 | a stored length is read back with its unwritten mark if and only if it fits the 16-bit encoding |
| Extents.MergedFacts | kernfs/extents.c:1707-1756 | two extents that may be merged become one with the same blocks |
| PblockCodec.StoreLoad | kernfs/extents.h:308-358 | a physical block number survives the 32+16-bit fields if and only if it is below 2^48 |
| PblockCodec.LoadStore | kernfs/extents.h:308-358 | every pair of field values is the encoding of what it decodes to |
| ExtentLedger.Ledger | kernfs/extents.c:120-300 | in every valid state the used blocks are the disjoint sum of node blocks, mapped data blocks and other files' blocks, and the counter is their number plus a constant |
| ExtentLedger.NoSharing | kernfs/extents.c:120-300 | no two file blocks share a physical block, and none is a tree node or anyone else's |
| PlainCreate.GetRun | kernfs/extents.c:2948-3005 | in plain create mode: 1 <= n <= the request, n is exactly the rest of the extent or the room and supply there is, the n blocks are mapped contiguously from the returned block, old blocks stay where they are and new ones come from blocks that were free |
| PlainCreate.ClearIsClear | kernfs/extents.c:1604-1607 | the condition on the request, on the block map instead of the extents |
| DigestReplay.CoalescedIsSequential | kernfs/fs.c:1111-1382 | for every batch that the file system can log, both readings run, and they give the same files if and only if every last snapshot covers the writes it ends up behind |
| DigestReplay.OfAdd | kernfs/fs.c:1111-1382 | adding an entry changes only its own inode's part of the replay list, as if that part were alone |
| DigestReplay.ApplyByInode | kernfs/fs.c:1412-1530 | digesting the list does to every inode what its own part does |
| DigestReplay.ShapeHolds | kernfs/fs.c:1111-1382 | after any batch, an inode's part of the list has one of the few shapes that its history allows |
| KernfsDigest.Digester.DigestLogs | kernfs/fs.c:1608-1683 | headers up to the first uncommitted one; with or without the replay list, the files are those of the entry-by-entry digest under the conditions above |
| KernfsDigest.Digester.DigestLogFromReplayList | kernfs/fs.c:1412-1530 | every item is digested in list order and the list is empty afterwards |
| KernfsDigest.Digester.DigestEachLogEntries | kernfs/fs.c:1012-1109 | one header, entry after entry |
| DigestMeaning.DataLands | kernfs/fs.c:426-681 | a data entry runs if and only if its inode is live; then its bytes are in the file at their places, every other byte and inode is as before, and the size is the larger of the two ends |
| DigestMeaning.SnapLands | kernfs/fs.c:318-418 | an inode entry sets the size; a new inode has its type and no bytes, a live one keeps its type and loses exactly what a shrinking snapshot cuts |
| DigestMeaning.UnlinkLands | kernfs/fs.c:970-1010 | an unlinked inode is gone and no other one changes |
| DigestMeaning.CutExactly | kernfs/fs.c:386-398 | a shrinking snapshot takes exactly the blocks that begin at or after the new end, up to the one of the old end; every byte below the new size stays |
| DigestMeaning.LastWriterWins | kernfs/fs.c:1012-1109 | every byte that a batch leaves is the one of the last entry that logs it |
| DigestMeaning.OldByteStays | kernfs/fs.c:1012-1109 | a byte that no entry logs is the one from before the batch |
| DigestMeaning.LoggedByteStays | kernfs/fs.c:1012-1109 | a logged byte is in the file after the batch unless a later unlink or shorter snapshot of its inode takes it |
| KernfsDigest.ReplayList.ReplayAndOptimize | kernfs/fs.c:1111-1382 | one header added to the list: lookups and updates in place are the functional additions |
| DigestLimits.CreateOfLiveInode | kernfs/fs.c:1127-1180 | the two readings differ when a live inode is created and unlinked |
| DigestLimits.UpdateAfterUnlink | kernfs/fs.c:1127-1180 | they differ when an unlinked inode is updated without a creation |
| DigestLimits.ShrinkAndGrow | kernfs/fs.c:1127-1180 | they differ when a file is cut and grown in one batch |
| DigestLimits.ChangeOfType | kernfs/fs.c:1127-1180 | they differ when a snapshot changes the type |
| DigestLimits.VersionWraps | kernfs/fs.c:1127-1180 | with 65536 creations of one inode the last one is lost |
| DigestRing.RingSafe | kernfs/fs.c:1746-1825 | in every interleaving on n >= 2 nodes: a node answers only after it and all nodes after it have digested and persisted; each node digests a request at most once and a finished one exactly once, and persists it no more often than it digests it; requests never come round to the requester |
| DigestRing.NeverStuck | kernfs/fs.c:1746-1825 | while a request is outstanding some step is possible |
| DigestRing.RoundIsBounded | kernfs/fs.c:1746-1825 | a round takes at most 10 (n - 1) steps of nodes and messages |
| DigestRing.SystemSafe | kernfs/fs.c:1746-1825 | the same invariant for all logs at once, each with its own requester |
| MapTables.MapTable.Update | kernfs/map_table.c:69-113 | every table stays a permutation; exactly the images of the two blocks are exchanged, in one table; both entries are marked as cached and keep their previous image in 32 bits, and no other entry changes |
| MapTables.MapTable.GetEntry | kernfs/map_table.c:122-138 | an entry never touched is written back as the identity, no mapping and no other entry changes |
| MapTables.MapTable.Lblk2Pblk | kernfs/map_table.c:183-191 | returns the image; at most writes the entry back as the identity, and changes no mapping |
| MapTables.MapTable.UnsetCacheBit | kernfs/map_table.c:114-119 | the cache bit of this entry is clear, everything else about it and every other entry is as before |
| MapTables.MapTable.constructor | kernfs/map_table.c:122-138 | zeroed NVM is the identity in every table |
| MapTables.SwapPermutes | kernfs/map_table.c:69-113 | exchanging two images keeps a permutation |
| MapTables.SwapTwice | kernfs/map_table.c:69-113 | exchanging twice restores the mapping |
| MapTables.EntriesApart | kernfs/map_table.c:145-152 | entries of different (table, block) pairs occupy disjoint bytes when no address wraps and the entries fit their table |
| MapTables.NoWrapExactly | kernfs/map_table.c:145-152 | no 32-bit address wraps if and only if the last entry starts below 2^32 |
| MapTables.BigTableOverlaps | kernfs/map_table.c:145-152 | a table of 178956972 entries overlaps itself |
| NvmDevice.Device.Remap | kernfs/fs.c:588-600 | remapping exchanges what two logical blocks read as, without moving a byte |
| NvmDevice.Device.CopyPart | kernfs/fs.c:602-619 | a copy through the table changes the bytes of one logical block only |
| NvmDevice.Device.PlaceRun | kernfs/fs.c:588-628 | a run is remapped block by block, a last block logged in part is copied |
| KernfsDigestFile.FileDigester.DigestFile | kernfs/fs.c:426-681 | unless the allocator leaves the device: exactly nr_blocks blocks are digested, the contents are those of Outcome, the size is the maximum, and an entry in one block or at a block boundary overlays the file with the logged bytes and changes no other block |
| KernfsDigestFile.FileDigester.DigestRuns | kernfs/fs.c:549-671 | however many get_blocks rounds it takes, the loop digests exactly the planned blocks with the same outcome |
| KernfsDigestFile.EveryRoundClear | kernfs/fs.c:549-579 | every round's request is clear of the first extent if and only if the first one is |
| DigestSpec.DigestOverlays | kernfs/fs.c:426-681 | one block or aligned: the outcome is the old contents overlaid with the logged bytes |
| DigestSpec.RightExactly | kernfs/fs.c:426-681 | the outcome is right for all contents if and only if the entry lies in one block or starts at a block boundary |
| DigestSpec.HeadedByte | kernfs/fs.c:483-671 | for every entry that starts inside a block or is short: the logged bytes of the first block reach the file, those of the other planned blocks are taken one log block too early, and every other byte stays |
| DigestSpec.HeadedElse | kernfs/fs.c:483-671 | ... and no block outside the file and the entry's log blocks changes |
| DigestSpec.TailLost | kernfs/fs.c:443-492 | 200 bytes at offset 4000: the bytes from 4096 on never reach the file |
| DigestSpec.LongMisses | kernfs/fs.c:538-590 | an unaligned entry of more than a block: contents for which its second block gets the first block's log block |
| DigestSpec.TouchedNr | kernfs/fs.c:443-451 | nr_blocks never exceeds the number of blocks the entry touches, and equals it for an entry in one block or at a boundary |
| Crc32c.Crc | kernfs/mlfs_crc32.c:202-212 | for every buffer and register, the loop gives the remainder of the message polynomial, register added in, by the CRC32C generator of section 12.1 of RFC 3720 |
| Crc32c.TableIsDivision | kernfs/mlfs_crc32.c:45-200 | all 256 table entries are the bitwise reflected division of their index |
| Crc32c.UpdateIsDivision | kernfs/mlfs_crc32.c:202-212 | the table-driven update is polynomial division |
| Crc32c.UpdateChains | kernfs/mlfs_crc32.c:202-212 | running on a concatenation is chaining the two runs |
| FilebenchAvl.AvlTree.Insert | bench/filebench/fb_avl.c:474-561 | at a hole where the node's key fits: links, balances and order are those of an AVL tree again after at most one rotation, and the in-order sequence is the old one with the node at the hole |
| FilebenchAvl.AvlTree.Add | bench/filebench/fb_avl.c:615-628 | a node with a new key is put in order with at most one rotation; with a key that is there nothing changes |
| FilebenchAvl.AvlTree.Remove | bench/filebench/fb_avl.c:654-805 | for every node of every tree: the in-order sequence loses exactly that node, and the tree is a balanced, fully linked search tree again |
| FilebenchAvl.AvlTree.RemoveInner | bench/filebench/fb_avl.c:683-732 | a node with two children gives its place to its successor if its right side is higher and otherwise to its predecessor, and nothing else moves in order |
| FilebenchAvl.AvlTree.Rotate | bench/filebench/fb_avl.c:295-460 | single or double, the in-order sequence is the same, the subtree is balanced, and the result says if and only if it got shorter |
| FilebenchAvl.AvlTree.FixAfterInsert | bench/filebench/fb_avl.c:520-560 | from any node that grew by one, the way up rebalances the whole tree and moves no node in order |
| FilebenchAvl.AvlTree.FixAfterRemove | bench/filebench/fb_avl.c:765-804 | the same for a subtree that shrank by one |
| FilebenchAvl.AvlTree.Swap | bench/filebench/fb_avl.c:694-729 | exchanging a node with its neighbour through a temporary copy is a renaming of nodes, even when the two are parent and child |
| FilebenchAvl.AvlTree.Find | bench/filebench/fb_avl.c:245-277 | finds the node with the value if there is one, otherwise the hole between the smaller and the larger keys |
| FilebenchAvl.AvlTree.Nearest | bench/filebench/fb_avl.c:214-232 | the node right before or after a hole in order, or NULL |
| FilebenchAvl.AvlTree.Walk | bench/filebench/fb_avl.c:124-164 | the node right before or after the given one in order, or NULL |
| FilebenchAvl.AvlTree.First | bench/filebench/fb_avl.c:171-183 | the first node in order, or NULL |
| FilebenchAvl.AvlTree.DestroyNodes | bench/filebench/fb_avl.c:959-1065 | each call returns the next node of the post-order of what is left; after the last one the tree is empty |
| FilebenchAvl.AvlTree.DestroyAll | bench/filebench/fb_avl.c:938-957 | the calls together return exactly the post-order of the tree, which ends empty |
| FilebenchAvl.AvlTree.constructor | bench/filebench/fb_avl.c:877-899 | an empty tree |
| AvlTrees.FibBound | bench/filebench/fb_avl.c:30-59 | a balanced tree of height h has at least Fib(h + 2) - 1 nodes |
| AvlRotation.SingleDone | bench/filebench/fb_avl.c:340-388 | what the single rotation writes represents the rotated tree with the right balances |
| AvlRotation.DoubleDone | bench/filebench/fb_avl.c:390-459 | the same for the double rotation |
| AvlSwap.SwapIsRenaming | bench/filebench/fb_avl.c:694-729 | the records after the exchange are the old ones with the two nodes renamed, in every overlap of the two |
| AvlDestroy.PostPtrs | bench/filebench/fb_avl.c:938-957 | the post-order names every node once |
| AvlDestroy.PostStretch | bench/filebench/fb_avl.c:938-957 | in the post-order every node comes right after all of its descendants |
| FilebenchFileset.Fileset.Run | bench/filebench/fileset.c:615-964 | in every run of picks and returns each call has its effect on the flags: a pick takes an idle file of the wanted kind if and only if there is one; what is held is handed out once and is exactly what is busy, and the idle count is the number of the others |
| FilebenchFileset.Fileset.Pick | bench/filebench/fileset.c:615-809 | the first file that is not busy among those whose flags suit, in circular index order from the index sought; fails if and only if all that suit are busy; moves only the rotor it uses |
| FilebenchFileset.Fileset.InOneTree | bench/filebench/fileset.c:822-912 | every file is in exactly one tree, the one that its FREE and EXISTS flags name |
| FilebenchFileset.Fileset.Unbusy | bench/filebench/fileset.c:816-964 | the file is idle, in the tree its new flags name, nothing else changes, and a waiting pick can go on |
| FilebenchFileset.Fileset.Populate | bench/filebench/fileset.c:1347-1382 | a new file is free and idle and its index is new |
| FilebenchFileset.Fileset.constructor | bench/filebench/fileset.c:1600-1632 | an empty fileset |
| FilebenchFileset.FindEntry | bench/filebench/fileset.c:578-599 | the entry with the index, or else the next higher one, or else the lowest |
| FilebenchFileset.SkipBusy | bench/filebench/fileset.c:762-779 | goes round the tree once at most and stops at the first entry that is not busy |
| FilebenchFileset.MoveEntry | bench/filebench/fileset.c:226-231 | both trees hold the entries that name them again |
| FilebenchFileset.FirstIdleFacts | bench/filebench/fileset.c:762-779 | what is found is idle and all before it in the ring are busy; nothing is found if and only if the whole ring is busy |
| FilebenchFileset.TurnGoesRound | bench/filebench/fileset.c:722-737 | picks in rotation go through the tree entry by entry and from the last to the first |
| FilebenchFileset.PickFails | bench/filebench/fileset.c:762-779 | from any starting place, the search fails if and only if every entry of the kind is busy |

## Findings

Where the code does not do what its callers or comments expect, the model follows the code, shows an
input, and proves the exact condition:

* **A creating request in front of the first extent** may overlap it: the room is bounded by the
  extent after the one found (`OverlapBeforeFirst`, `OldExtentWins`; exact condition `RoomIsFree`,
  on the block map `ClearIsClear`). `GetBlocks` and `DigestFile` carry the condition; for an entry
  with several rounds it is enough, and needed, at the first (`EveryRoundClear`).
* **digest_file with an unaligned entry that leaves its block** loses the tail or takes later blocks
  from the wrong place in the log (`TailLost`, `ShortMisses`, `LongMisses`; exact condition
  `RightExactly`).
* **A creating request of more than 32768 blocks** may store a length that reads back as unwritten
  (exact condition `WithLenReads`); `GetBlocks` and `DigestFile` carry it.
* **The replay list** differs from the entry-by-entry digest outside the batches of
  `CoalescedIsSequential`: `CreateOfLiveInode`, `UpdateAfterUnlink`, `ShrinkAndGrow`, `ChangeOfType`,
  `VersionWraps`, and within them exactly when a last snapshot does not cover its writes.
* **Shrinking a file** leaves the bytes behind its new end in the block of that end, where a later
  growth finds them again (exactly which bytes go: `CutExactly`).
* **get_blocks with MLFS_MAP_LOG_ALLOC and without create** drops the range and then returns the
  length that the dropped extent had from the block on (`GetBlocks`).
* **The map table** computes addresses in 32 bits: `BigTableOverlaps`, exact condition
  `NoWrapExactly`.

## Left out

- KernfsExtents.ExtentTree.RemoveSpace: requires end below EXT_MAX_BLOCKS - 1, because only then the source sets its path before it uses it.
- KernfsExtents.ExtentTree.InsertExtent: errors of the device and of the allocator are not modelled; the allocator always finds a free block.
- KernfsExtents.ExtentTree.Convert: only as get_blocks calls it, up to the end of the extent; the left-part and three-way branches are never reached.
- KernfsExtents.ExtentTree.GetBlocks: freshness of new blocks after MLFS_MAP_LOG_ALLOC dropped a range is stated only through the accounts, since blocks just freed may be handed out again.
- KernfsExtents.ExtentTree.RmLeaf: the order of freeing blocks and writing the node back is not observable in the model.
- KernfsDigestFile.FileDigester.DigestFile: promises nothing once the allocator returned a block beyond the device, where the source stops on an assertion.
- KernfsDigest.Digester.DigestLogs: the addresses of the headers in the circular log and whether it wrapped, ALLOC entries, and the compiled-out variants for merged I/O, concurrency and experiments, are not modelled; unlink removes the file as a whole.
- DigestRing.RingSafe: the requester's own local digest and the request counter check are not part of the ring state.
- Path reuse between calls, extent checksums, the read-only searches to the left and right, and debug output of the extent tree.
- read_map_table and write_map_table, which keep an in-memory copy that remapping does not update.
- Tree nodes are read by raw block number, so node blocks are taken never to be remapped.
- Device I/O, buffer heads, RDMA, sockets, locks and timing: operations are atomic and I/O does not fail.
- Migration between devices (kernfs/migrate.c) and its LRU lists.
- The AVL tree's packing of parent pointer, side and balance in one word, avl_insert_here, avl_last and the avl_update calls.
- fileset_pickreset, which steps on from an entry with avl_next after moving it to another tree, so outside what Walk requires; directories and leaf directories, which repeat the file case; waiting on condition variables, so a pick that has to wait is a pick not yet made.
