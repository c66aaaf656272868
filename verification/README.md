# Werunos on-disk structures, verified

Werunos is a userspace driver for ext4 and btrfs volumes, written in Go. This project models the
parts of it that change on-disk structures in place and proves that each keeps the simple meaning
callers rely on.

- **btrfs B-tree writer** (`Btrfs*.dfy`). The volume is a byte array; nodes are decoded from it
  through the chunk map. Keyed descent, insertion with leaf split, index splits to any depth and root
  growth, deletion, update and the first-fit space allocator are methods of
  `BtrfsVolume.FileSystem`. Their contracts speak of the in-order walk of the tree: a sorted list of
  items of which an insertion adds one, a deletion drops one and an update replaces one. The tree
  invariant (order, separators, one depth, capacity, distinct nodes) and the storage invariant (every
  node on the device in a range of its own that the allocator knows of) hold before and after every
  operation, so they hold over every run of them.
- **Layers that refine a flat array of bytes.** The write-ahead cache and before-image log
  (`SafeDevice.dfy`, `RedoLog.dfy`), the transaction overlay with its journal (`JournalTx.dfy`,
  `JournalFormat.dfy`), and the partition over sector alignment (`Partition.dfy`).
- **ext4 blocks and files** (`Ext4*.dfy`). Bitmaps, group counters and the superblock counter
  against a set of free blocks; extent trees read from bytes against a list of extents and the block
  map it denotes; append, truncate, write and read against the bytes of the file.
- **Packed formats.** Directory blocks tiled by `rec_len` (`Dirents.dfy`, `Ext4Dirs.dfy`) and
  extended attributes kept in the inode (`XattrNames.dfy`, `Xattr.dfy`).

`Bytes.dfy`, `Arith.dfy`, `Ext4Bitmap.dfy` and `Wrappers.dfy` hold the little-endian integers, buffer
edits, division facts, bits and the option type the rest needs. `dafny verify dfyconfig.toml` checks
everything.

## Where the code falls short of its promise

Each of these is a lemma or a contract with the exact condition under which the code is right.

- An inserted key must be absent, must not make its leaf split at or below the root's first separator,
  both halves of a split must fit their nodes, and the space the new leaf gets must carry level byte 0:
  `InsertIntoLeaf` states that the tree is valid with the item in its sorted place if and only if all
  of these, seen before the call, hold. `BtrfsExamples.dfy` has a valid volume
  for the failure of each of the last three alone. When such a call succeeds is stated too: a split
  fails only for want of a node, and not at all if one is free and the parent has room.
- Splitting a leaf by item count can overfill a half. With items of at most M bytes it never does if
  and only if M <= 25 * (cap / M) (`AlwaysFitIff`). A half that is too long is written all the same as
  long as its data and its headers each find room in the node; otherwise the program stops before it
  writes that half (`WriteItemsToLeaf`).
- Opening a log without a whole entry keeps the bytes that are in it, and cutting an entry off does not
  move the log's position back. A crash during a logged write is recovered if and only if the position
  is a whole number of 12-byte headers and the file reaches at most one header past it (`SafeIff`). That
  any write is safe at the start of each write of a session means at most 12 bytes left at the open and
  lengths divisible by 12 for all writes but the last (`SessionSafeIff`). Over a longer leftover a crash can put its bytes on the
  device (`UnsafeLeftover`), and a finished write can be undone (`FinishedWriteUndone`).
- Cached reads are exact in every run if and only if any two of the ranges are nested or disjoint
  (`ReadsExactIff`).
- Appending an extent puts it at the end of the list if and only if the tree is a root leaf or its
  rightmost leaf has room; a full leaf below the root loses extents. The file's block map then gains
  exactly the new blocks if and only if a merge keeps the old ones: it must not end past the last
  32-bit block number, unless extents in front have the blocks anyway (`AppendExtent`,
  `GrewExtendsIff`).
- A write at an offset that is not block-aligned slices outside the caller's buffer
  (`FirstSliceInside`).
- A truncation that keeps more than four extents writes a root that cannot be read (`RootReads`); one
  to nothing leaks the blocks of uninitialized extents (`TruncationSucceeds`). It also never frees the
  blocks of the extent tree itself, and it leaves the high half of the sector count alone when the low
  half suffices (`SetSize`).
- `FreeBlock` cuts the group number to 32 bits, so a number 2^32 groups further on stands for the same
  block (`TargetMeans`).
- A directory name longer than 255 bytes is stored under its length modulo 256 (`NewEntryIs`). Names
  stay distinct if and only if the entry is invisible or the name as stored is new
  (`AddDistinctIff`).
- A directory that grows by a block keeps its old sector count (`AddDirEntry`).
- An attribute whose name is longer than 255 bytes behind its prefix does not come back
  (`ReadsBackIff`, `LongNameLost`).
- README.md of the repository promises copy-on-write and crash atomicity for btrfs; the code rewrites
  nodes in place, and the model follows the code.

## Model

| member | source | states |
|---|---|---|
| BtrfsTypes.LessIsStrictTotalOrder | btrfs/types.go:93-101 | key.less is a strict total order on the three key fields: irreflexive, transitive, and total on different keys; which order it is LessByField and LessIsRank say |
| BtrfsTypes.LessByField | btrfs/types.go:93-101 | keys are compared by object id, then by type, and by offset last |
| BtrfsTypes.LessIsRank | btrfs/types.go:93-101 | that is the order of the key read as one 136-bit number, object id first and offset last |
| BtrfsTypes.NodeSizes | btrfs/writer.go:97-105 | an empty node takes 101 bytes, an item 25 and its data, a pointer 33 |
| BtrfsFormat.NodePlace | btrfs/types.go:123-136 | byte 100 tells leaves from index nodes and gives their level; the four bytes before count the entries |
| BtrfsFormat.ItemPlace | btrfs/types.go:143-149 | item i: key, offset and size little-endian in the 25 bytes at 101+25i, its data at 101 plus the offset |
| BtrfsFormat.PtrPlace | btrfs/types.go:157-163 | pointer i: key and child address in the first 25 of the 33 bytes at 101+33i |
| BtrfsFormat.ItemRoundTrip | btrfs/writer.go:117-125 | an item header written by the writer, with its data where the header says, decodes to the same key and data |
| BtrfsFormat.PtrRoundTrip | btrfs/writer.go:954-959 | a key pointer written by the writer decodes to the same key and child address |
| BtrfsFormat.PtrGeneration | btrfs/writer.go:954-959 | behind them a written pointer carries the generation |
| BtrfsPack.PackLeaf | btrfs/writer.go:692-718 | a buffer comes out exactly when data and headers each find room in a node, otherwise the program stops; if both fit together it decodes to exactly the items given, the header area never meeting the data area, with the old level byte, and item count, address, generation and checksum are stamped in any case; if both fit, every header byte the writer does not fill in is the old one |
| BtrfsPack.PackIndex | btrfs/writer.go:937-966 | an index node written into a buffer decodes to exactly the pointers and the level given, with the generation behind each pointer, count, address, generation and checksum stamped, and every other header byte as it was |
| BtrfsTree.WalkOrdered | btrfs/tree.go:87-126 | the in-order walk of a valid tree is strictly sorted and lies within the bounds of its separators |
| BtrfsVolume.FileSystem.WalkTree | btrfs/tree.go:87-126 | over any tree whose nodes read back on their levels, valid or not and in the middle of an edit too, the recursive walk over the bytes visits exactly the items of the tree, in order |
| BtrfsSpace.ResolveMapped | btrfs/tree.go:32-39 | a logical range inside a chunk resolves to a physical range on the device |
| BtrfsSpace.ResolveApart | btrfs/tree.go:32-39 | disjoint logical ranges resolve to disjoint physical ranges |
| BtrfsSpace.AllocateSpace | btrfs/writer.go:589-668 | exact first fit in the chosen chunk: the range misses every occupied range even when those overlap, no lower aligned start would fit, failure means no start fits, and the physical address is what the logical one resolves to |
| BtrfsSpace.FirstFitIs | btrfs/writer.go:644-665 | the lowest start that fits is unique, so the address a request gets is a function of the chunks and the occupied ranges |
| BtrfsSpace.TargetServes | btrfs/writer.go:590-605 | a request is served from the first chunk with a flag in common, or the very first if none has |
| BtrfsVolume.FileRangesExact | btrfs/writer.go:624-637 | the ranges collected on the walk are exactly those that file extents among the items name: type 108, 45 bytes or more, not inline, both numbers positive |
| BtrfsVolume.FileSystem.AllocateNode | btrfs/writer.go:589-668 | a new node gets the first fit beside the recorded extents and the ranges the walk over the file tree meets; it lies in the first metadata chunk, at its start or a sector boundary, misses every live node, every recorded extent and, while the tree reads back, the space of every file extent in it, and resolves to the address returned; failure means nothing fits beside those ranges |
| BtrfsVolume.FileSystem.NextNodeMisses | btrfs/writer.go:589-668 | the address the next node of a tree at rest will get is in the metadata chunk and misses all recorded extents and all file data the tree names |
| BtrfsVolume.FileSystem.ChooseSlot | btrfs/writer.go:539-568 | the scan picks the last separator not above the key, or the first pointer when all are above |
| BtrfsVolume.FileSystem.FindLeaf | btrfs/writer.go:539-568 | in a valid tree the descent ends at the one leaf that can hold the key |
| BtrfsVolume.FileSystem.FindLeafWithPath | btrfs/writer.go:734-787 | the descent with a path ends at the same leaf as the one without, and the path records node, device address, slot and level at every step |
| BtrfsMeaning.OnlyLeafForKey | btrfs/writer.go:539-568 | a key of a valid tree is in the leaf the descent reaches and in no other leaf of the tree |
| BtrfsVolume.FileSystem.WriteItemsToLeaf | btrfs/writer.go:686-725 | writes exactly when data and headers each find room in the node; the node then reads back as the items if they fit and the old header's level byte was 0, as no leaf if they fit and it was not, and otherwise as a leaf of their number at most; no other node changes; the node carries its address, generation and checksum, and no device byte outside the nodes changes |
| BtrfsVolume.FileSystem.WritePointersToNode | btrfs/writer.go:937-966 | the node then reads back as an index of these pointers and level, with address, generation and checksum stamped and the rest of its header as it was; no other node and no device byte outside the nodes changes |
| BtrfsVolume.FileSystem.GetNodeFirstKey | btrfs/writer.go:968-989 | the first key of a live node, leaf or index |
| BtrfsVolume.FileSystem.SplitLeafWithPath | btrfs/writer.go:789-816 | the overflowing list, whether its halves fit or not, is divided over the old leaf and the node at the next free address, whose pointer then climbs to the parents; it succeeds if that address exists, the halves can be written and the parent has room, and with halves that fit at a fresh address it fails only if no further node can be allocated |
| BtrfsVolume.FileSystem.InsertPtrIntoParent | btrfs/writer.go:818-935 | linking a split-off node carries the whole edit to the root through any number of index splits and a root growth, keeping walk, order, depth, capacity and distinctness; a parent with room takes the pointer, and if the edited nodes read back it fails only when no further node can be allocated, at most one a level having been |
| BtrfsVolume.FileSystem.HalveNode | btrfs/writer.go:909-932 | an overflowing index node keeps the first half of its pointers by count, the rest goes to a new node whose first key and address climb; it succeeds exactly if the edited nodes read back and a node is free |
| BtrfsVolume.FileSystem.GrowRoot | btrfs/writer.go:819-875 | a split root gets a new root above both halves, one level higher, at the next free address, and the tree's walk is unchanged; for a tree that reads back it succeeds exactly if there is such an address, and a failure changes nothing |
| BtrfsClimb.Edit.Lift | btrfs/writer.go:818-935 | one step of the climb: an edit finished below a node is an edit of that node |
| BtrfsClimb.Edit.Halve | btrfs/writer.go:909-932 | an index node that overflows splits into two valid halves that keep the walk and every separator bound |
| BtrfsClimb.Edit.FlipIff | btrfs/writer.go:896-902 | the split pointer lands before its left sibling exactly when the split key does not exceed the first separator |
| BtrfsMeaning.SplitExact | btrfs/writer.go:795-815 | the walk after a split is the old walk with the item inserted exactly when the halves are linked in order |
| BtrfsVolume.FileSystem.InsertIntoLeaf | btrfs/writer.go:15-139 | after a successful call the tree is valid and its walk is the old walk with the item at its sorted place if and only if, as seen before the call, the key was absent, the leaf does not split at or below the root's first separator, both halves of a split fit, and the space the new leaf gets has level byte 0; the call succeeds if the leaf does not overflow, or if a node is free, the halves can be written and the parent has room; if the halves fit and the new leaf's space is fresh it fails only when no further node can be allocated; nodes outside the tree and every byte of the device outside the nodes are untouched, and the storage invariant always holds |
| BtrfsVolume.FileSystem.DeleteFromLeaf | btrfs/writer.go:339-435 | succeeds exactly for a present key, the walk loses that key's item, the tree stays valid even when a leaf becomes empty; no device byte outside the nodes changes |
| BtrfsVolume.FileSystem.UpdateInLeaf | btrfs/writer.go:437-537 | succeeds exactly for a present key whose leaf has room, the walk has the new data at that key, the tree stays valid; no device byte outside the nodes changes |
| BtrfsSplit.AlwaysFitIff | btrfs/writer.go:795-808 | cutting by item count never overfills a half of a leaf of items of at most M bytes, headers included, if and only if M <= 25 * (cap / M), cap being the node's bytes behind its header |
| BtrfsSplit.SmallFits | btrfs/writer.go:795-808 | under that bound both halves of an overflowing leaf are non-empty and fit, in whatever order its keys are |
| BtrfsSplit.SquareBound | btrfs/writer.go:795-808 | M*M <= 25*(cap-M) implies that bound |
| BtrfsSplit.OverfullHalf | btrfs/writer.go:795-808 | for every node size and every M above the bound, a sorted leaf that fits and an absent item for which the half behind the cut is one byte too long |
| BtrfsVolume.FileSystem.SmallItemsFit | btrfs/writer.go:795-808 | the exact bound for the leaf an insertion reaches in a valid tree |
| BtrfsVolume.FileSystem.NeverSplitsLow | btrfs/writer.go:896-902 | in a tree without keys below its separators an absent key not below the root's first separator never makes the leaf split low, so that condition of InsertIntoLeaf is one a caller can see |
| BtrfsExamples.SplitsLowExists | btrfs/writer.go:896-902 | a valid volume on which an insertion meets every condition but the one on the split key |
| BtrfsExamples.StaleSpaceExists | btrfs/writer.go:686-699 | a valid volume on which an insertion meets every condition but the one on the next space's level byte |
| BtrfsExamples.OverfullExists | btrfs/writer.go:795-808 | a valid volume on which an insertion meets every condition but that both halves fit, the long one being written without a stop |
| RedoLog.PendingOfPrefix | vfs/redolog.go:48-77 | cutting a log of consecutive entries anywhere leaves exactly the wholly written entries pending |
| RedoLog.EntryPlace | vfs/redolog.go:79-90 | an entry is eight bytes of offset, four of length, and the data |
| RedoLog.FileWriteByte | vfs/redolog.go:79-90 | a write to the log file puts its bytes at the position, zeros into a gap before it, and leaves every other byte |
| RedoLog.SafeIff | vfs/redolog.go:216-250 | on a log as an open or earlier writes leave it, every crash of every write, torn append, torn device write or cut included, recovers to the old bytes or the finished write if and only if the file position is a multiple of 12 and the file reaches at most 12 bytes past it |
| RedoLog.SessionSafeIff | vfs/redolog.go:185-250 | at the start of each write of a session, any write that could be made there survives every crash, if and only if the open left at most 12 bytes in the log and every write but the last has a length divisible by 12 |
| RedoLog.UnsafeLeftover | vfs/redolog.go:79-90 | any longer leftover without a whole entry lends its bytes to a first write's header, and a crash between the two writes of the append puts them on the device |
| RedoLog.FinishedWriteUndone | vfs/redolog.go:92-103 | over a leftover at least twice its entry's length a finished write stays pending and is undone by the next open |
| SafeDevice.SafeDevice.ReadPending | vfs/redolog.go:48-77 | the parse loop returns exactly the pending entries of the log's bytes |
| SafeDevice.SafeDevice.NewSafeDevice | vfs/redolog.go:172-203 | opening replays the pending entries in order, fails exactly when one lies outside the device, and starts with an empty cache at log position 0; the log is cleared if a whole entry was pending and kept as it is if none was |
| SafeDevice.SafeDevice.LookupCache | vfs/redolog.go:128-140 | on any cache the first block that holds the range answers, as the run model has it; with the cache in order its bytes are exactly the device's although entries behind it may be stale |
| SafeDevice.SafeDevice.UpdateCache | vfs/redolog.go:142-170 | any cache becomes the run model's next one: the holding block rewritten and in front, or a new block in front and the last of 64 dropped; for ranges that are nested or disjoint the first entry holding a byte stays fresh |
| SafeDevice.UpdatedAnswers | vfs/redolog.go:142-170 | after an update its range is answered from the front block with its bytes; a hit keeps the number of blocks, a miss adds one in front, dropping the last of 64 |
| SafeDevice.SafeDevice.ReadAt | vfs/redolog.go:205-214 | on any cache a read is one step of the run model and returns its answer; with the cache in order these are the device's bytes, cut short at its end |
| SafeDevice.SafeDevice.WriteAt | vfs/redolog.go:216-250 | on any log and cache the device takes the whole write as one step of the run model and the log is what appending and cutting off the entry leaves; with the cache in order the logged before-image is the old bytes, and the states in between are the crash states of SafeIff |
| SafeDevice.SafeDevice.AppendEntry | vfs/redolog.go:79-90 | the entry goes to the file position, over what is there or behind a hole of zeroes |
| SafeDevice.SafeDevice.RemoveLastEntry | vfs/redolog.go:92-103 | the file loses the entry's length at its end, at most all it has |
| SafeDevice.OverlapGoesStale | vfs/redolog.go:142-170 | for any two ranges on the device that overlap without nesting: read one, read the other, write the other with a shared byte changed, and the first is answered with its old bytes |
| SafeDevice.ReadsExactIff | vfs/redolog.go:128-170 | cached reads of a pattern of non-empty ranges on the device return the device's bytes after every run of reads and writes if and only if any two of the ranges are nested or disjoint |
| JournalTx.Volume.BeginTransaction | vfs/journal_writer.go:108-125 | starting a transaction changes nothing a reader sees; a fresh one has no dirty blocks, and one under way goes on |
| JournalTx.Volume.ReadAt | vfs/journal_writer.go:30-54 | a read in a transaction is the flat array with the dirty blocks laid over it, whatever order the dirty map is iterated in |
| JournalTx.Volume.WriteAt | vfs/journal_writer.go:56-92 | a write in a transaction changes what readers see as a write to a flat array would, and makes dirty exactly the blocks it touches |
| JournalTx.Volume.RollbackTransaction | vfs/journal_writer.go:321-330 | afterwards readers see the device, which a transaction never writes |
| JournalTx.Volume.WriteDirtyBlocksDirectly | vfs/journal_writer.go:311-319 | the device becomes what readers saw on every dirty block, in any iteration order |
| JournalTx.Volume.Describe | vfs/journal_writer.go:197-241 | descriptor block and escaped data blocks name every dirty block once |
| JournalTx.Volume.WriteLog | vfs/journal_writer.go:197-288 | succeeds exactly if every position the transaction needs has a block on the device; descriptor, data and commit blocks then stand at consecutive journal positions; blocks outside the journal are untouched |
| JournalTx.Volume.CommitTransaction | vfs/journal_writer.go:127-309 | the transaction is logged exactly if there are dirty blocks, the journal superblock is on the device with a known magic, the tags fit the descriptor and every position is on the device; the call succeeds exactly if it is logged or there is nothing to log or no journal; on success the device equals what readers saw on every dirty block and every block outside the journal, and in a roomy journal the log holds the whole transaction at the superblock's position and sequence, with the superblock's sequence one higher, its start behind the commit block and all its other bytes as they were; on failure only journal blocks changed |
| JournalTx.SuperFields | vfs/journal_writer.go:175-195 | a commit goes by the superblock's magic at 0, sequence at 12, start at 16 and length at 20, a start of 0 or past the end meaning 1 |
| JournalTx.Volume.NextMovedOn | vfs/journal_writer.go:289-298 | the superblock written after a commit: sequence one higher modulo 2^32, start behind the commit block, every other byte unchanged |
| JournalFormat.AdvanceDistinct | vfs/journal_writer.go:252-272 | positions of one transaction are distinct and never the journal superblock, across the wrap |
| JournalFormat.EscapeRoundTrip | vfs/journal_writer.go:211-223 | a data block that begins with the journal magic is escaped and unescaped to itself, and an escaped block never needs escaping |
| JournalFormat.EscapedIs | vfs/journal_writer.go:211-222 | escaped are exactly the blocks that start with C03B3998, by 4A 6F 6E 75 |
| JournalFormat.LoggedHeaders | vfs/journal_writer.go:197-276 | descriptor and commit block start with the magic number, kind 1 and 3, and the transaction's sequence |
| JournalFormat.LoggedReadsBack | vfs/journal_writer.go:210-241 | block i read back by its tag, its number and flags in the eight bytes at 12+8i, is dirty block i; the flags are 1 if it starts with the magic number, plus 64 for the last tag |
| Ext4Bitmap.FirstClear | vfs/allocate.go:35-40 | the scan over bytes and bits finds the lowest clear bit, or none when all are set |
| Ext4Bitmap.FullMeans | vfs/allocate.go:17-23 | a bitmap counts no clear bit exactly when every bit is taken |
| Ext4Bitmap.BitsWeigh | vfs/allocate.go:36-44 | bits of a bitmap byte count from the lowest up |
| Ext4Bitmap.TakeBit | vfs/allocate.go:40-42 | setting a clear bit changes that bit alone and lowers the count by one |
| Ext4Bitmap.ReleaseBit | vfs/reclaim.go:33-41 | clearing a set bit changes that bit alone and raises the count by one |
| Ext4Alloc.WideCountSteps | vfs/allocate.go:49-51 | stepping only the low half of a wide counter is right exactly when it does not wrap |
| Ext4Alloc.WideCountParts | vfs/allocate.go:17-20 | a group's free count is its high half times 65536 plus its low half |
| Ext4Alloc.StaysConsistent | vfs/allocate.go:40-55 | bitmap bit, group counter and superblock counter moved together keep counter, sum and number of free blocks equal, and change one block's status |
| Ext4Fs.FileSystem.AllocateBlock | vfs/allocate.go:10-62 | takes the lowest free block, keeps all counters in agreement, and fails exactly when no block is free |
| Ext4Fs.FileSystem.FreeBlock | vfs/reclaim.go:11-52 | frees exactly a block in use on the volume, refuses a free one or one out of range, keeps all counters in agreement |
| Ext4Fs.FileSystem.TargetMeans | vfs/reclaim.go:14-19 | a number on the volume stands for itself; 2^32 groups further on it stands for the same block again |
| Ext4Fs.FileSystem.UpdateSuperblockFreeBlocks | vfs/reclaim.go:225-233 | the superblock counter moves by the delta, stops at 0 below and wraps at 32 bits above |
| Ext4Alloc.FreeUndoes | vfs/reclaim.go:11-52 | freeing the block just allocated restores the set of free blocks |
| Ext4Alloc.NoDoubleAllocation | vfs/allocate.go:10-62 | in every run no block is handed out twice without a free of it in between |
| Ext4Alloc.RunBalance | vfs/reclaim.go:225-233 | over every run the number of free blocks moves by frees minus allocations |
| Ext4Tree.ParseLeafEntries | vfs/extents.go:107-127 | the loop decodes exactly the counted entries, or fails when they do not fit |
| Ext4Tree.ParseExtentNode | vfs/extents.go:51-105 | the recursive reader returns the tree's extent list, left to right, or fails |
| Ext4Tree.TreeFrame | vfs/extents.go:51-105 | what a tree reads as depends on its own blocks only |
| Ext4Tree.ExtentRoundTrip | vfs/extents.go:17-22 | an encoded extent decodes to itself |
| Ext4Tree.HeaderPlace | vfs/extents.go:9-15 | magic, entries, capacity, depth and generation in a node's first twelve bytes |
| Ext4Tree.LeafPlace | vfs/extents.go:17-22 | extent i in the twelve bytes at 12+12i: first block, 15 bits of count and the uninitialized flag, 48 bits of disk address |
| Ext4Tree.ChildPlace | vfs/extents.go:24-29 | an index entry's child: low 32 bits at 4, high 16 at 8 |
| Ext4LastLeaf.LeafListMeans | vfs/extents.go:51-70 | a leaf is readable exactly if it has magic F30A and its entries fit, and lists as many as it counts |
| Ext4Tree.IdxRoundTrip | vfs/extents.go:24-29 | an encoded index entry gives back its 48-bit child block |
| Ext4Append.GrewExtendsIff | vfs/allocate.go:130-177 | the grown list maps what the old one mapped and the new extent's blocks if and only if the extent is an entry of its own, or the merge does not end past the last 32-bit block, or extents in front have every block of the extent it merges into |
| Ext4Append.MergeableIff | vfs/allocate.go:140-149 | extents merge exactly if both are initialized, they are neighbours in the file and on disk without crossing 2^32 blocks, and together have at most 32767 blocks |
| Ext4Append.MergedExtendsIff | vfs/allocate.go:140-157 | the same for a merge alone |
| Ext4Examples.LosingMergeExists | vfs/allocate.go:140-157 | a merge of two one-block extents after which the file lacks the block it had |
| Ext4Append.AppendToLeafParses | vfs/allocate.go:315-365 | the edited leaf parses as the old list with the extent appended or merged into the last one |
| Ext4LastLeaf.ReplaceLastLeaf | vfs/allocate.go:264-313 | rewriting the rightmost leaf of a tree of any depth changes the tail of its list and nothing else |
| Ext4LastLeaf.IndexRootReads | vfs/allocate.go:235-258 | a one-entry root above a leaf reads as that leaf |
| Ext4LastLeaf.IndexRootFields | vfs/allocate.go:235-258 | the root above a moved leaf: one entry of four, depth 1, the leaf's first block and address, zeros behind |
| Ext4Grow.AppendExtentToLeaf | vfs/allocate.go:130-177 | the in-place edit of a leaf buffer is the specified one: merge or add an entry and count it |
| Ext4Grow.SplitRootLeafAndAppend | vfs/allocate.go:179-262 | a full root leaf moves to a newly allocated block with the new extent behind it; fails exactly when no block is free; the new root is one index entry for that block under the first extent's block number |
| Ext4Grow.AppendExtentToTree | vfs/allocate.go:264-313 | the rightmost leaf of a tree of any depth takes the extent and only that block is written; a full one is split and loses extents; an empty index node is an error |
| Ext4Grow.SplitLeafBlockAndAppend | vfs/allocate.go:367-445 | the split of a full leaf below the root, which takes the leaf for its own parent: the tree reads shorter than before |
| Ext4LeafSplit.WriteSplit | vfs/allocate.go:373-435 | the two halves of the full leaf with the new extent among them, each a leaf that reads as its half |
| Ext4LeafSplit.InsertIdx | vfs/allocate.go:514-561 | the leaf with the index entry of the right half put among its extents, which a reader takes for one more extent |
| Ext4Grow.AppendExtent | vfs/allocate.go:105-128 | the tree afterwards reads as the old list with the extent merged or added at its end, its blocks are its own and no block outside the tree and the bitmaps changes, if and only if the tree is a root leaf or its rightmost leaf had room; the file's block map then gains exactly the extent's blocks if and only if a merge keeps those that were there; fails exactly for a foreign node, an empty index node, or a split without a free block |
| Ext4Examples.FullLeafExists | vfs/allocate.go:367-445 | a consistent volume and a file whose rightmost leaf below the root is full while a block is free |
| Ext4Truncate.CutRestricts | vfs/reclaim.go:149-185 | the kept extents map exactly the old map below the cut |
| Ext4Truncate.BlocksConserved | vfs/reclaim.go:133-185 | kept and freed blocks are old blocks, each at most once, and all of them exactly when the new size is not 0 or all extents are initialized |
| Ext4Truncate.TruncationSucceeds | vfs/reclaim.go:117-223 | for a file that owns its blocks every freed block can be freed, the kept ones stay in use, and the free count rises by exactly the blocks lost unless uninitialized extents are leaked |
| Ext4Truncate.FreeExtents | vfs/reclaim.go:101-115 | frees every block of the initialized extents once, succeeding exactly when each is in use and named once |
| Ext4Truncate.RootReads | vfs/reclaim.go:187-205 | the rewritten root reads as the kept extents exactly when there are at most four |
| Ext4Truncate.SetSize | vfs/reclaim.go:207-217 | the size is set, and the sector count exactly when it needs its high half or that half was 0 |
| Ext4Grow.Inode.KindIs | vfs/inodes.go:186-192 | a directory has mode 4xxx, a regular file 8xxx |
| Ext4Truncate.TruncateInode | vfs/reclaim.go:117-223 | does nothing unless the file shrinks; then succeeds exactly when the tree is readable and every block to free is in use and named once, frees those blocks alone, sets the size, and the tree reads as the cut list exactly when four extents suffice; for a file that owns its blocks it always succeeds, the block map is the old one below the new end, and the superblock counts exactly the blocks lost; size and sector count are set as SetSize says |
| Ext4Files.DenseFind | vfs/writer.go:102-115 | in a file without holes logical block l is its l-th data block |
| Ext4Files.DenseReads | vfs/reader.go:103-159 | counting extents by position finds the file's bytes when the file has no holes |
| Ext4Files.ReadFileAt | vfs/reader.go:87-162 | fills the buffer with the bytes of the extents' blocks from the offset on, cut at the file size, zero for uninitialized extents, the rest of the buffer untouched |
| Ext4Files.GrowFile | vfs/writer.go:49-66 | one more block behind the file's last: the file still owns its blocks, its old bytes are in place, it can still grow as far as it could, and failure means the volume is full |
| Ext4Files.OneBlockIs | vfs/writer.go:54-59 | the extent appended for a new block is initialized, one block long, and names that block for all 48-bit numbers |
| Ext4Files.RunSuffices | vfs/allocate.go:140-157 | a file whose last extent is followed on disk by the lowest free blocks can grow by that whole run, up to the 15 bits of an extent's length, without a further entry |
| Ext4Files.FreshRunSuffices | vfs/allocate.go:140-157 | so can an empty file grow into a run of free blocks, at the cost of one entry |
| Ext4Files.SpareSuffices | vfs/allocate.go:126-187 | however the blocks lie, a file can grow by as many as its rightmost leaf has free entries, a root that is a leaf counting as the whole block it can be moved to |
| Ext4Files.WriteFileAt | vfs/writer.go:8-100 | at a block-aligned offset inside a file without holes the file's bytes become the old ones overlaid with the buffer, size included; fails only when no block is free, and no block in use elsewhere changes; the sector count follows the size exactly if its high half is stored or was 0 |
| Ext4Files.WriteThenRead | vfs/reader.go:87-162 | a write and then a read at any offset and of any length gives the old bytes overlaid with the data, cut at the end of the file |
| Ext4Files.FirstSliceInside | vfs/writer.go:36-74 | the slice of the buffer taken for the first block is inside the buffer if and only if the offset is block-aligned |
| Ext4Files.OtherFileKept | vfs/writer.go:8-100 | any other file of the volume holds the same bytes and is as sound as before |
| Dirents.MinRecLen | vfs/dirent.go:9-12 | the least multiple of 4 that holds the header and the name |
| Dirents.EntryPlace | vfs/directory.go:173-217 | an entry: inode at 0, record length at 4, name length at 6, type at 7, name at 8; inode 0 or an empty name is no entry |
| Dirents.AddAtBytes | vfs/dirent.go:71-112 | the bytes of an added entry and of the record it was split from |
| Dirents.ParseTiled | vfs/directory.go:173-217 | on a tiled block the parser returns all entries and no error |
| Dirents.ParseDirBlock | vfs/directory.go:173-217 | the loop is the parser, errors for rec_len 0 and overlong names included |
| Dirents.WriteDirBlock | vfs/dirent.go:14-31 | the block written is exactly tiled and lists the entries given as a reader sees them |
| Dirents.VisibleAll | vfs/dirent.go:14-31 | entries with an inode and a name of 1 to 255 bytes are seen as given |
| Dirents.NewEntryIs | vfs/dirent.go:85-89 | a new entry is seen as given exactly for a non-zero inode and a name of 1 to 255 bytes |
| Dirents.AddToBlock | vfs/dirent.go:63-124 | succeeds exactly when some entry has the slack, and uses the first that has: its record is cut to its least length and the new one takes all the rest, no other byte changing; the block stays tiled and lists one more entry |
| Dirents.RemoveFromBlock | vfs/dirent.go:192-226 | succeeds exactly when the name is listed; the block stays tiled and loses its first entry of that name, whether merged into the entry in front or left as a dead one; exactly its inode number and, unless the entry before it is the block's first, that entry's record length change |
| Ext4Dirs.ReadDir | vfs/directory.go:45-102 | on any unindexed directory, the entries of all blocks its extents name in order, or an error if a block is missing or does not parse |
| Ext4Dirs.ScanIsListing | vfs/directory.go:45-102 | for a directory without holes and with tiled blocks that is its listing |
| Ext4Dirs.Lookup | vfs/directory.go:117-128 | the inode of the first entry with the name, or none when no entry has it or the directory cannot be read |
| Ext4Dirs.AddDirEntry | vfs/dirent.go:33-165 | a listed name is refused; otherwise the listing gains exactly the new entry, all blocks stay tiled, a block is added exactly when no entry has room, other files' blocks are untouched, names stay distinct exactly if the entry is invisible or the name as stored is new, and failure means the volume is full; the sector count stays as it was even then |
| Ext4Dirs.RemoveDirEntry | vfs/dirent.go:167-231 | succeeds exactly when the name is listed; the listing loses exactly its first entry of that name, all blocks stay tiled, and from distinct names that one is gone and the rest stay distinct |
| Ext4Dirs.AddDistinctIff | vfs/dirent.go:85-89 | adding an entry keeps names distinct if and only if the entry is invisible or the name as stored, cut to its length modulo 256, is new |
| Ext4Dirs.AddKeepsDistinct | vfs/dirent.go:38-40 | adding an absent name of at most 255 bytes keeps names distinct |
| Ext4Dirs.RemoveKeepsDistinct | vfs/dirent.go:167-231 | after a removal from distinct names the name is gone and the rest stay distinct |
| Ext4Dirs.LongNameCollides | vfs/dirent.go:87-89 | adding an absent name breaks distinctness exactly when the name as stored is there, which takes more than 255 bytes |
| Ext4Examples.CollidingNameExists | vfs/dirent.go:87-89 | an absent name of 257 bytes that repeats a one-byte name the directory has |
| XattrNames.JoinSplit | vfs/xattr.go:26-42 | splitting a name and joining the parts gives the name back |
| XattrNames.SplitInjective | vfs/xattr.go:26-33 | different names split differently |
| XattrNames.SplitIs | vfs/xattr.go:13-34 | user. is index 1, trusted. 4, security. 6, system.posix_acl_access 2, system.posix_acl_default 3, each with the rest as suffix |
| XattrNames.SplitElse | vfs/xattr.go:26-34 | any other system. name is 7, so that 8 is never given, and a name without a prefix is 0 and kept whole |
| XattrNames.JoinIs | vfs/xattr.go:35-42 | each of the indexes 1 to 4 and 6 to 8 gives its prefix back, any other none |
| Xattr.ListUnique | vfs/xattr.go:203-222 | the sorted entry list, and so every byte written, does not depend on map iteration order |
| Xattr.LessByField | vfs/xattr.go:214-222 | attributes are sorted by index, then by kept name length, then by name |
| Xattr.LexIs | vfs/xattr.go:221-221 | names are ordered by their first different byte, a prefix coming first |
| Xattr.EntryPlace | vfs/xattr.go:248-255 | an entry's sixteen bytes: name length, index, place of the value, no block, its size, no hash, and the name behind |
| Xattr.AttrPlace | vfs/xattr.go:122-140 | an entry is read from those places, or skipped if its value reaches past the end |
| Xattr.ListPlace | vfs/xattr.go:105-112 | the attributes stand behind 128 bytes, the extra fields whose length is at 128, and the magic EA020000 |
| Xattr.SerializeXAttrs | vfs/xattr.go:198-263 | the map's entries in order laid out from both ends of the space, or an error exactly when entries, terminator and values do not fit |
| Xattr.LayoutNext | vfs/xattr.go:243-260 | writing the next entry and value keeps both areas apart and extends the layout by that attribute |
| Xattr.WalkLayout | vfs/xattr.go:109-145 | reading a laid out area gives the attributes in order and stops at the terminator |
| Xattr.ReadsBackIff | vfs/xattr.go:92-147 | a map written and read again is the same map exactly when every name suffix has at most 255 bytes |
| Xattr.ListXAttrs | vfs/xattr.go:92-147 | the map of the attributes kept in the inode, later entries winning, values that reach past the end left out |
| Xattr.GetXAttr | vfs/xattr.go:265-275 | the listed value of the name, or none |
| Xattr.SetXAttr | vfs/xattr.go:277-345 | when the result fits the inode, the inode then lists the old map updated or reduced at one name exactly if all names are storable, and nothing before the attribute body changes; removing an absent name is an error |
| Xattr.LongNameLost | vfs/xattr.go:198-211 | a name whose suffix has 256 bytes or more is not listed after it was stored |
| Partition.AlignedReaderAt.ReadAt | block/aligned.go:23-65 | returns the disk's bytes as a direct read would, using whole-sector accesses only |
| Partition.AlignedReaderAt.WriteAt | block/aligned.go:67-94 | writes the bytes as a direct write would, using whole-sector accesses only, or nothing when they do not fit the disk |
| Partition.ReadModifyWrite | block/aligned.go:82-90 | writing back the sectors around a range with the new bytes in it writes those bytes alone |
| Partition.PartitionReader.constructor | block/device.go:86-121 | the view starts at the first byte of sector startLBA and ends behind the last byte of sector endLBA, so it holds every sector from one to the other; sectors are 512 bytes when no size is given |
| Partition.PartitionReader.ReadAt | block/device.go:123-139 | a read of the partition's flat array cut at its end, an error outside it |
| Partition.PartitionReader.WriteAt | block/device.go:141-156 | a write to the partition's flat array cut at its end, an error outside it; no byte outside the partition changes |

## Left out

- BtrfsVolume.FileSystem.InsertIntoLeaf: when a parent's node cannot be allocated after the leaf was already split, the right half is unreachable; the contract then promises the storage invariant, and that no node was left to allocate, only. When a half of the split does not read back as a leaf, and an index node above overflows or the root grows, it does not say whether the call succeeds. A stop of the program counts as a failed call. A root at level 255 that would have to grow is excluded.
- BtrfsVolume.FileSystem.AllocateNode: the extent tree is a list of ranges and registering one always succeeds; splits of the extent tree itself are not modelled. While a node of the file tree does not read back on its level, the ranges the walk finds are arbitrary.
- BtrfsSpace.AllocateSpace: sums of addresses and lengths do not wrap at 64 bits.
- BtrfsFormat.DecodeItem: the walker adds a node header's length to an item's offset in 32 bits (btrfs/tree.go:107-109). An item whose offset makes that sum wrap, as an over-long half can leave one, counts as unreadable here, as it does for the writer's own readers.
- BtrfsVolume.FileSystem.RegisterExtent: a record added to a list stands for the insertion into the extent tree.
- BtrfsVolume.FileSystem.WalkTree: what a walk finds past a node that is no leaf or index node of the expected level is arbitrary, and the callbacks are reduced to the list of items.
- BtrfsPack.PackLeaf: CRC32C is an arbitrary function of the bytes it covers.
- updateInodeTime (btrfs/writer.go:265-285) inserts a key that is there, which InsertIntoLeaf shows to break the order; it and createFile are not modelled.
- SafeDevice.SafeDevice.WriteAt: writes that reach past the end of the device are excluded.
- SafeDevice.SafeDevice.ReadAt: range patterns that are neither nested nor disjoint (btrfs file reads) break the cache, as ReadsExactIff shows.
- JournalTx.Volume.CommitTransaction: replaying what was committed is not modelled; replay asks for a block header that the data blocks do not carry and starts behind the transaction just logged. The log format is the program's own, not that of the kernel.
- Partition.PartitionReader.WriteAt: a sector size that is no power of two, for which the program skips alignment, is not modelled. The disk is a whole number of sectors long.
- Ext4Fs.FileSystem.AllocateBlock: blocks per group are at most 8 times the block size, group counts fit 16 bits and the volume has fewer than 2^32 blocks. Writing descriptors and the superblock to the device is not modelled, nor is the in-memory state a rollback leaves behind.
- Ext4Grow.AppendExtent: leaf blocks hold at least four entries, as every block of 1024 bytes does. insertIdxIntoParent (vfs/allocate.go:447-618) is modelled for the one call the leaf split makes; what it would do higher up is never reached.
- Ext4Tree.ParseExtentNode: a child whose depth does not fall counts as unreadable, where the program would recurse on.
- Ext4Truncate.TruncateInode: what the block map is afterwards is stated for extents that are not empty and end before the last 32-bit block.
- Ext4Files.WriteFileAt: offsets that are not block-aligned, at which the program stops (FirstSliceInside), and files with holes are excluded. So are writes one of whose new blocks, merged into the last extent or not, would find the rightmost leaf below the root full and split it, which loses blocks (`CanGrowTo`, computed from the free blocks before the write).
- Ext4Dirs.AddDirEntry: indexed directories, the directory cache, directories with holes or untiled blocks, directories whose next block would split a full leaf below the root, and names longer than a block are excluded.
- Ext4Dirs.RemoveDirEntry: indexed directories and directories with holes or untiled blocks are excluded.
- Ext4Dirs.ReadDir: the first block of an indexed directory is parsed differently and is not modelled.
- Xattr.SetXAttr: attribute blocks outside the inode are not modelled (values are written and read against different origins, vfs/xattr.go:181 and 400); an extra size of 1, whose body would overlap the size field itself, is excluded.
- Xattr.ListXAttrs: attribute blocks outside the inode are not modelled, so the list is that of an inode without one.
- Xattr.GetXAttr: the same, as it looks up what ListXAttrs lists.
- Xattr.SerializeXAttrs: the library sort is modelled as an insertion sort; only its result matters.
- Partial I/O errors, time stamps, locks, logging, the FUSE and WinFsp bridges, path-level operations, compression, partition tables, fsck counts and the installer are not part of this model.
