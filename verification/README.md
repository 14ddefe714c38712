# cmfs-tools, verified

A Dafny model of the data structures and on-disk lookups behind the cmfs
userspace tools, with proofs of what they are for. It has four clusters; each
compares step-by-step code over linked nodes, arrays and shared state with a
specification that fits on a page.

**Red-black tree and block cache.** `RbShape`, `RbTree`, `RbErase`, `RbWalk` and
`RbOrder` model `kernel-rbtree.c` on heap nodes with parent pointers; a ghost tree
(and, for a node in the middle, the context around it) says what the pointers mean.
`KernelList` is the circular list, `BlockCache` and `CacheOps` the descriptors, the
list and the tree together, `DiskImage` and `UnixIo` the device and the reads and
writes through the cache. The specification is a plain sequence of bytes for the
device and, in `LruPolicy` and `LruExact`, an exact LRU order. `CacheRun` puts whole
runs of reads, vectored reads and writes, ordinary or nocache, against it, up to the
first write that fails.

**Extent tree.** `ExtentTree` is the tree and its flat list of extents, `Holes` the
distances between them, `ExtentMap`, `BlockMap`, `FileIo`, `ExtentIterate` and
`DebugFs` the four readers: block map, file read, iteration, debugger. All are proved
against the one flat list, so they agree. The arithmetic is that of the code:
`cmfs_clusters_to_blocks` shifts in 32 bits, and `range` and `clstoff` are `uint32_t`. For
each use of it there is the exact condition under which it does no harm: `DescendLookup`
for the descent, `CutExact` for a device block, `HoleCountZero` and `HoleCountExact` for
the length of any hole, `ReadEnds` for the loop of a file read, `WalkExact` for the start
of an extent in a walk, `SoughtExact` for the debugger; the length of an extent is never
changed (`ExtentCount`). `ShiftLimits` holds an input on the wrong side of each.

**Directories.** `DirBlock` is the record format, `DirIterate` the walk (and the scan
for deleted records in slack), `Lookup` the search for a name, `MkfsDir` the packing of
new entries, `Namei` path resolution with symbolic links.

**Bitmaps and allocation.** `BitOps` is the bit search, `FirstFit` the choice of a run
and what runs of choices keep, `MkfsAlloc` the groups, chains and counters of a new
volume, `MkfsRun` the sequences of allocations that make one. Every bitmap of mkfs is,
from the start and after every allocation, a row of set bits and then clear ones
(`Packed`); completeness of the search and its termination rest on that.

`Common` and `Units` are shared: an option type, and the arithmetic of clusters.

## What is assumed

- The cache has at least one block, counts are positive, and no request reaches block
  `UINT64_MAX`. What the system answers to the `k`-th call on the device is `io_sys(k)`: a
  `pread` or `pwrite` may move any number of bytes, none, or fail. Memory is available.
- A vectored read is asked only for blocks on the device, and each of its events
  delivers its whole unit: the code does not look at what the events report.
- An extent tree is well-formed: depth drops by one per level, records are sorted and
  disjoint, children nest in their parent's range, an extent starts on a cluster past the
  first and covers whole clusters. Where a hole is sized, interior records also tile from
  0, leaves are linked in order, and only the last leaf may be empty.
- A name has no zero byte; a buffer is followed by 14 readable bytes, since a record
  is looked at before its length is checked. Directory blocks have no trailer. Bytes are
  little-endian.
- A block that holds the path of a link holds all of it. Path resolution sees a
  directory as a finite map from names to inodes.
- User functions of walks only look; they may stop a directory walk.
- A volume has at least one cluster and its first group is larger than the clusters
  set aside in it. There is room for at least two chains. A block has 4096 bytes, the
  only size mkfs accepts.

## What the code does not do

- The descent of an extent tree misses an extent exactly when the 32-bit `range` of an
  interior record on the way wraps past it (`DescendLookup`), which needs a record that
  ends at or past cluster 2^32 (`FitsVisible`); `RangeWraps` is a tree where it happens.
- A device block comes out right exactly when it is below 2^32 (`CutExact`,
  `AddressCut`).
- A hole is reported as no blocks at all, so that a file read stops advancing, exactly at
  the start of a cluster that is a multiple of 2^32 blocks before the end of the hole
  (`HoleCountZero`). That end is the next extent, or 2^64 - 1 clusters for the last hole:
  `StallsBefore` is a file with an extent 2^32 blocks in, `EndOfRange` one without any.
  The loop of a read ends exactly when it never comes to such a block (`ReadEnds`,
  `ReadStalls`).
- The hole reported runs over a mapped block exactly when the block asked for lies inside
  such a cluster and an extent follows within 2^64 blocks (`HoleCountExact`, `RunsOver`).
- A walk puts an extent that starts at or past block 2^32 where the shift puts it. It is
  right exactly when there is no such extent, but for empty ones and those that are put at
  or past the limit of the walk (`WalkExact`); `WalksHole` is a walk that visits a hole.
- The debugger cuts the number of the cluster it looks for to 32 bits, and skips interior
  records whose number of clusters is cut too short. `SoughtExact` says when its answer is
  right; `PrintsElsewhere` and `PrintsNothing` are answers that are not.
- A file whose size rounded up to blocks does not fit in 64 bits reads as empty.
- A bit search can answer an index past the size: exactly when it starts inside a byte and
  the first bit it meets in that byte lies past it (`Passes`, `PastSize`). The answer still
  is at least the size exactly when there is nothing to find.
- mkfs puts every group but the first at the same place. The groups that have clusters to
  give lie apart exactly when at most one of them is not the first (`InitialDisjoint`), and
  some requests are given overlapping extents exactly when the volume has more than
  64513 clusters (`OverlapExact`, `CrowdedFrom`): asking for every free cluster, one at a
  time, is such a list (`Overlapping`).
- `chain_free` of a new volume is the clear count of the last group put into the chain; it
  is the chain's own exactly when the other groups have none (`InitialChainFree`). An
  allocation keeps the difference (`ChainFree`), so the 32-bit count can pass below zero:
  `ShortChainFree` is the volume with one group of two bits more than there are chains.
- mkfs leaves a chain at the first group with enough clear bits, even when they are not in
  a row (`HiddenRun`). On its own bitmaps they always are, and an allocation of `n` bits
  fails only if no group of the volume has `n` clear bits (`Complete`).
- The search of `alloc_from_group` ends exactly when the first gap is long enough or the
  last (`EndsExactly`), and goes round for ever otherwise (`Stuck`). In the inode group of
  mkfs it always ends, whatever lengths are asked for (`FillGroup`).
- `rb_replace_node` and the erase of a node leave the old node's own fields as they were.

## Model

| member | source | states |
|---|---|---|
| `RbTree.RotateLeft` | cmfs-tools/libcmfs/kernel-rbtree.c:33-51 | the six pointer writes of a left rotation, for a node, its right child, the child's left subtree and the parent or root pointer |
| `RbTree.RotateLeftAt` | cmfs-tools/libcmfs/kernel-rbtree.c:33-51 | in any context, a left rotation turns the linked tree into its rotation: same nodes, same order, all four pointers of every node consistent |
| `RbTree.RotateRight` | cmfs-tools/libcmfs/kernel-rbtree.c:53-71 | the mirror writes |
| `RbTree.RotateRightAt` | cmfs-tools/libcmfs/kernel-rbtree.c:53-71 | the mirror of the above |
| `RbTree.LinkNode` | cmfs-tools/include/cmfs/kernel-rbtree.h:131-139 | the node hangs as a red leaf at the given link and nothing else changes |
| `RbTree.RecolorUncle` | cmfs-tools/libcmfs/kernel-rbtree.c:81-92 | the recolouring step moves the only possible red-red violation two levels up, keeping black heights |
| `RbTree.InsertTurnRight` | cmfs-tools/libcmfs/kernel-rbtree.c:94-108 | the rotation steps on the left side end with a red-black tree |
| `RbTree.InsertTurnLeft` | cmfs-tools/libcmfs/kernel-rbtree.c:109-132 | the mirror case |
| `RbTree.InsertColor` | cmfs-tools/libcmfs/kernel-rbtree.c:73-136 | from a tree that is red-black but for one red node under a red parent or root: terminates in a valid red-black tree with the same nodes in the same order |
| `RbTree.InsertAt` | cmfs-tools/libcmfs/kernel-rbtree.c:73-136 | linking at a leaf hole and fixing up: a valid tree of the old nodes plus the new one, the order being the old order with the node at the hole |
| `RbTree.EraseRoundLeft` | cmfs-tools/libcmfs/kernel-rbtree.c:145-183 | one round on the left side: red sibling, black nephews, one red nephew, each either ends or moves the missing black one level up |
| `RbTree.EraseRoundRight` | cmfs-tools/libcmfs/kernel-rbtree.c:184-224 | the mirror round |
| `RbTree.EraseColor` | cmfs-tools/libcmfs/kernel-rbtree.c:138-228 | pays back one missing black node: terminates in a valid red-black tree, same nodes, same order |
| `RbErase.Unlink` | cmfs-tools/libcmfs/kernel-rbtree.c:236-258 | a node with at most one child is spliced out of the linked tree |
| `RbErase.Successor` | cmfs-tools/libcmfs/kernel-rbtree.c:240-243 | the walk to the leftmost node of the right subtree ends at the next node in order, without a left child |
| `RbErase.EraseTwoChildren` | cmfs-tools/libcmfs/kernel-rbtree.c:240-279 | removing a node with two children by its successor: exactly that node leaves the order, the colours stay valid |
| `RbErase.Erase` | cmfs-tools/libcmfs/kernel-rbtree.c:230-302 | for every node of every valid tree: the new order is the old one without that node, pointers are consistent, the root is black, no red node has a red child and black heights are equal |
| `RbErase.ReplaceNode` | cmfs-tools/libcmfs/kernel-rbtree.c:373-394 | the tree afterwards is the tree before with the new node in the place of the victim |
| `RbWalk.First` | cmfs-tools/libcmfs/kernel-rbtree.c:307-317 | the first node in order, or null for an empty tree |
| `RbWalk.Last` | cmfs-tools/libcmfs/kernel-rbtree.c:319-329 | the last node in order, or null |
| `RbWalk.Next` | cmfs-tools/libcmfs/kernel-rbtree.c:331-352 | the first of all nodes behind the given one in order, or null, by way of child and parent pointers |
| `RbWalk.Prev` | cmfs-tools/libcmfs/kernel-rbtree.c:354-371 | the last of all nodes before it, or null |
| `RbWalk.NeighboursOf` | cmfs-tools/libcmfs/kernel-rbtree.c:331-371 | in a valid tree both walks give the two neighbours in the one order of the tree |
| `RbShape.PlugInorder` | cmfs-tools/libcmfs/kernel-rbtree.c:33-71 | the order of a tree is that of a subtree between what lies before and behind it, the fact behind every local rewrite |
| `RbShape.HeightBound` | cmfs-tools/libcmfs/kernel-rbtree.c:73-302 | two to the height is at most the square of the number of nodes plus one: height at most 2*log2(n+1) |
| `RbOrder.OrderedInorder` | cmfs-tools/libcmfs/unix_io.c:274-291 | a tree is a search tree exactly when its nodes in order have increasing keys |
| `KernelList.ListAdd` | cmfs-tools/include/cmfs-kernel/kernel-list.h:52-55 | the ring gains the entry at the front |
| `KernelList.ListAddTail` | cmfs-tools/include/cmfs-kernel/kernel-list.h:60-63 | the ring gains the entry at the end |
| `KernelList.ListDel` | cmfs-tools/include/cmfs-kernel/kernel-list.h:79-82 | the ring loses exactly the entry, both directions stay consistent |
| `BlockCache.IoCache.constructor` | cmfs-tools/libcmfs/unix_io.c:662-707 | a new cache: every descriptor on the list once, none in the tree |
| `BlockCache.IoCacheLookup` | cmfs-tools/libcmfs/unix_io.c:274-291 | finds the descriptor of a block exactly when one is in the tree, visiting at most as many nodes as the tree is high |
| `BlockCache.IoCacheInsert` | cmfs-tools/libcmfs/unix_io.c:293-316 | a descriptor with a new block number enters the tree at its ordered place; the duplicate-key assertion cannot be reached |
| `BlockCache.IoCacheSeen` | cmfs-tools/libcmfs/unix_io.c:318-323 | to the recent end of the list |
| `BlockCache.IoCacheUnsee` | cmfs-tools/libcmfs/unix_io.c:325-334 | to the steal-next end of the list |
| `BlockCache.IoCacheDisconnect` | cmfs-tools/libcmfs/unix_io.c:336-348 | out of the tree, and the number becomes UINT64_MAX; the rest of the tree stays |
| `BlockCache.IoCachePopLru` | cmfs-tools/libcmfs/unix_io.c:350-359 | the descriptor at the head of the list, no longer naming a block; the list is never empty |
| `CacheOps.Cached` | cmfs-tools/libcmfs/unix_io.c:274-291 | in every reachable state a block is found exactly when it is cached, and two to the number of steps is at most the square of the number of cached blocks plus one |
| `CacheOps.StoreIn` | cmfs-tools/libcmfs/unix_io.c:540-569 | storing a block: it is cached with the new bytes, no other block's bytes change, the recency order is that of one access |
| `CacheOps.FetchIn` | cmfs-tools/libcmfs/unix_io.c:458-494 | the second loop of a read for one block: the bytes, the recency order of one access, no other block's bytes change |
| `LruExact.ExactLru` | cmfs-tools/libcmfs/unix_io.c:318-359 | after every history of ordinary accesses the recency order is the ideal one: the most recent distinct blocks, newest last, at most the number of slots |
| `LruExact.CachedExactly` | cmfs-tools/libcmfs/unix_io.c:350-359 | a block is cached if and only if it was accessed and fewer than `n` other blocks were accessed since |
| `LruExact.VictimOldest` | cmfs-tools/libcmfs/unix_io.c:350-359 | every other cached block was accessed after the victim |
| `LruExact.NocacheKeeps` | cmfs-tools/libcmfs/unix_io.c:325-334 | a nocache access never changes the cached set and makes a hit the next victim |
| `DiskImage.WriteCoherent` | cmfs-tools/libcmfs/unix_io.c:222-260 | a write of any number of bytes can make only the blocks it reaches differ from what is cached |
| `UnixIo.UnixIoWriteBlockFull` | cmfs-tools/libcmfs/unix_io.c:222-260 | a prefix of the bytes is on the device and `completed` is its number of whole blocks; it succeeds, with all bytes written, if and only if every `pwrite` it makes moves at least a byte and the range lies on the device; short writes do not matter |
| `UnixIo.UnixIoReadBlock` | cmfs-tools/libcmfs/unix_io.c:182-220 | all bytes that were read are the device's; it succeeds, with all of them, if and only if every `pread` it makes delivers at least a byte and the range lies on the device; short reads do not matter |
| `UnixIo.CachedPrefix` | cmfs-tools/libcmfs/unix_io.c:431-445 | how many leading blocks are cached, and the next one is not |
| `UnixIo.SyncBlocks` | cmfs-tools/libcmfs/unix_io.c:447-494 | after the device read every block of the request is served, cached blocks from the cache, the others from the buffer, and all are touched in order; the descriptor assertion cannot fire |
| `UnixIo.IoCacheReadBlocks` | cmfs-tools/libcmfs/unix_io.c:424-498 | it fails if and only if a `pread` it makes fails or the range is not on the device; on success exactly the device's bytes, on failure nothing changes; no `pread` is made when all blocks are cached |
| `UnixIo.IoCacheReadBlock` | cmfs-tools/libcmfs/unix_io.c:500-525 | the same for reads of any size in hunks of one megabyte: success exactly when every `pread` made delivers and the range is on the device; after a failure, the blocks of the whole hunks done so far |
| `UnixIo.ReadIsDisk` | cmfs-tools/libcmfs/unix_io.c:500-525 | the blocks of a successful read are the bytes of the device at that position |
| `UnixIo.UnixVecReadBlocks` | cmfs-tools/libcmfs/unix_io.c:123-180 | it succeeds exactly when its system call does, and then each unit gets the device's bytes |
| `UnixIo.IoCacheVecReadBlocks` | cmfs-tools/libcmfs/unix_io.c:364-411 | each unit gets the device's bytes and its blocks are refreshed in the cache in order |
| `UnixIo.IoCacheWriteBlocks` | cmfs-tools/libcmfs/unix_io.c:532-577 | whatever part reached the device, the cache agrees with the device on every block but at most the one torn block; it succeeds exactly when every `pwrite` made moves at least a byte and the range is on the device, and then they agree everywhere |
| `CacheRun.Step` | cmfs-tools/libcmfs/unix_io.c:364-577 | one read, write or vectored read, ordinary or nocache, as far as it gets: it acts as on a plain device, on the recency order as its accesses one by one, and leaves the cache in agreement with the device but for a block that a failed write left half written; it fails only if a system call it made did or the blocks asked for are not on the device |
| `CacheRun.Run` | cmfs-tools/libcmfs/unix_io.c:364-577 | over every run of these from the opening of the channel up to the first write that fails: every read, failing ones included, answers what the plain device holds at that moment, an operation succeeds exactly when the system calls made for it do and its blocks are on the device, the recency order is that of the accesses, and at the end the cache agrees with the device but for that one block |
| `CacheRun.OrdinaryRun` | cmfs-tools/libcmfs/unix_io.c:318-359 | after every run without nocache the cache holds the most recent distinct blocks, as an exact LRU cache would |
| `BlockMap.ShiftExact` | cmfs-tools/include/cmfs/cmfs.h:409-417 | the shift keeps a number of clusters if and only if it is below 2^32 blocks |
| `BlockMap.ExtentCount` | cmfs-tools/include/cmfs/cmfs.h:472-505 | the clusters of a leaf record, less those before the block, shifted and less the offset in the cluster: exactly the blocks left in the extent |
| `ExtentTree.LookupSome` | cmfs-tools/libcmfs/extent_tree.c:320-343 | the flat map finds a record exactly when one covers the cluster |
| `ExtentTree.LeavesSorted` | cmfs-tools/libcmfs/extent_tree.c:39-129 | the leaves of a well-formed tree, left to right, are one sorted list of disjoint extents |
| `ExtentTree.DescendLookup` | cmfs-tools/libcmfs/extent_tree.c:54-78 | the leaf that the descent reaches maps a cluster as the whole tree does if and only if the cluster is a hole or no 32-bit `range` on the way wraps past it |
| `ExtentTree.FitsVisible` | cmfs-tools/libcmfs/extent_tree.c:54-78 | within 32 bits no `range` wraps |
| `ShiftLimits.RangeWraps` | cmfs-tools/libcmfs/extent_tree.c:59-68 | a concrete well-formed tree for which the lookup reports a hole where an extent is mapped |
| `ExtentMap.ReadExtentBlock` | cmfs-tools/libcmfs/extents.c:123-174 | a number below the superblock or past the device is a bad block number, a block that is no extent block has a bad signature, one with more records than it has room for is corrupted, and every other is read |
| `ExtentMap.FindPath` | cmfs-tools/libcmfs/extent_tree.c:39-129 | on a well-formed tree of depth below 5 the descent terminates, never fails, and fills exactly the path slots up to the root's depth with the blocks on the way |
| `ExtentMap.TreeFindLeaf` | cmfs-tools/libcmfs/extent_tree.c:267-299 | the leaf block at the end of that path |
| `ExtentMap.SearchExtentList` | cmfs-tools/libcmfs/extent_tree.c:320-343 | the first record that covers the cluster, or -1 when none does |
| `ExtentMap.SearchForHoleIndex` | cmfs-tools/libcmfs/extent_map.c:41-53 | the first record that starts past the cluster, or the end of the list |
| `ExtentMap.FigureHoleClusters` | cmfs-tools/libcmfs/extent_map.c:66-130 | with a correct link to the next leaf: the size of the hole in the whole file |
| `ExtentMap.GetClusters` | cmfs-tools/libcmfs/extent_map.c:132-210 | for every well-formed tree and cluster: a mapping exactly when the leaf reached has a covering record, with its cluster, flags and remaining length; otherwise a hole of the whole file's size |
| `Holes.HoleSizeExact` | cmfs-tools/libcmfs/extent_map.c:41-130 | a reported hole covers no mapped cluster; without empty records it ends exactly at the next mapped one |
| `Holes.PlacedLeaf` | cmfs-tools/libcmfs/extent_tree.c:54-78 | with records that tile and linked leaves, everything before the leaf reached lies before the cluster and everything after it past it |
| `Holes.HoleAcross` | cmfs-tools/libcmfs/extent_map.c:84-121 | the next extent is in the leaf or is the first record of the next one |
| `BlockMap.ExtentMapGetBlocks` | cmfs-tools/libcmfs/extent_map.c:212-253 | device block, flags and count from the extent reached, cut to 32 bits as the code cuts them; a hole's count from the whole file |
| `BlockMap.CutExact` | cmfs-tools/libcmfs/extent_map.c:226-239 | the 32-bit cut leaves the device block right if and only if it is below 2^32 |
| `BlockMap.WholeTree` | cmfs-tools/libcmfs/extent_map.c:132-210 | within the 32-bit bound the leaf reached speaks for the whole tree |
| `BlockMap.HoleCount` | cmfs-tools/libcmfs/extent_map.c:226-245 | within the bound a hole has at least one block and covers no mapped one |
| `BlockMap.HoleCountZero` | cmfs-tools/libcmfs/extent_map.c:236-245 | the count of any hole is 0, so that a reader stops advancing, if and only if the block starts a cluster that is a multiple of 2^32 blocks before the end of the hole |
| `BlockMap.HoleCountExact` | cmfs-tools/libcmfs/extent_map.c:236-245 | the count of any hole runs over a mapped block if and only if the block lies inside a cluster that is a multiple of 2^32 blocks before the end of the hole, and an extent follows within 2^64 blocks |
| `ShiftLimits.EndOfRange` | cmfs-tools/libcmfs/extent_map.c:236-245 | for every cluster size, a file without extents and a block where the count is 0 |
| `ShiftLimits.StallsBefore` | cmfs-tools/libcmfs/extent_map.c:236-245 | for every cluster size, a file with an extent 2^32 blocks in, where the count at block 0 is 0 |
| `ShiftLimits.RunsOver` | cmfs-tools/libcmfs/extent_map.c:236-245 | for every cluster size above one block, a file where the count at block 1 is 2^64 - 1 and runs over a mapped block |
| `ShiftLimits.ReadStalls` | cmfs-tools/libcmfs/fileio.c:84-130 | for every cluster size, a file of which a read from the start never ends |
| `ShiftLimits.AddressCut` | cmfs-tools/libcmfs/extent_map.c:226-239 | for every cluster size, a file whose first cluster is at device block 2^32: the block map answers 0, the number of a hole |
| `ShiftLimits.WalksHole` | cmfs-tools/libcmfs/extents.c:525-527 | for every cluster size, a file of at most one block of which the walk visits that block, a hole |
| `ShiftLimits.PrintsElsewhere` | cmfs-tools/debugfs.cmfs/commands.c:379-400 | for every cluster size, a file and a block 2^32 clusters out, a hole, for which the debugger prints a device block |
| `FileIo.NextRun` | cmfs-tools/libcmfs/fileio.c:84-99 | a lookup that is right gets at least one block, all mapped in a row or all without data |
| `FileIo.CmfsFileRead` | cmfs-tools/libcmfs/fileio.c:46-130 | as long as the lookups at the blocks the loop comes to are right: it succeeds exactly when the system calls made do and the data is on the device, `got` is min(count, i_size - offset), or 0 past the end and for a size that does not fit in 64 bits when rounded up to blocks, and every byte of the buffer is the device's byte, or 0 in a hole or an extent with bit 0x01 of its flags; misalignment is the only other failure; the loop ends |
| `FileIo.ContentsBytes` | cmfs-tools/libcmfs/fileio.c:84-125 | byte by byte, the abstract file is the device where an extent without bit 0x01 maps the block, and 0 elsewhere |
| `FileIo.ReadEnds` | cmfs-tools/libcmfs/fileio.c:84-130 | the loop ends if and only if it never comes, in a hole, to the start of a cluster that is a multiple of 2^32 blocks before the end of the hole |
| `FileIo.FineWithin` | cmfs-tools/libcmfs/fileio.c:84-130 | every lookup is right in a tree within 32 bits, for a read that ends a cluster below 2^32 |
| `ExtentIterate.BlockIterateFunc` | cmfs-tools/libcmfs/extents.c:511-541 | the blocks of one extent below the limit, in a row from where the 32-bit shift puts its start |
| `ExtentIterate.ExtentIterateEl` | cmfs-tools/libcmfs/extents.c:250-324 | all extents below a list, in order, and the buffers of this level and above are untouched by the recursion |
| `ExtentIterate.ExtentIterateEb` | cmfs-tools/libcmfs/extents.c:326-405 | the same through one interior record, reading into the buffer one level down |
| `ExtentIterate.WalkExact` | cmfs-tools/libcmfs/extents.c:525-537 | a walk visits exactly the mapped blocks below the limit, in order, once each, where the block map has them, if and only if every extent is empty, or starts below block 2^32, or is put at or past the limit |
| `ExtentIterate.BlockIterateInode` | cmfs-tools/libcmfs/extents.c:543-570 | iteration over every well-formed tree is that walk of its extents up to `i_size`, and the run of mapped blocks under exactly that condition |
| `ExtentIterate.MappedOnly` | cmfs-tools/libcmfs/extents.c:511-541 | every visit is of a mapped block within the range, with the block map's device block and flags |
| `ExtentIterate.MappedInOrder` | cmfs-tools/libcmfs/extents.c:511-541 | visits are in increasing file order, so once each |
| `ExtentIterate.MappedAll` | cmfs-tools/libcmfs/extents.c:511-541 | every mapped block in the range is visited |
| `DebugFs.FindBlockOffset` | cmfs-tools/debugfs.cmfs/commands.c:367-432 | on every well-formed tree and for every block: what the flat map says of the block it looks for, if no record on the way that covers it is skipped, and 0 otherwise, though it chooses its path differently |
| `DebugFs.SoughtExact` | cmfs-tools/debugfs.cmfs/commands.c:379-400 | that is right for a block of the first 2^32 clusters if and only if it is a hole or found; for any other if and only if it is a hole and the debugger comes to nothing, or what it comes to is an extent with the same device block |
| `DebugFs.SeesBelow` | cmfs-tools/debugfs.cmfs/commands.c:383-393 | in a tree below 2^32 clusters no record is skipped |
| `DebugFs.SameAnswer` | cmfs-tools/debugfs.cmfs/commands.c:367-432 | where both see the block, the debugger and the block map agree if and only if it is a hole or its device block is below 2^32 |
| `DebugFs.CalcNumExtents` | cmfs-tools/debugfs.cmfs/commands.c:1039-1092 | in 32 bits, counts every extent that maps something exactly once, but for those below a last record whose clusters are cut to 0, and of the empty records exactly those that are neither the last of their list nor below such a record |
| `DebugFs.NonEmptyIs` | cmfs-tools/debugfs.cmfs/commands.c:1055-1066 | the extents counted are the records of at least one cluster |
| `DebugFs.NoneMissed` | cmfs-tools/debugfs.cmfs/commands.c:1055-1066 | in a tree below 2^32 clusters no extent is missed |
| `DirBlock.BytesRoundTrip` | cmfs-tools/libcmfs/dirblock.c:73-80 | a number written as little-endian bytes is read back |
| `DirBlock.SwapDirEntries` | cmfs-tools/libcmfs/dirblock.c:91-127 | on a little-endian machine the block is reported corrupted exactly if a record before its end is bad |
| `DirBlock.ChainPasses` | cmfs-tools/libcmfs/dirblock.c:91-127 | records that tile a block pass that check |
| `DirIterate.ValidateEntry` | cmfs-tools/libcmfs/dir_iterate.c:49-64 | true exactly if good records lead from the offset to the end |
| `DirIterate.SkipToDeleted` | cmfs-tools/libcmfs/dir_iterate.c:118-128 | the scan of slack stops at the first place, in steps of four, from which records lead to the end |
| `DirIterate.FirstPlaceLeads` | cmfs-tools/libcmfs/dir_iterate.c:118-128 | records do lead from there to the end of the slack |
| `DirIterate.FirstPlaceLeast` | cmfs-tools/libcmfs/dir_iterate.c:118-128 | and from no earlier place |
| `DirIterate.ShownNames` | cmfs-tools/libcmfs/dir_iterate.c:80-90 | a record is shown exactly if it is in use or free ones are wanted, and it is not `.` or `..` when these are not wanted |
| `DirIterate.NextPlaceLeast` | cmfs-tools/libcmfs/dir_iterate.c:118-128 | when deleted entries are wanted, the walk goes on at the first place past the 8 header bytes and the name, on a word, from which records lead to the end of the record |
| `DirIterate.ProcessDirEntry` | cmfs-tools/libcmfs/dir_iterate.c:66-136 | with or without deleted entries: unless stopped, exactly the live records are shown as live, in order, once each; what is shown as deleted lies in the slack of a live record, past its 8 header bytes and its name; corruption is reported if and only if the live records do not tile the block; the places visited and the labels (1, 2, then 3, and 4 for deleted ones) are exactly those of the scan; it terminates |
| `DirIterate.ProcessDirBlock` | cmfs-tools/libcmfs/dir_iterate.c:138-181 | a block that fails the check is reported corrupted and not walked; one that passes is walked, with the labels and places of the scan, and reported corrupted, unless stopped, exactly if its live records do not tile it |
| `Lookup.LookupProcExact` | cmfs-tools/libcmfs/lookup.c:46-62 | the comparison by length and `strncmp` is equality of names |
| `Lookup.LookupBlock` | cmfs-tools/libcmfs/lookup.c:46-62 | the first entry in use with the name in one block; for any bytes in the block, whether it is rejected, the first record in use that matches on the way, or a record that cannot be stepped over |
| `Lookup.CmfsLookup` | cmfs-tools/libcmfs/lookup.c:64-102 | in a directory tiled by records: the inode of the first entry in use with the name, and file-not-found exactly when there is none; in any other, the first block with a match or a bad record decides, whatever the later ones hold |
| `Lookup.WalkOrder` | cmfs-tools/libcmfs/dir_iterate.c:79-133 | a plain walk shows the entries in use in record order |
| `MkfsDir.AddEntryToDirectory` | cmfs-tools/mkfs.cmfs/mkfs.c:1405-1476 | whether it splits the last record or grows by a block, the directory holds its old entries and then the new one, whose inode number is that of the block the byte offset lies in, and stays tiled; only a directory adds to the link count |
| `MkfsDir.AddAll` | cmfs-tools/mkfs.cmfs/mkfs.c:1841-1871 | after any number of additions the directory holds the entries in insertion order |
| `MkfsDir.PassesChecks` | cmfs-tools/libcmfs/dirblock.c:91-127 | every block of such a directory passes both validity checks |
| `MkfsDir.BuildAndLookup` | cmfs-tools/libcmfs/lookup.c:64-102 | building a directory and looking a name up gives the number of the block that the byte offset of the first item with that name lies in, or not-found exactly when no item has it |
| `Namei.FollowLink` | cmfs-tools/libcmfs/namei.c:51-122 | a link resolves to what its path resolves to one level deeper, anything else to itself |
| `Namei.NextName` | cmfs-tools/libcmfs/namei.c:151-162 | the next component, and whether it is the last |
| `Namei.DirNamei` | cmfs-tools/libcmfs/namei.c:132-190 | the directory that all components but the last lead to, and the last component |
| `Namei.OpenNamei` | cmfs-tools/libcmfs/namei.c:192-258 | the recursive specification `Resolve`, on every file system, cyclic links included; it terminates |
| `Namei.CmfsNamei` | cmfs-tools/libcmfs/namei.c:260-278 | `Resolve` from the outside; a name behind `k` links in a row is that of the directory they lead to if `k` is at most 6, and a loop error otherwise |
| `Namei.LinkChain` | cmfs-tools/libcmfs/namei.c:84-87 | from level 0, `k` links in a row are followed if and only if `k` is at most 6, and give the loop error otherwise; from level `n`, if and only if `n + k` is |
| `Namei.SelfLink` | cmfs-tools/libcmfs/namei.c:84-87 | a link to itself gives the loop error from whichever level |
| `Namei.TrailingSlash` | cmfs-tools/libcmfs/namei.c:215-220 | with a trailing slash every component is looked up and followed and the directory itself is the answer |
| `Namei.PathsCompose` | cmfs-tools/libcmfs/namei.c:132-190 | a path followed by a slash and more components is resolved from the directory the path leads to, or from the root if the path is empty, and fails as the path fails |
| `BitOps.SetBit` | cmfs-tools/libcmfs/bitops.c:47-57 | sets exactly that bit and returns what it was |
| `BitOps.ClearBit` | cmfs-tools/libcmfs/bitops.c:59-69 | clears exactly that bit and returns what it was |
| `BitOps.TestBit` | cmfs-tools/libcmfs/bitops.c:71-79 | the bit |
| `BitOps.FindNextBitSet` | cmfs-tools/libcmfs/bitops.c:91-127 | for every size and offset: the least set bit at or after the offset, and at least `size` exactly when there is none below `size`; past `size` exactly when the search starts inside a byte and the first set bit there lies past it |
| `BitOps.FindNextBitClear` | cmfs-tools/libcmfs/bitops.c:129-164 | the same for clear bits |
| `BitOps.NextIsScan` | cmfs-tools/libcmfs/bitops.c:91-164 | that is what a search bit by bit gives |
| `BitOps.GetBitsSet` | cmfs-tools/libcmfs/bitops.c:166-180 | the number of set bits from the offset up to the size |
| `FirstFit.FindClearBits` | cmfs-tools/mkfs.cmfs/mkfs.c:1185-1225 | the lowest start of a run of `num_bits` clear bits, or -1 |
| `FirstFit.FirstRunLeast` | cmfs-tools/mkfs.cmfs/mkfs.c:1185-1225 | `FirstRun` finds the lowest run, and finds none only if there is none |
| `FirstFit.ChosenExact` | cmfs-tools/mkfs.cmfs/mkfs.c:1240-1259 | an allocation succeeds if and only if in some chain the first group with enough clear bits has them in a row |
| `FirstFit.ChosenComplete` | cmfs-tools/mkfs.cmfs/mkfs.c:1240-1259 | for one bit, on bitmaps without gaps, or with no more groups than chains, that is whenever any group has the run |
| `FirstFit.ChosenPacked` | cmfs-tools/mkfs.cmfs/mkfs.c:1286-1289 | an allocation leaves bitmaps without gaps without gaps |
| `FirstFit.PackedRun` | cmfs-tools/mkfs.cmfs/mkfs.c:1185-1225 | in a bitmap without gaps the lowest run of `n` clear bits starts at the first clear bit, if there are `n` |
| `FirstFit.GrantsApart` | cmfs-tools/mkfs.cmfs/mkfs.c:1286-1289 | over any run of allocations no two ranges of one group overlap |
| `FirstFit.ClustersApart` | cmfs-tools/mkfs.cmfs/mkfs.c:1273-1289 | and no two ranges of clusters do, as long as the groups with clear bits lie apart |
| `FirstFit.Drained` | cmfs-tools/mkfs.cmfs/mkfs.c:1240-1289 | bits can be asked for one at a time until no group has one left |
| `FirstFit.DebtZero` | cmfs-tools/mkfs.cmfs/mkfs.c:1079-1082 | the clear bits of a chain are those of its last group if and only if its other groups have none |
| `MkfsAlloc.CalcClusterGroups` | cmfs-tools/include/cmfs/cmfs.h:185-201 | the groups cover the clusters exactly and none is larger than its bitmap |
| `MkfsAlloc.AllocGroup.constructor` | cmfs-tools/mkfs.cmfs/mkfs.c:928-971 | a group with bit 0 set, its count right, and both counters of its inode advanced |
| `MkfsAlloc.AllocBitmap.AddGroup` | cmfs-tools/mkfs.cmfs/mkfs.c:1064-1092 | one more group, linked from the group before it in its chain; counts and totals stay balanced |
| `MkfsAlloc.InitializeBitmap` | cmfs-tools/mkfs.cmfs/mkfs.c:973-1108 | the bits of every group, without gaps; the first descriptor lies past block 2, at the next start of a cluster; free counts are clear bits, used and free bits make up the total, which is the number of clusters, so its own check never fails; the free count of each chain is that of its last group |
| `MkfsAlloc.InitialChainFree` | cmfs-tools/mkfs.cmfs/mkfs.c:1079-1082 | that count is the clear bits of the whole chain if and only if its other groups have none |
| `MkfsAlloc.ShortChainFree` | cmfs-tools/mkfs.cmfs/mkfs.c:1079-1082 | the volume with one group of two bits more than there are chains: the first chain counts 1 clear bit, the next allocation of two takes it past zero |
| `MkfsAlloc.InitialDisjoint` | cmfs-tools/mkfs.cmfs/mkfs.c:1053-1086 | the groups with clear bits lie apart if and only if at most one of them is not the first |
| `MkfsAlloc.AllocBitmap.FindBits` | cmfs-tools/mkfs.cmfs/mkfs.c:1240-1259 | the loops over chains and groups find what `Choose` says |
| `MkfsAlloc.AllocBitmap.Complete` | cmfs-tools/mkfs.cmfs/mkfs.c:1240-1259 | on every bitmap that initialization and allocations make, an allocation of `n` bits succeeds if and only if some group has `n` clear bits |
| `MkfsAlloc.AllocBitmap.AllocFromBitmap` | cmfs-tools/mkfs.cmfs/mkfs.c:1227-1292 | succeeds exactly then; takes exactly the range chosen, keeps every count, the balance and the absence of gaps, answers its address, and changes nothing when it fails |
| `MkfsAlloc.AllocBitmap.ChainFree` | cmfs-tools/mkfs.cmfs/mkfs.c:1280-1284 | at every moment the free count of a chain is, in 32 bits, its clear bits less what was never counted, which allocations do not change |
| `MkfsAlloc.AllocGroup.AllocFromGroup` | cmfs-tools/mkfs.cmfs/mkfs.c:874-905 | takes the lowest run of `count` clear bits, or fails when there is none |
| `MkfsAlloc.EndsExactly` | cmfs-tools/mkfs.cmfs/mkfs.c:884-898 | the search ends if and only if the first gap is long enough or the last; otherwise it goes round for ever |
| `MkfsAlloc.AllocGroup.AllocInode` | cmfs-tools/mkfs.cmfs/mkfs.c:907-917 | the lowest clear bit, the byte offset of its block of 4096 bytes, and the counters |
| `MkfsAlloc.InodesInOrder` | cmfs-tools/mkfs.cmfs/mkfs.c:907-917 | the inodes of a new group are handed out one after the other until it is full |
| `MkfsRun.AllocEach` | cmfs-tools/mkfs.cmfs/mkfs.c:1797-1870 | any sequence of allocations is given what `Served` says, one range after the other, up to the first request that no group has enough clear bits for |
| `MkfsRun.Format` | cmfs-tools/mkfs.cmfs/mkfs.c:1797-1870 | from the empty bitmap on: the extents handed out are the plan, all behind the cluster of the first descriptor and so behind the superblock; up to 64513 clusters no two ever overlap, and used and free clusters make up the volume |
| `MkfsRun.PlanBehind` | cmfs-tools/mkfs.cmfs/mkfs.c:1020-1040 | no extent starts before the cluster behind the first descriptor, whichever group it comes from |
| `MkfsRun.OverlapExact` | cmfs-tools/mkfs.cmfs/mkfs.c:1053-1086 | some requests are given overlapping extents if and only if two groups other than the first have a bit to give |
| `MkfsRun.Overlapping` | cmfs-tools/mkfs.cmfs/mkfs.c:1084-1086 | such a list of requests: every free cluster, one at a time |
| `MkfsRun.CrowdedFrom` | cmfs-tools/include/cmfs/cmfs.h:185-201 | which is the case from 64514 clusters on |
| `MkfsRun.FillGroup` | cmfs-tools/mkfs.cmfs/mkfs.c:874-971 | ranges of any lengths taken from a new inode group: every search ends, the ranges follow each other, and the first that fails is longer than what is left |

## Left out

- Real device access, libaio, locking of memory, ioctls and device probing: the device is a sequence of bytes.
- The kernel patches and the journal.
- Command parsing, printing, progress and verbosity of all programs.
- Big-endian byte swapping: on a little-endian machine it is the identity, and only that case is modelled.
- Directory trailers, inline data and indexed directories.
- The terminating zero byte that `strcpy` writes behind a name: an entry is its `name_len` bytes.
- User functions that change records or extents, and the writing back that follows.
- `last_eb_blkno` and `last_eb_cpos` of extent iteration, which only matter to functions that change the tree.
- Hit and miss counters of the cache, and sharing one cache between channels.
- Superblock, inode and label fields of a new volume, and the sizes mkfs works out before it allocates.
- `find_max_contig_free_bits` and `cmfs_read_group_desc`, which do not compute what they are named for.
- ExtentMap.GetClusters: says nothing about the size of a hole when leaves are not linked in order, because the code then reads a wrong block.
- MkfsAlloc.AllocGroup.AllocFromGroup: covers only calls that come to an end; `EndsExactly` says which these are, and `FillGroup` that mkfs makes no others.
- MkfsAlloc.InitializeBitmap: the number of clusters is not cut to 32 bits, because the caller passes it as one.
- ExtentMap.ReadExtentBlock: the read of an extent block that passes the range check does not fail; extent blocks come from a map, file data through the cached device.
- UnixIo.UnixVecReadBlocks: the submission and the events of a vectored read are one call; when it succeeds every unit is delivered whole, because the code does not look at what the events report.
- MkfsDir.AddEntryToDirectory: does not cover the reuse of an empty last record, because mkfs adds no entry with inode 0, so the last record is always in use.
- CacheRun.Run: stops at the first write that fails, after which one block of the cache may differ from the device; `UnixIo.IoCacheWriteBlocks` says which.
- Namei.OpenNamei: looks names up in a finite map per directory instead of its blocks; `Lookup.CmfsLookup` is the lookup in blocks.
- BlockMap.ExtentMapGetBlocks: cuts device blocks at 2^32 as the code does; `CutExact` says when that is harmless.
