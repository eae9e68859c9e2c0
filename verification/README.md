# Panix kernel data structures, verified

A Dafny model of the hand-written stateful cores of the Panix kernel, with proofs about every run of
them. The code is modelled as it is written. Where it does not do what its comments or callers
expect, the model keeps the code, and a contract or lemma says exactly when things go well (see
"Findings").

| files | subject |
|---|---|
| `RbShape`, `RbFix`, `RbHeap`, `RbDelete`, `RbTree` | red-black tree with parent pointers: shapes and order, repair steps, nodes in memory, what a deletion takes away, the class |
| `FreeLists`, `HeapBins`, `HeapTiles`, `KHeap` | boundary-tagged kernel heap with segregated lists |
| `BuddyTree`, `BuddyLists`, `BuddyMend`, `BuddyStates`, `Buddy` | physical page allocator |
| `HashSlots`, `HashMap`, `LruList`, `LruCache`, `SectorRuns`, `SataPort` | write-back sector cache, over an LRU list, over an open-addressing hash map |
| `PageWalk`, `PageTree`, `PageEntries`, `PageMap` | four-level page tables |
| `Extents`, `BlockMap`, `Ext2VNode`, `Ext2Mount` | ext2 block lookup, extents and inode bitmaps |
| `Powers` | powers of two |

How each subject is put together:

- **Red-black tree.** A class over nodes with mutable links. A ghost tree, and a zipper for the place
  where a loop is at, say what the links must be; the repair steps are proved on trees and carried over
  to memory one rotation or recolouring at a time. The loops keep "at most one red node with a red
  parent, here" and "this subtree alone is one black node short".
- **Kernel heap.** Headers indexed by 32-byte granule. The chunks tile the heap, every header repeats
  the size of the one before it, free chunks are never neighbours, and the lists and the bitmap hold
  exactly the free chunks. Every operation keeps that, except for growth that the limit clamps; then,
  and at no other time, the heap's own run-time check complains. Sizes are in bytes.
- **Page allocator.** The region is a binary tree of blocks; orders and free flags are those of its
  leaves, and the lists hold exactly its free leaves. A tree without two free buddies is unique, from
  which it follows that the order of allocations and releases leaves no trace.
- **Cached disk.** Four layers. The logical disk is what is cached, or else what the device holds. The
  device refuses writes as it likes, and a ghost log records which.
- **Page tables.** Memory is a map from frames to tables. A page map is a tree of tables in which no
  table is shared.
- **ext2.** Looking up many blocks at once is proved to be looking them up one at a time, exactly when
  the walk stays inside its tables.

## Model

| member | source | states |
|---|---|---|
| `RbTree.RbTree.Insert` | ds/rb_tree.h:87-101 | the tree stays ordered, linked both ways and red-black; a new key is added with its value and nothing else changes; a key that is there is refused and the tree is untouched |
| `RbTree.RbTree.PostInsertFix` | ds/rb_tree.h:189-241 | from a tree whose only fault is one red node with a red parent, the loop ends with a red-black tree of the same entries in the same order |
| `RbTree.RbTree.PreDeletionFix` | ds/rb_tree.h:247-339 | for a black node about to go, the loop ends although one case moves the node down; afterwards the tree without that node has all red-black rules and the same entries in order |
| `RbTree.RbTree.Rotate` | ds/rb_tree.h:349-386 | every link of the nodes involved, and of no other node, is what the rotated tree requires, in both directions and also at the root |
| `RbTree.RbTree.BstDelete` | ds/rb_tree.h:513-535 | which node is to go, and that the tree then holds the donor's entry twice: in place of the deleted one and at the node to go |
| `RbTree.RbTree.Delete` | ds/rb_tree.h:141-164 | for every valid non-empty tree all tree rules hold again and the remaining entries are exactly the survivors; true if and only if the key was there |
| `RbDelete.DeletionExact` | ds/rb_tree.h:513-535 | the survivors are all entries but the key's, if and only if the in-order predecessor of the deleted node has no left child; otherwise exactly one more entry is lost |
| `RbDelete.NeighbourLost` | ds/rb_tree.h:518-525 | a linked red-black tree of four distinct nodes from which deleting 4 also loses 1 |
| `RbShape.Balanced` | ds/rb_tree.h:274-331 | two to the height of a red-black tree is at most the square of one more than the number of entries |
| `RbShape.SearchDepth` | ds/rb_tree.h:542-550 | so much for the number of nodes any search looks at |
| `RbTree.RbTree.Find` | ds/rb_tree.h:542-550 | it finds the node of the key, or nothing if there is none, looking at as many nodes as the search does on the tree |
| `RbTree.RbTree.Read` | ds/rb_tree.h:111-118 | the value bound to a key, or that there is none, after looking at no more than twice the binary logarithm of one more than the number of entries |
| `RbTree.RbTree.Update` | ds/rb_tree.h:126-133 | rebinds a key that is there and nothing else |
| `KHeap.KHeap.constructor` | sys/kheap.cpp:213-235 | a fresh heap is one top chunk and satisfies the run invariant |
| `KHeap.KHeap.FindEntry` | sys/kheap.cpp:93-112 | nothing is found if and only if no listed chunk is strictly larger; what is found is larger, no listed chunk is of a higher class, and it is the first such of its list; it leaves the list and the bitmap correct |
| `HeapBins.BinsInOrder` | sys/kheap.cpp:39-55 | the bins of two sizes are in the order of their classes: below 1 KiB a class is 32 bytes wide, and from there on one begins at each power of two and at three times each |
| `KHeap.KHeap.Search` | sys/kheap.cpp:95-109 | the loop that clears mask bits one by one ends, and misses no chunk that fits, although it tries the highest bin and clears bits modulo 64 |
| `KHeap.KHeap.Remove` | sys/kheap.cpp:75-91 | a chunk leaves its list, and only that; unlinking a chunk that is in no list changes nothing |
| `KHeap.KHeap.SplitAndPush` | sys/kheap.cpp:138-163 | a chunk is cut in two, the first part in use and the rest free and listed, the invariant holding |
| `KHeap.KHeap.MergeWithNeighbors` | sys/kheap.cpp:165-191 | a free chunk absorbs its free neighbours, or the top chunk absorbs it; no live chunk changes |
| `KHeap.KHeap.GrowHeap` | sys/kheap.cpp:193-208 | the new sizes, in bytes; the top chunk consists of whole granules and still ends where the heap does if and only if memory in use forbids growing or twice the old size is within the limit |
| `KHeap.GrowthExact` | sys/kheap.cpp:272-274 | growing until a request fits ends with a well-formed heap if and only if doublings that the limit does not clamp are enough, however much memory is in use each time |
| `KHeap.GrownToLimit` | sys/kheap.cpp:198-206 | a run in which growing a heap of 1 MiB to its limit makes the top chunk reach 16 bytes past the heap, of which the check complains |
| `KHeap.KHeap.Allocate` | sys/kheap.cpp:237-285 | a request is not served if and only if no listed chunk is larger and growth cannot make the top chunk so; otherwise the invariant holds, the chunk is new and large enough, no other live chunk changes; large requests go to the page allocator; a listed chunk is the first that is larger of the highest class in use, small requests keep all of it, and what others leave of it is put first in its list |
| `KHeap.KHeap.Free` | sys/kheap.cpp:358-384 | the invariant holds and just this chunk is given back, unless it is of 16 KiB or more, when the heap keeps it; with its free neighbours, which leave their lists, it is put first in its list or is part of the top chunk, and no other list entry moves |
| `KHeap.KHeap.Verify` | sys/kheap.cpp:447-502 | in every state that the operations lead to, five of the six reports are never made, and the sixth, of a wrong sum, just when the sizes of the chunks do not add up to that of the heap |
| `KHeap.KHeap.PayloadsDisjoint` | sys/kheap.cpp:279-284 | payloads of different live chunks do not overlap, and none reaches the top chunk |
| `KHeap.KHeap.UserWrite` | sys/kheap.cpp:284 | whatever a user writes into a payload, the heap stays valid and every live chunk stays what it was |
| `KHeap.FreedBySize` | sys/kheap.cpp:263-265 | a run of allocations and releases after which a request of 32 bytes holds 16 KiB that the heap never gets back |
| `Buddy.Buddy.constructor` | sys/buddy_allocator.cpp:422-465 | the pages begin after what is set aside for entries, 24 bytes for every page of the range, and are all the rest; the catalogue loop leaves a valid region with nothing handed out, whose blocks cover all pages, except for one spare page if and only if their number is odd or a power of two |
| `Buddy.Buddy.Allocate` | sys/buddy_allocator.cpp:249-284 | the block is of the smallest sufficient size and is the end of a smallest free block that is large enough, the first of its list; the halves cut off before it, and they alone, become free, each first in its list; no other block changes; null only if no free block is large enough |
| `Buddy.Buddy.Free` | sys/buddy_allocator.cpp:315-346 | the blocks are always right afterwards, and the one that the pages are in is the first of its list; lists that hold exactly the free ones exist, and then the region is valid, if and only if `Mends` held before the call |
| `BuddyMend.TracksLast` | sys/buddy_allocator.cpp:337-343 | when merging has ended the links are straight if and only if the first merge is harmless or a later one unlinks what led to where the stale link leads |
| `BuddyMend.NoLists` | sys/buddy_allocator.cpp:569-588 | links that are still bent are those of no lists that hold each free block of the region in the list of its size |
| `BuddyLists.MergeLinked` | sys/buddy_allocator.cpp:495-507 | unlinking two buddies and listing their union leaves well-formed lists when that is harmless |
| `BuddyLists.HarmIsReal` | sys/buddy_allocator.cpp:503-504 | otherwise the lists are broken as soon as the two are unlinked |
| `BuddyLists.StaleUnlink` | sys/buddy_allocator.cpp:569-588 | unlinking an unlisted entry keeps some well-formed lists if and only if its forward link leads to nothing or to an entry without a back link |
| `BuddyStates.StaleHarms` | sys/buddy_allocator.cpp:558-567 | a valid state in which a release leaves lists that hold the free blocks no more |
| `BuddyStates.MendedLater` | sys/buddy_allocator.cpp:337-343 | a valid state in which the first merge of a release breaks a list and the second one mends it |
| `Buddy.Buddy.Tiled` | sys/buddy_allocator.cpp:495-507 | every page is in exactly one block, handed out or free, or is the spare page |
| `Buddy.Buddy.LiveBlocks` | sys/buddy_allocator.cpp:249-284 | blocks handed out are aligned to their size, inside the region and disjoint |
| `Buddy.Buddy.NoFreeBuddies` | sys/buddy_allocator.cpp:538-545 | no two buddies of one size are both free |
| `Buddy.Buddy.ListHolds` | sys/buddy_allocator.cpp:547-556 | a list holds exactly the free blocks of its size |
| `BuddyTree.MergeableExact` | sys/buddy_allocator.cpp:467-478 | the flag and order at the flipped address tell whether the other half is one free block: an entry inside a larger or smaller block never passes for one |
| `BuddyTree.Canonical` | sys/buddy_allocator.cpp:495-507 | two trees without free buddies, with the same live blocks and spare page, are the same tree |
| `Buddy.Confluent` | sys/buddy_allocator.cpp:315-346 | two regions with the same blocks handed out list the same free blocks, whatever led there |
| `Buddy.Restored` | sys/buddy_allocator.cpp:453-464 | once all is returned, every list holds what it held after cataloguing, if the number of pages is not a power of two |
| `Buddy.RestoredPowerOfTwo` | sys/buddy_allocator.cpp:453-464 | if it is, that is so if and only if the spare page has not been merged in |
| `HashMap.HashMap.Find` | ds/hash_map.h:374-388 | the slot of the key, or -1 if and only if no slot holds it; the probe ends |
| `HashMap.HashMap.Insert` | ds/hash_map.h:210-232 | a new key is bound; a known one is refused, unless a tombstone is probed before it, and then it is stored twice; the load bound holds after at most one rehash |
| `HashMap.HashMap.Delete` | ds/hash_map.h:249-257 | just this key is unbound, and all others stay reachable past the tombstone |
| `HashMap.HashMap.Rehash` | ds/hash_map.h:390-425 | the new tables represent a map just when the old ones did, reachable from new homes, with room again |
| `HashSlots.Missed` | ds/hash_map.h:214-220 | a probe that stopped short of a live match has missed an entry if and only if the key is behind a tombstone |
| `HashSlots.ShadowedExample` | ds/hash_map.h:214-220 | a reachable table of seven slots with such a key |
| `LruCache.LruCache.Lookup` | ds/cache.h:69-95 | the value of the last entry for the key, which becomes the most recently used; the list order is that of last use, over the whole run; a freed entry is written to if and only if the key is that of the last entry, and that one still points to a freed one, and then once or, if it is the only one, twice |
| `LruCache.LruCache.Evict` | ds/cache.h:97-120 | the handler gets exactly the least recently used entries, as many as asked for or there are, the oldest first; the others stay in order |
| `LruCache.LruCache.Insert` | ds/cache.h:42-67 | if memory is critical the oldest entry is evicted first; the cache is valid afterwards if and only if the key was not in what is left and the allocator does not hand out the freed entry that is still pointed to; otherwise which links are bent, or that a key has two entries, and that the order is as it should be |
| `LruCache.LruCache.Add` | ds/cache.h:49-64 | a freed entry is written to if and only if the cache was emptied by eviction, unless it is the one handed out; a key that is there is refused if and only if no tombstone is probed before it |
| `LruCache.LruCache.Flush` | ds/cache.h:122-125 | everything is evicted, the oldest first |
| `SataPort.SataPort.CacheReadWrite` | sys/sata_port.cpp:408-463 | the logical disk changes by exactly what is written, and what is read is what it held, except for sectors that are named: dirty ones that the device refused, and hits evicted before their use, which are exactly those that `Serve` finds from the order of the cache and the course of memory pressure; a missed write leaves the sector as it was; the device is asked to read just the runs that `Asks` gives, and the request fails if and only if it refuses one; if all sectors are cached it is asked for nothing, and nothing is lost or missed; a reliable device that has the sectors concerned loses none and fails no request |
| `SectorRuns.AllCached` | sys/sata_port.cpp:420-436 | a read asks the device for nothing if and only if all its sectors are cached |
| `SectorRuns.AsksWithin` | sys/sata_port.cpp:430-436 | every run it asks for is part of the request, and none is empty |
| `SataPort.SataPort.Finish` | sys/sata_port.cpp:443-460 | the sector that was found is missed if and only if no more sectors are cached after the run was put in than it put in |
| `SectorRuns.SizeExact` | sys/sata_port.cpp:420-460 | requests for `n` sectors never miss a hit, whatever is cached and whenever memory is critical, if and only if the cache is empty or holds at least `n` |
| `SectorRuns.Survives` | sys/sata_port.cpp:443-460 | a sector just found outlives the caching of `num` others, whenever memory is critical, if and only if more than `num` were cached |
| `SectorRuns.RunKeeps` | ds/cache.h:44-46 | for each choice of when memory is critical, it does if and only if there were fewer evictions than sectors |
| `SataPort.MissedRun` | sys/sata_port.cpp:451-455 | a run of the port, of two writes: the second is of two sectors, and one of them keeps its old contents |
| `SataPort.SataPort.Flush` | ds/cache.h:37-40 | afterwards the device holds the logical disk, if it refused nothing or is reliable and has all dirty sectors; otherwise except for the dirty sectors it refused |
| `SataPort.Evicted` | sys/sata_port.cpp:603-612 | clean copies stay what the device holds, and eviction does not change the logical disk unless a dirty sector is refused |
| `PageMap.PhysicalMemory.Map` | sys/page_map.cpp:99-107 | it fails if and only if fewer frames are left than tables are missing, and then nothing is mapped differently; otherwise the entry of this page is the frame with the flags, the entries that were missing on its way are frames of the pool with the flags, and every other entry of every path is what it was, in a tree that stays unshared; without the present bit no missing table is ever found again; if bits of the flags are address bits that the frame of a new table lacks, an entry of the path leads elsewhere |
| `PageMap.MapGrants` | sys/page_map.cpp:213 | the rights of the mapped page, which all four entries must grant, are those of the flags as far as the tables that were there grant them; no other page's rights change |
| `PageMap.MapTranslates` | sys/page_map.cpp:183-187 | all addresses of the page translate to what its entry leads to, which is the frame if the flags are in the lowest nine bits, and every other address to what it did |
| `PageWalk.SamePage` | sys/page_map.cpp:183-187 | two addresses have the same four indices if and only if they are of the same page of the 48-bit space |
| `PageWalk.FlagsExact` | sys/page_map.cpp:105 | an entry leads to its frame, whatever that is, if and only if the flags are in the lowest nine bits |
| `PageMap.PhysicalMemory.Unmap` | sys/page_map.cpp:149-159 | clears the entry of this page, and no other entry of any path; false if and only if a table is missing |
| `PageMap.PhysicalMemory.MapRange` | sys/page_map.cpp:109-124 | it stops when all pages are mapped, or when frames have run out and the next page lacks a table; every page up to there, and no other, has the entry for its frame, and new tables have the flags |
| `PageMap.RangePointwise` | sys/page_map.cpp:116-119 | what that means page by page: each page of the range that is found has the entry of its own frame, and every other one its old entry |
| `PageMap.PagesApart` | sys/page_map.cpp:116-119 | the pages of a range within the address space are all different |
| `PageMap.PhysicalMemory.Remap` | sys/page_map.cpp:126-133 | what one page was mapped to another one is, exactly when that succeeds, and the first is cleared, unless the flags lead the entry of a new table elsewhere |
| `PageMap.PhysicalMemory.VAddrToPAddr` | sys/page_map.cpp:250-263 | the translation, by four entries one after another, at the nine bits of the address that belong to each level; zero if a table is missing |
| `PageMap.PhysicalMemory.DeepFree` | sys/page_map.cpp:285-296 | exactly the frames of this tree go back to the allocator, each once |
| `PageMap.PhysicalMemory.DeepCopy` | sys/page_map.cpp:265-283 | with as many frames left as there are tables to copy, the copy maps exactly what the original does, in frames that were free before; with fewer, and only then, an entry of it leads to frame 0; in any case it has entries where the original has present ones, with the same flags, and the last tables are the same; nothing but the copy and new frames changes |
| `PageMap.PhysicalMemory.Copy` | sys/page_map.cpp:81-85 | the original is untouched in any case; the copy maps what it does and shares no frame with it if there are more frames than the original has tables below its root, and leads to frame 0 if there are some but not so many |
| `PageMap.OtherTree` | sys/page_map.cpp:76-97 | whatever is done to one page map, another one that shares no frame with it maps what it did and still shares none |
| `Extents.AddToExtentList` | sys/fs/ext2_vnode.cpp:779-790 | the blocks listed are those before and the new one, in runs of which no two neighbours could be joined |
| `Extents.FlattenAround` | sys/fs/ext2_vnode.cpp:779-790 | the blocks of a list of runs are those of each run, in order |
| `Extents.CanonicalUnique` | sys/fs/ext2_vnode.cpp:779-790 | such a list of runs is determined by the blocks |
| `Ext2VNode.Ext2VNode.GetExtents` | sys/fs/ext2_vnode.cpp:603-696 | it lists what looking up the blocks one at a time gives, and does so if and only if all are there and the walk, whose course depends on no pointer, stays in bounds |
| `Ext2VNode.Ext2VNode.GetFromTables` | sys/fs/ext2_vnode.cpp:728-773 | the same for one indirect table, for as many blocks as the loop gets to before it has read as many as are left |
| `Ext2VNode.Ext2VNode.GetBlock` | sys/fs/ext2_vnode.cpp:593-601 | one block is the pointer in the inode, or in a table, or in one reached through one or two more tables, at the quotients and remainders of its number; it is found if and only if all these pointers are there and the last is not null |
| `BlockMap.BlockOfIs` | sys/fs/ext2_vnode.cpp:631-644 | the same for the lookup that lists of many blocks are compared with |
| `BlockMap.ServedExact` | sys/fs/ext2_vnode.cpp:750-761 | a request of any length stays inside its tables if and only if it ends within the largest file and either does not leave the table of blocks it starts in or starts where one begins and no run over half the tables left goes past the end of the table above |
| `BlockMap.LandsExact` | sys/fs/ext2_vnode.cpp:750-761 | for up to as many tables as one table holds, that is so if and only if they all end with the table above, or halving their number leads to the number of those beyond it |
| `BlockMap.FitsExact` | sys/fs/ext2_vnode.cpp:669-674 | requests below the triple indirect blocks stay in bounds if and only if they start among the direct blocks, where a table of blocks begins, or do not leave the table they start in |
| `BlockMap.OverrunExample` | sys/fs/ext2_vnode.cpp:750-761 | a request that goes on to the triple indirect blocks and reads past a table though it starts where one begins |
| `BlockMap.WholeFileExample` | sys/fs/ext2_vnode.cpp:750-761 | reading a file of 65 MiB from its start to its end does too |
| `Ext2Mount.Ext2Mount.AllocINode` | sys/fs/ext2_mount.cpp:102-134 | exactly the lowest clear bit of the first usable group is set, its number was not in use and is the only one that has become so; nothing if no group is usable; the group's count goes down by one; inode 0 if and only if just the bit of inode 1 is clear in the first word |
| `Ext2Mount.Ext2Mount.DeleteINode` | sys/fs/ext2_mount.cpp:183-195 | exactly this number is no longer in use |
| `Ext2Mount.Ext2Mount.GivenBack` | sys/fs/ext2_mount.cpp:125-127 | giving an inode back restores the bitmap, and yet it cannot be had again once the count of its group is used up |

## Findings

Each of these is proved of the code as it stands: the members named say exactly when it happens, and
most come with a state in which it does.

- **A deletion loses a second entry** (ds/rb_tree.h:518-525). The in-order predecessor may have a red
  left child, which goes with it. `RbDelete.DeletionExact`, `RbDelete.NeighbourLost`.
- **A release breaks a free list** (sys/buddy_allocator.cpp:558-567). Popping leaves the entry's forward
  link; when the block is merged, unlinking it clears the back link of an entry that has moved on since. A
  later merge of the same release may mend that. `Buddy.Buddy.Free`, `BuddyStates.StaleHarms`,
  `BuddyStates.MendedLater`.
- **A page is left over** (sys/buddy_allocator.cpp:455). With an odd number of pages, or a power of two,
  the catalogue loop leaves the last page in no list, though marked free; so its buddy may merge with
  it. `Buddy.Buddy.constructor`, `Buddy.RestoredPowerOfTwo`.
- **Growth that the limit clamps** (sys/kheap.cpp:198-206) adds half the new size to the top chunk,
  which is more than the heap got, or not a whole number of granules. `KHeap.KHeap.GrowHeap`,
  `KHeap.GrowthExact`, `KHeap.GrownToLimit`.
- **A request is never served** (sys/kheap.cpp:272-274) when doubling cannot make the top chunk larger than
  it: the loop goes on for ever, or beyond a clamped growth. `KHeap.KHeap.Allocate`.
- **Chunks are freed by size** (sys/kheap.cpp:368). A small request may keep a chunk of 16 KiB, which is
  then handed to the page allocator. `KHeap.FreedBySize`.
- **A key is stored twice** (ds/hash_map.h:214-220) if a tombstone comes before it.
  `HashMap.HashMap.Insert`, `HashSlots.ShadowedExample`.
- **A freed entry is written to** (ds/cache.h:51-55, 76-90) by the first insertion after the cache was
  emptied by eviction, as the pointer to the most recently used entry stays; then also whenever the last
  entry is looked up, as it takes the freed one for its neighbour. If the allocator hands that one out
  again, an entry becomes its own neighbour, or the last entry's next one is the first.
  `LruCache.LruCache.Add`, `LruCache.LruCache.Lookup`, `LruCache.LruCache.Insert`.
- **A duplicate key breaks the list** (ds/cache.h:53-59): the first entry is left pointing back to the
  refused one. `LruCache.LruCache.Insert`.
- **A hit is lost** (sys/sata_port.cpp:443-460) if it is evicted before it is used: a write to it never
  reaches the disk. `SectorRuns.SizeExact`, `SectorRuns.Survives`, `SataPort.MissedRun`.
- **A refused write is not noticed** (sys/sata_port.cpp:605-608): the sector is gone.
  `SataPort.SataPort.CacheReadWrite`, `SataPort.SataPort.Flush`.
- **Flags end up in the address** (sys/page_map.cpp:105, 213) if they are above the lowest nine bits; and
  tables that were made with flags that lack the present bit are not found again.
  `PageWalk.FlagsExact`, `PageMap.PhysicalMemory.Map`.
- **A copy leads to frame 0** (sys/page_map.cpp:272-279) if frames run out, as the null the allocator gives
  is taken for a frame. `PageMap.PhysicalMemory.DeepCopy`, `PageMap.PhysicalMemory.Copy`.
- **A long read leaves its table** (sys/fs/ext2_vnode.cpp:706-707, 750-761). `BlockMap.FitsExact`,
  `BlockMap.OverrunExample`, `BlockMap.ServedExact`, `BlockMap.WholeFileExample`.
- **Inode 0 is given out** (sys/fs/ext2_mount.cpp:118-124), **and inodes given back stay lost**
  (sys/fs/ext2_mount.cpp:183-195). `Ext2Mount.Ext2Mount.AllocINode`, `Ext2Mount.Ext2Mount.GivenBack`.

## Left out

- Tree: copying, printing and iterating; keys are integers. Reading, updating and deleting need a
  non-empty tree, as the source has it.
- Freed memory is not given out again, except by `LruCache.LruCache.Insert`: a freed node or cached sector
  stays what it was.
- Heap: reallocation, and payload contents other than by `UserWrite`. The 64-bit bitmap has a bit of its own
  for every bin only below 64 MiB, so the heap is smaller than that; the bitmap is a set, and clearing a
  bit at position 64 or more clears it modulo 64.
- KHeap.KHeap.Allocate: ends a request that is not served, where the loop goes on for ever or with a heap
  that is not well formed any more; the readings of the memory in use are a parameter.
- Page allocator: one range; `Realloc` and the counters. Entries are indexed from the first usable
  page, where cataloguing as written counts from the start of the range; a range's upper bound counts as
  outside. Shifts are 64 bits wide, orders are counted from that of a page, and sizes are at most 2^63.
- Hash map: the hash is any function of the key; iterators, copying and moving.
- LruCache.LruCache.Insert: says what the links are when the cache is not valid any more, but no operation
  goes on from there.
- LruCache.LruCache.Evict: the calls of the eviction handler are a result, in order; the handler does
  not call the cache.
- SataPort.SataPort.CacheReadWrite: the device either does a transfer or refuses it and changes nothing, as
  it likes; command slots, registers and native command queueing. When memory is critical is
  arbitrary too. The cache's allocator does not hand out a freed entry that is still pointed to, and a hit
  that was freed is still the sector it was when it is used.
- Transfers of several ranges.
- Page tables: the allocator is a pool of frames, new ones are zero, the offset between physical and
  virtual addresses is left out, and so are control registers and the translation cache.
- PageMap.PhysicalMemory.MapRange: requires that flags with the present bit do not lead a new table's entry
  elsewhere, as one page's may (`PageMap.PhysicalMemory.Map`); after that the map need not be a tree, and
  what further pages do is left open.
- PageMap.PhysicalMemory.DeepCopy: what is written into frame 0 itself when it is taken for a table.
- Ext2VNode.Ext2VNode.GetExtents: looking up only; blocks are not allocated, and indirect blocks are not
  listed. Pointer blocks are read without an error of the device. A walk that reads past a table stops, and
  so does one that would try an unreadable table for ever.
- Ext2Mount.Ext2Mount.AllocINode: bits beyond the last inode of a group are set, as the format has it; of
  the counters only that of the group is modelled, and a shift by -1 sets a bit that is set already.
- Allocating and freeing blocks of the file system; directories and files as a whole; the virtual file system.
- Interrupts, ACPI, PCI, logging, strings and smart pointers.
