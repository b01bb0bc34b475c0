# Verified models of the small memory allocators

This project models the regular build of small, a library of specialised memory allocators in C, and
proves what its parts promise, each on its own and where one stands on another. Everything is checked
by `dafny verify dfyconfig.toml`.

- `MatrasModel`, `Matras`: a three-level copy-on-write tree of extents with a chain of read views. The
  invariant behind it is that sharing is contiguous along the chain and that newer views have every
  block of what they share. From it follow snapshot isolation on every run, that a view's two
  neighbours tell what may be freed, and the exact accounts of extents.
- `RbTree`, `RbIterator`: the left-leaning red-black tree that `rb.h` generates, with its explicit path,
  every case of insert and remove, the augmentation callback, and the bounds on the path arrays.
  `RbReach` shows that inserts alone reach both bounds.
- `SlabCacheModel`, `SlabCache`: the buddy allocator. Blocks tile the arena slabs and are fully
  coalesced, and the books balance.
- `Mempool`: objects of one size in slabs of that very slab cache (`SlabCache.Cache`).
- `SmallClass`, `SmallModel`, `Small`: size classes, groups of pools, and the allocator over those very
  pools (`Mempool.MemPool`), down to the theorem that no two live objects overlap.
- `LfLifo`, `SlabArena`, `Quota`: lock-free protocols as interleaved steps of any number of threads
  under sequentially consistent memory. `ArenaOverLifo` puts the arena on the steps of the stack;
  `QuotaLessor` is the sequential layer above a quota.
- `LsRegion`, `Region`: byte allocators that refine a log and a stack of bytes of any type.
- `Common`: what they share.

Where the source updates in place, a class has its fields and methods, and predicates over plain values
say what the fields mean. What the operating system, malloc, another thread or a user's callback would
answer is a parameter or an arbitrary value, and may be another one at every call of a run, so that
every answer is covered.

## Where the source does not do what it says

- `matras_destroy` destroys views newest first, and the shortcut on equality with the older view then
  skips extents which that view's smaller block count does not cover. Its assertion
  `extent_count == 0` fails on such runs (`LeakAtDestroy`). `DestroyViews` and `Reset` state the exact
  number lost; with views destroyed oldest first none is (`RunAndDestroy`).
- `matras_dealloc` does not check its touch. By `Dealloc` the tree stays sound if and only if there are as
  many extents to be had as levels shared on the way to the block, or the newest view does not have the
  block; `DamageAtDealloc` is a run after which a read view reads what is stored in the head.
  `matras_touch_reserve` for one block makes the call safe.
- The comment at `RB_MAX_TREE_HEIGHT` says that 48 suffices for any number of nodes that fits an address
  space. It suffices below 3 * 2^24 - 2 nodes (`PathsFit`) and no further: inserting that many keys from
  the greatest down makes a tree whose first node is 49 nodes deep (`BoundsReached`,
  `IteratorOverflows`).
- `quota_use` adds units in 32 bits and guards the sum by an assertion alone. `WrapExactly` gives the
  exact condition, `OverQuota` a run, and `Lease` the condition for a lessor.
- `quota_release` asserts that the size is below QUOTA_MAX, which `quota_use` accepts. A lessor that took
  all of it trips that assertion when it is destroyed (`Destroy`, `AssertionAtDestroy`).
- The counter in a word of `lf_lifo` has 16 bits. Fewer than 2^16 pushes in a pop's window is the exact
  bound (`WindowExactly`); `WrapBreaks` is what happens at 2^16.
- `region_reset` is documented to mark the region as empty; it empties the newest slab alone (`Reset`,
  `ResetLeaves`).
- `lsregion_to_iovec` stops at a slab that was reserved and not used, and emits nothing behind it until a
  collection reaches that slab (`ToIovec`, `UnconsumedReserve`).
- The comment in `lsregion.h` lets allocation ids repeat; a collection up to an id that a flush returned
  then loses bytes exactly if some of that id are not flushed (`Gc`, `EqualIds`).

## Model

| member | source | states |
|---|---|---|
| `MatrasModel.SplitId` | include/small/matras.h:424-436 | The shift-and-mask split of an id names exactly the second- and third-level extents whose range of block ids holds it, and an id begins an extent exactly when its low bits are zero |
| `MatrasModel.PrivateByNewest` | small/matras.c:459-499 | If the newest view does not share an extent with the head, no view does: one comparison decides for the whole chain |
| `MatrasModel.NotNeededWritable` | include/small/matras.h:374-392 | When matras_needs_touch says no, no view that has the block shares any extent on the way to it |
| `MatrasModel.CopyStep` | small/matras.c:459-499 | Copying one extent of the head leaves every view's tree and blocks, the head's blocks and the sharing invariant as they were, and stops exactly that sharing |
| `MatrasModel.CopyAccounted` | small/matras.c:121-129 | The copied extent and its original are both still reached: no extent is lost or counted twice |
| `MatrasModel.OwnStep` | small/matras.c:459-499 | One level of a touch, with all that it keeps |
| `MatrasModel.OwnedWritable` | small/matras.c:459-499 | A block none of whose three extents is shared with the newest view is free to write |
| `MatrasModel.WriteStep` | small/matras.c:503-516 | A write to a free block changes that block of the head and no block of any view |
| `MatrasModel.GrowStep` | small/matras.c:173-237 | Taking new blocks into the head keeps the invariant and the accounts though extents shared with views are written |
| `MatrasModel.GrowWritable` | small/matras.c:173-237 | Blocks just allocated may be written without a touch |
| `MatrasModel.ShrinkStep` | small/matras.c:262-294 | Giving up the last block keeps the invariant once no view that has it shares its extents |
| `MatrasModel.DeallocStep` | small/matras.c:262-294 | The extents freed with the last block are reached from no view, and all others stay |
| `MatrasModel.UnsafeShrink` | small/matras.c:262-294 | Giving up a block that the newest view still shares breaks the invariant, always |
| `MatrasModel.Damage` | small/matras.c:262-294 | After a failed touch of a block that the newest view has, an extent on the view's way to it is gone, or the head's next block will be stored where the view reads |
| `MatrasModel.DamageShows` | small/matras.c:173-237 | In the second case the view reads whatever is stored in the block allocated next |
| `MatrasModel.LocalIsEnough` | small/matras.c:392-451 | An extent of a view is reached from any other view or the head exactly when one of the two neighbours shares it |
| `MatrasModel.NewerKeepsAll` | small/matras.c:399-436 | What lies below a table shared with the newer neighbour is shared with it too, so skipping it frees and loses nothing |
| `MatrasModel.FreedOrLeaked` | small/matras.c:392-451 | Of a destroyed view's extents, each is exactly one of kept by a neighbour, freed, and lost behind an older neighbour with fewer blocks |
| `MatrasModel.DropStep` | small/matras.c:392-451 | Unlinking any view keeps the invariant and strands exactly the freed and the lost extents |
| `MatrasModel.DestroyStep` | small/matras.c:392-451 | Destroying any view changes nothing that another view or the head reads; destroying the oldest view loses nothing |
| `MatrasModel.SnapshotStep` | small/matras.c:379-387 | A new read view keeps the invariant and reaches no new extent |
| `MatrasModel.LeakStable` | small/matras.c:141-168 | What a view would lose does not depend on the newer views destroyed before it |
| `MatrasModel.SomethingLeaks` | small/matras.c:141-168 | In every state with two views of one root, the second with a block more that the head has copied away, an extent is lost; LeakAtDestroy reaches such a state |
| `Matras.Matras.constructor` | small/matras.c:44-84 | An empty tree, with the capacity cut off at 2^32 blocks |
| `Matras.Matras.TakeAddr` | small/matras.c:551-561 | A reserved extent first, then one from the outside; refused exactly when there is neither |
| `Matras.Matras.AllocExtent` | small/matras.c:101-110 | One extent more, at a new address, and extent_count counts it; failure changes nothing and happens exactly when no extent is reserved and the outside refuses |
| `Matras.Matras.FreeExtent` | small/matras.c:112-118 | One extent less |
| `Matras.Matras.CopyExtent` | small/matras.c:120-129 | A new extent with the contents of the old one |
| `Matras.Matras.OwnExtent` | small/matras.c:459-499 | Success is exactly the end of the sharing at that level, and fails only with no extent to be had; a copy uses up exactly one extent; the sharing of other levels and all contents stay |
| `Matras.Matras.TouchNoCheck` | small/matras.c:458-499 | All three levels: it succeeds if and only if there are as many extents to be had as levels shared with the newest view, and uses up just those; then the block is free to write, and blocks that were stay so; partial failure keeps the invariant and the accounts |
| `Matras.Matras.Touch` | small/matras.c:507-516 | The same behind the matras_needs_touch test |
| `Matras.Matras.Write` | small/matras.c:503-516 | Writing a free block keeps every view's snapshot, and what else is free to write stays so |
| `Matras.Matras.AllocInternal` | small/matras.c:173-237 | The extents that the next block begins, made if and only if there are as many to be had, and just those used up; on failure the same tree as before with all new extents freed again |
| `Matras.Matras.AllocRange` | small/matras.c:304-321 | range_count blocks more, all free to write, the old ones unchanged; refused if and only if they exceed the capacity or there are fewer extents to be had than the first of them begins, none in the middle of an extent |
| `Matras.Matras.Alloc` | small/matras.c:244-257 | One block more under the next id, free to write, refused on the same condition for one block |
| `Matras.Matras.Dealloc` | small/matras.c:262-294 | The touch succeeds if and only if there are as many extents to be had as levels shared on the way to the block; afterwards the invariant holds if and only if it succeeded or the newest view does not have the block, and otherwise the view is damaged |
| `Matras.Matras.DeallocRange` | small/matras.c:329-336 | The same for range_count blocks, with the levels on the way to the first of them |
| `Matras.Matras.CreateReadView` | small/matras.c:379-387 | The view's snapshot is the head's blocks at that moment |
| `Matras.Matras.FreeView` | small/matras.c:399-451 | The nested loops free exactly the extents that LocalIsEnough says no one else has, less those lost, each once |
| `Matras.Matras.DropView` | small/matras.c:392-451 | Snapshots of the other views and the head's blocks stay; the exact sets of freed and lost extents |
| `Matras.Matras.DestroyReadView` | small/matras.c:392-451 | The same for any view, and nothing for one that is not in the chain |
| `Matras.Matras.DestroyViews` | small/matras.c:141-145 | Newest first, as matras_destroy goes: the exact set of extents lost on the way |
| `Matras.Matras.FreeHead` | small/matras.c:146-165 | The loops over the head free every extent it reaches |
| `Matras.Matras.Reset` | small/matras.c:91-96 | extent_count ends as the number of extents lost, and as zero when no view and no lost extent was left |
| `Matras.Matras.CountIsReached` | small/matras.c:101-136 | extent_count is the number of extents reached from the head and the views, plus those lost |
| `Matras.Matras.AllocatorReserve` | small/matras.c:576-589 | Succeeds exactly when the outside has enough, and then count extents are reserved, no more unless they were already; otherwise all there are |
| `Matras.Matras.TouchReserve` | small/matras.c:342-365 | Succeeds exactly when no touch will copy or there are two extents for each touch and one for a root still shared; the reserve is then enough for count touches, whatever the outside does later |
| `Matras.Matras.TouchAll` | small/matras.c:342-365 | After a successful reserve each of count touches succeeds, and all blocks touched are free to write |
| `Matras.Call` | small/matras.c:173-516 | One call does to blocks and snapshots what its meaning says, and fails exactly when the state before it lacks the extents that it costs or the capacity |
| `Matras.Run` | small/matras.c:173-516 | Snapshot isolation on every run of alloc, touch and write, dealloc, both for ranges too, touch reservation, view creation and destruction in any order, with any number of extents to be had at each call: blocks and snapshots are those of the abstract run; oldest-first destruction loses no extent; a call fails only beyond the capacity, where it always does, or with fewer extents to be had than it may cost; a run stops early only at a dealloc that does damage, and with four extents to be had at that call it does not |
| `Matras.RunAndDestroy` | small/matras.c:141-168 | From creation to matras_destroy over any such run: no extent is left if all views were destroyed, oldest first |
| `Matras.LeakAtDestroy` | small/matras.c:141-168 | A run at whose end the assertion extent_count == 0 fails |
| `Matras.DamageAtDealloc` | small/matras.c:262-294 | A run after which a read view reads whatever is stored in the head's next block |
| `RbTree.Propagate` | include/small/rb.h:179-184 | The loop recomputes the datum of every node on the path, bottom up |
| `RbTree.PropagatedOk` | include/small/rb.h:179-184 | A legal subtree put in its place on the path makes a legal tree with correct data and the keys in order |
| `RbTree.RotateRightOk` | include/small/rb.h:166-171 | A right rotation with its two callbacks keeps order and data |
| `RbTree.RotateLeftOk` | include/small/rb.h:159-164 | The same for a left rotation |
| `RbTree.InsertStepKeys` | include/small/rb.h:785-840 | Every case of insert's unwinding keeps order and data |
| `RbTree.InsertStepOk` | include/small/rb.h:785-840 | Every case keeps colours and black height but for one red node with a red left child, which the next step removes |
| `RbTree.Insert` | include/small/rb.h:763-844 | The tree stays sorted, left-leaning, without two reds in a row, with equal black heights, a black root and correct data, and gains exactly the new key; the two loops over the path make the tree that the recursive form makes; the path holds one entry for each node on the way down and one more, at most height + 1 |
| `RbTree.UnwoundChild` | include/small/rb.h:763-844 | Going down one node leaves the tree that insert makes the same: winding and unwinding along a path is recursion |
| `RbTree.RemoveLeftStepKeys` | include/small/rb.h:948-1064 | Each case for a removal on the left keeps order and data |
| `RbTree.RemoveLeftStepOk` | include/small/rb.h:948-1064 | Each such case restores the black height or passes one missing black node up; the sibling it looks at exists |
| `RbTree.RemoveRightStepKeys` | include/small/rb.h:1065-1227 | Each case for a removal on the right keeps order and data |
| `RbTree.RemoveRightStepOk` | include/small/rb.h:1065-1227 | Each such case restores the black height or passes one missing black node up; the nodes it looks at exist |
| `RbTree.SwapOk` | include/small/rb.h:878-906 | The successor in the node's place leaves the keys but one, and the successor's own place is a leaf to prune |
| `RbTree.Leftmost` | include/small/rb.h:907-934 | A node without successor is a leaf, or black with one red leaf on its left that replaces it |
| `RbTree.Prune` | include/small/rb.h:935-1231 | Pruning the leaf and unwinding gives a legal tree of exactly the remaining keys, on every early return |
| `RbTree.Remove` | include/small/rb.h:845-1232 | The tree stays legal with correct data and loses exactly the key removed; the path holds at most height + 1 entries |
| `RbTree.Sparse` | include/small/rb.h:64-69 | Height is at most twice the black height, and a legal tree of height h has at least as many nodes as the sparsest one |
| `RbTree.PathsFit` | include/small/rb.h:64-69 | The 128-entry path suffices below 2^65 - 2 nodes and the 48-entry iterator path below 3 * 2^24 - 2 nodes |
| `RbTree.BoundsExact` | include/small/rb.h:64-69 | Both bounds are exact: legal trees of those sizes, for which one more entry is needed; RbReach.BoundsReached builds them |
| `RbIterator.GoLeftDown` | include/small/rb.h:187-194 | The node reached is the next in order, and the path has grown by the left spine |
| `RbIterator.GoRightUp` | include/small/rb.h:216-225 | The ancestor reached is the next in order |
| `RbIterator.IFirst` | include/small/rb.h:1262-1270 | All keys are upcoming, and the path is as long as the left spine |
| `RbIterator.INext` | include/small/rb.h:1280-1294 | The first upcoming key is returned and the rest stay upcoming; the path is never longer than the tree is high |
| `RbIterator.Iterate` | include/small/rb.h:1262-1294 | Iteration returns every key once and in order |
| `RbIterator.IteratorFits` | include/small/rb.h:64-69 | An iterator over a legal tree of fewer than 3 * 2^24 - 2 nodes never needs more than 48 entries |
| `RbReach.TwigStep` | include/small/rb.h:785-840 | Inserting a least key, at one node of the left spine: the part below counts on and the unwinding ends, or a red node comes up |
| `RbReach.SpineStep` | include/small/rb.h:763-844 | Inserting a least key adds one to the binary counter, with digits 1 and 2, that the left spine is; from all twos a red node over two full trees comes up |
| `RbReach.InsertedIs` | include/small/rb.h:763-844 | The tree that inserting n keys from the greatest down makes is, for every n, the one whose spine counts n |
| `RbReach.SparsestReached` | include/small/rb.h:763-844 | For every height the sparsest legal tree is made by inserts alone |
| `RbReach.InsertDown` | include/small/rb.h:763-844 | The run of those inserts, by insert itself |
| `RbReach.BoundsReached` | include/small/rb.h:64-69 | Inserts alone make a tree of 3 * 2^24 - 2 nodes with a left spine of 49, and one of 2^65 - 2 nodes with a left spine of 128 |
| `RbReach.IteratorOverflows` | include/small/rb.h:64-69 | After the first of these runs ifirst needs 49 entries of the 48 |
| `RbReach.PathOverflows` | include/small/rb.h:64-69 | After the second, one more insert needs 129 entries of the 128 |
| `SlabCacheModel.Halves` | small/slab_cache.c:138-154 | Negating bit k of an aligned address gives its other half, and doing it again leads back |
| `SlabCacheModel.Buddies` | small/slab_cache.c:127-136 | A block and its buddy are the two halves of one aligned block |
| `SlabCacheModel.BaseOf` | include/small/slab_cache.h:203-211 | Masking any address inside an aligned slab gives the slab |
| `SlabCacheModel.BuddyIsLive` | small/slab_cache.c:337-351 | The header read at the buddy's address is never a stale one: a live block starts there, not larger than the slab |
| `SlabCacheModel.SplitTiled` | small/slab_cache.c:138-154 | After a split the blocks still tile the arena slabs exactly, each aligned to its size |
| `SlabCacheModel.SplitCoalesced` | small/slab_cache.c:138-154 | A split makes no other pair of free buddies |
| `SlabCacheModel.MergeTiled` | small/slab_cache.c:156-166 | After a merge the blocks still tile the arena slabs exactly |
| `SlabCacheModel.MergeCoalesced` | small/slab_cache.c:156-166 | Only the merged block can have a free buddy now |
| `SlabCacheModel.MappedOk` | small/slab_cache.c:233-246 | A new arena slab joins as one free block |
| `SlabCacheModel.UnmappedOk` | small/slab_cache.c:360-371 | A whole arena slab leaves without a gap in the tiling of the others |
| `SlabCacheModel.AllFreeAllWhole` | small/slab_cache.c:330-377 | With nothing in use every block has been merged back into a whole arena slab |
| `SlabCacheModel.WholeExactly` | small/slab_cache.c:330-377 | Coalesced, a free block is a whole arena slab if and only if nothing in that arena slab is in use |
| `SlabCache.HoldOk` | small/slab_cache.c:248-257 | Taking the first slab of a list keeps lists and counters exact |
| `SlabCache.SplitHeldOk` | small/slab_cache.c:138-154 | A split puts the new buddy in its list and in its order's counter, and disturbs no slab in use |
| `SlabCache.MergeHeldOk` | small/slab_cache.c:156-166 | A merge takes the buddy out of both |
| `SlabCache.UseHeldOk` | small/slab_cache.c:90-98 | The slab handed out was in nobody's use |
| `SlabCache.FreeHeldOk` | small/slab_cache.c:80-88 | The counters of used memory lose exactly the slab's size |
| `SlabCache.MapSlabOk` | small/slab_cache.c:233-246 | An arena slab more, in its list, in its order's counter and in allocated.stats |
| `SlabCache.UnmapHeldOk` | small/slab_cache.c:360-371 | An arena slab less, likewise |
| `SlabCache.ShelveOk` | small/slab_cache.c:372-376 | The slab is in its order's list, and the list of the largest order never gets a second one |
| `SlabCache.AllReturned` | small/slab_cache.c:330-377 | When every ordered slab has been returned, with large ones out or not, what is left is one whole arena slab, or none if there was none; allocated.stats shows that slab and the large ones, and only these as used |
| `SlabCache.SlabOrderIsLeast` | include/small/slab_cache.h:221-232 | The least order that holds the size, and order_max + 1 exactly when none does |
| `SlabCache.Cache.Split` | small/slab_cache.c:138-154 | The in-place split, against SplitHeldOk |
| `SlabCache.Cache.Merge` | small/slab_cache.c:156-166 | The in-place merge, against MergeHeldOk |
| `SlabCache.Cache.GetWithOrder` | small/slab_cache.c:221-268 | The first slab of the lowest list that is not empty, or a new arena slab if all are; it has the order asked for and was in nobody's use, and every slab in use stays as it is; NULL exactly when all lists are empty and slab_map fails |
| `SlabCache.Cache.FreeBuddy` | small/slab_cache.c:337-351 | The test on the header at the buddy's address succeeds exactly when the buddy is a free block of the same order |
| `SlabCache.Cache.PutWithOrder` | small/slab_cache.c:330-377 | The slab alone leaves the slabs in use; full coalescing and exact books again; its arena slab is given back if and only if nothing else in it is in use and another whole slab is free, so never the last one, and when no slab is in use any more exactly one is left |
| `SlabCache.Cache.Return` | small/slab_cache.c:360-376 | To the arena if and only if the slab is whole and the top list has one already, and to its list otherwise |
| `SlabCache.Cache.GetLarge` | small/slab_cache.c:270-288 | The books balance with large slabs, and a failed quota or malloc changes nothing |
| `SlabCache.Cache.PutLarge` | small/slab_cache.c:290-307 | The large slab and its size leave the books |
| `SlabCache.Cache.Get` | small/slab_cache.c:316-327 | The slab has the size that slab_real_size foretells; NULL, without effect, exactly when the free lists and slab_map, or for a large one the quota or malloc, give nothing |
| `Mempool.CreateOk` | small/mempool.c:155-176 | Objects start past the header and fill the slab to its end, and no further object would fit |
| `Mempool.SlotIn` | include/small/mempool.h:307-316 | Masking any address within an object gives its slab |
| `Mempool.SlotsApart` | small/mempool.c:155-176 | Different slots of any slabs do not overlap |
| `Mempool.TakenOk` | small/mempool.c:65-84 | mslab_alloc's slot was not live, and live slots, free list and untouched tail still partition the slab |
| `Mempool.GivenOk` | small/mempool.c:98-113 | mslab_free moves the slot from the live ones to the free list, and the partition holds |
| `Mempool.EmptySlab` | small/mempool.c:134-152 | nfree is objcount exactly when no object of the slab is live, and 0 exactly when all are |
| `Mempool.TakeOk` | small/mempool.c:65-96 | After mslab_alloc every slab is again one of full, cold, hot and spare, and first_hot_slab is the lowest hot one, for any number of objects per slab |
| `Mempool.WarmOk` | small/mempool.c:115-131 | A slab with an eighth free enters the tree and leaves the cold list |
| `Mempool.ChillOk` | small/mempool.c:132-133 | A full slab with its first object freed becomes cold |
| `Mempool.StayOk` | small/mempool.c:98-153 | In every other case the slab is already where it belongs |
| `Mempool.OneObject` | small/mempool.c:115-131 | With one object per slab, a slab that becomes empty enters the tree and is neither spare nor given back |
| `Mempool.SwapSpareOk` | small/mempool.c:134-146 | The higher of two empty slabs is given back, the lower is the spare |
| `Mempool.LeaveOk` | small/mempool.c:134-152 | Likewise when the slab itself is the higher, or there was no spare |
| `Mempool.DiscardOk` | include/small/mempool.h:332-339 | A slab given back holds no live object |
| `Mempool.AllFull` | small/mempool.c:189-208 | Every slot of every slab is live if and only if no slab is hot, cold or spare |
| `Mempool.OwnerOf` | include/small/mempool.h:307-316 | The mask leads from a live object to the slab of the pool that it is a slot of |
| `Mempool.MemPool.constructor` | small/mempool.c:155-176 | A sound pool without slabs or live objects, over a slab cache that others may share |
| `Mempool.MemPool.MslabAlloc` | small/mempool.c:65-96 | The head of the slab's free list, or else its first untouched slot, becomes live |
| `Mempool.MemPool.Choose` | small/mempool.c:189-212 | The lowest hot slab, else the spare, else a new slab, else, if the cache has none, the first cold one; none if and only if every slot is live and the cache and slab_map have no slab |
| `Mempool.MemPool.Alloc` | small/mempool.c:189-219 | An object that was not live becomes live and nothing else changes; stats.used is objsize times the live objects; no slab of the cache is lost and those of others stay as they are; NULL, without effect, if and only if every slot is live and the cache and slab_map have no slab |
| `Mempool.MemPool.MslabFree` | small/mempool.c:98-153 | The object alone stops being live; a slab that becomes empty is the spare or goes back, the higher of two |
| `Mempool.MemPool.Retire` | small/mempool.c:134-152 | Of two empty slabs the lower stays as the spare |
| `Mempool.MemPool.FreeSlab` | include/small/mempool.h:291-302 | The object alone stops being live, through to the slab cache, which gets back exactly the slab that mslab_free gives up |
| `Mempool.MemPool.Free` | include/small/mempool.h:307-316 | The same, with the slab found by the mask |
| `Mempool.MemPool.FreeSpare` | include/small/mempool.h:332-339 | The spare slab alone goes back to the cache and no live object with it |
| `SmallClass.Galois` | include/small/small_class.h:162-213 | A size fits class c exactly when its own class is at most c, for all sizes and classes |
| `SmallClass.LeastClass` | include/small/small_class.h:162-196 | The class found is the least whose size is enough |
| `SmallClass.SizesIncrease` | include/small/small_class.h:198-213 | Class sizes are strictly increasing |
| `SmallClass.RoundTrip` | include/small/small_class.h:162-213 | A class's size is of that class |
| `SmallClass.BranchlessSame` | include/small/small_class.h:176-190 | The branchless variant gives the same class for every size |
| `SmallClass.GrowthBound` | include/small/small_class.h:162-213 | Beyond the linear part a class exceeds the size by at most one part in effective_size |
| `SmallModel.CreateSizes` | small/small.c:236-260 | The pools' sizes are the class sizes in order, strictly increasing, the last one cut off at objsize_max |
| `SmallModel.SearchOk` | small/small.c:225-234 | The search finds the pool with the smallest objects that are large enough, and none exactly when all are too small |
| `SmallModel.LastInGroup` | small/small.c:147-156 | At most 32 pools to a group |
| `SmallModel.CreateGroups` | small/small.c:210-223 | Consecutive groups of one slab order that end with their 32nd pool or with the order |
| `SmallModel.CreateAllGroups` | small/small.c:236-292 | The groups split all pools into consecutive runs of one slab order; a group ends only at 32 pools or where the order changes |
| `SmallModel.UpdateGroup` | small/small.c:43-61 | Every pool of the group uses the lowest active pool at or above it |
| `Small.PoolOrderOk` | include/small/mempool.h:238-257 | The least order whose slabs hold a hundred objects and a hundred headers, or the largest one |
| `Small.SameOrder` | small/small.c:236-292 | Pools that serve one class have slabs of one order, hence one mask |
| `Small.FewerServe` | small/small.c:92-100 | Deactivation can only move a class to a larger pool |
| `Small.ChargeOk` | small/small.c:329-369 | After an allocation each class's waste is what its live objects lose plus what was charged too much |
| `Small.DischargeOk` | small/small.c:381-403 | The waste is never less than what smfree subtracts, and stays exact |
| `Small.NotShared` | small/small.c:381-403 | No address is in slots of two pools |
| `Small.Small.constructor` | small/small.c:295-318 | Pools of increasing sizes over one slab cache, each with the slab order of mempool_create, grouped, each group served by its last pool and with a quarter of its slab size as waste limit, nothing wasted and nothing overcharged |
| `Small.Small.Activate` | small/small.c:82-90 | One bit is set, the pool now serves itself, and every pool of the group is again served by the lowest active one |
| `Small.Small.Deactivate` | small/small.c:92-100 | One bit is cleared, and no class is served by a smaller pool than before |
| `Small.Small.CanBeDeactivated` | small/small.c:102-125 | True exactly for an active pool that is not its group's last, has no live object and little waste |
| `Small.Small.Sweep` | small/small.c:127-138 | Exactly the pools that can be deactivated are, and keep no spare slab; no live object and no charge changes, and no class moves to a smaller pool |
| `Small.Small.Smalloc` | small/small.c:329-372 | The object was not live, is at least as large as asked and comes from the pool that the class used at the start; the class is charged what it loses in the pool that it uses then, and its own pool is activated if and only if that takes its waste to the limit; pools are swept if and only if the first attempt finds every slot live and no slab; NULL only if the second one does too; too much is charged only after a sweep; beyond objsize_max the large slab path, NULL exactly when the quota or malloc refuses |
| `Small.Small.Smfree` | small/small.c:381-403 | Exactly the object is freed, from the pool it came from, whatever pool the class uses by now, and the class's waste is less by what the object lost; of a large object exactly its slab leaves |
| `Small.Small.OwnerFound` | small/small.c:391-402 | Masking with the mask of the object's own class finds a slab of the owner and of no other pool |
| `Small.Small.ObjectsApart` | small/small.c:329-403 | No two live objects overlap, whatever their sizes, pools and slabs |
| `LfLifo.PushKeeps` | include/small/lf_lifo.h:78-90 | A successful push puts the element on the abstract stack and keeps the chain of links |
| `LfLifo.PopTakesTop` | include/small/lf_lifo.h:92-116 | A successful pop's element is the top of the abstract stack and its link leads to the next one, although head and link were read in separate steps |
| `LfLifo.PopKeeps` | include/small/lf_lifo.h:92-116 | A successful pop keeps the chain |
| `LfLifo.PopExactly` | include/small/lf_lifo.h:92-116 | In or out of the window, a successful pop leaves the links spelling out the stack exactly when the link it read is still the top's |
| `LfLifo.StepKeeps` | include/small/lf_lifo.h:78-116 | Every step of every thread keeps the invariant, spurious failures and writes by holders included |
| `LfLifo.RunKeeps` | include/small/lf_lifo.h:78-116 | So does every run in which fewer than 2^16 pushes fall between a pop's load and its compare-exchange |
| `LfLifo.Linearizable` | include/small/lf_lifo.h:78-116 | Each successful compare-exchange is one push or pop of the abstract stack, a pop that finds nothing sees an empty stack, and a popped slab was in no other hands |
| `LfLifo.WrapBreaks` | include/small/lf_lifo.h:57-116 | With exactly 2^16 pushes in the window a pop succeeds with a stale link and a slab is both in use and on the stack |
| `LfLifo.WrapFromStart` | include/small/lf_lifo.h:57-116 | Such a run exists from the empty stack, with 2^16 pushes in the window of one pop and fewer in all others |
| `LfLifo.WindowExactly` | include/small/lf_lifo.h:57-116 | All runs with fewer than n pushes in every pop's window keep the invariant if and only if n is at most 2^16 |
| `SlabArena.NotHeld` | small/slab_arena.c:236-268 | Whoever slab_map serves is the slab's only holder, with pop and push of the stack as atomic steps |
| `SlabArena.FailsExactly` | small/slab_arena.c:236-268 | slab_map fails exactly when the quota or mmap refuses; it asks for neither while the stack has a slab, nor for mmap before all preallocated slabs were handed out |
| `SlabArena.SubtractKeeps` | small/slab_arena.c:256-263 | Undoing the counter after a failed mmap never makes it point into the preallocated area again |
| `SlabArena.StepKeeps` | small/slab_arena.c:236-279 | With the stack atomic every step keeps: no slab in two places, preallocated slabs handed out once each in order, used and the quota equal to the slabs plus the requests under way |
| `SlabArena.RunKeeps` | small/slab_arena.c:236-279 | So does every interleaving of any number of threads, with the stack atomic |
| `SlabArena.Quiet` | small/slab_arena.c:217-234 | With all slabs returned and no call under way, used, the arena's quota and the number of slabs on the stack are equal, as slab_arena_destroy asserts |
| `ArenaOverLifo.PushMoves` | small/slab_arena.c:270-279 | The compare-exchange of a push moves the slab from its caller to the stack, and no other slab |
| `ArenaOverLifo.PopMoves` | small/slab_arena.c:236-243 | In the window, the compare-exchange of a pop moves the top of the stack to its caller, and nobody else has it |
| `ArenaOverLifo.StepRefines` | small/slab_arena.c:236-279 | In the window every step inside or outside of the stack is one step of the arena with an atomic stack, or none |
| `ArenaOverLifo.RunRefines` | small/slab_arena.c:236-279 | So every run with fewer than 2^16 pushes in each pop's window keeps the invariants of both |
| `ArenaOverLifo.OneHolder` | small/slab_arena.c:236-279 | On every such run slab_map hands out no slab that another caller has, by pop, from the preallocated area or by mmap |
| `Quota.CasKeeps` | include/small/quota.h:105-181 | A successful compare-exchange of quota_set, quota_use or quota_release keeps used within total and equal to what is held and being released, by whatever threads |
| `Quota.Installed` | include/small/quota.h:105-181 | A quota_set installs the limit and leaves what is used, a quota_use or quota_release changes what is used by its units and leaves the limit |
| `Quota.StepKeeps` | include/small/quota.h:105-181 | Every step of every thread keeps that |
| `Quota.RunKeeps` | include/small/quota.h:105-181 | So does every interleaving in which no sum of units leaves 32 bits |
| `Quota.WrapExactly` | include/small/quota.h:130-155 | A successful quota_use keeps the books if and only if the 32-bit sum does not wrap |
| `Quota.WrapAccepted` | include/small/quota.h:138-147 | A wrapping use is never refused |
| `Quota.RefusedExactly` | include/small/quota.h:138-147 | Otherwise a use is refused exactly when it would exceed the limit |
| `Quota.SetExactly` | include/small/quota.h:105-124 | A quota_set is refused exactly when the new limit is below what is outstanding |
| `Quota.OverQuota` | include/small/quota.h:130-155 | A run from quota_init after which more is held than the limit |
| `QuotaLessor.Source.Use` | include/small/quota.h:130-155 | One thread at a time: the exact 32-bit result for every size; unless the sum wraps, refused, without effect, exactly when the units do not fit; a sum that wraps is never refused and takes 2^32 units off |
| `QuotaLessor.Source.Release` | include/small/quota.h:159-181 | The size rounded up to units is given back; the assertion on the size holds exactly below QUOTA_MAX |
| `QuotaLessor.Source.Borrow` | include/small/quota_lessor.h:129-139 | The halving loop is refused exactly when no request wraps and the least one that gives what is required does not fit; what it gets is the first request, or one whose double did not fit |
| `QuotaLessor.Lessor.Lease` | include/small/quota_lessor.h:118-140 | leased <= used, used in whole units, less than two megabytes kept and no change for the source's other users, all if and only if the lease is served from what is kept or its first request does not wrap, and otherwise 2^32 units are lost; a megabyte or what is missing is taken if the source has it; the exact condition for a refusal, which needs the source to have less left than twice the shortfall rounded up to a unit |
| `QuotaLessor.Lessor.EndLease` | include/small/quota_lessor.h:147-163 | The books stay right and what is kept after a release is between one megabyte and one unit more; the release never trips the assertion |
| `QuotaLessor.Lessor.Destroy` | include/small/quota_lessor.h:100-109 | The source is left with exactly what others use; the assertion in quota_release holds if and only if less than QUOTA_MAX was taken |
| `QuotaLessor.AssertionAtDestroy` | include/small/quota_lessor.h:100-109 | A lease of QUOTA_MAX from a quota of QUOTA_MAX is granted, and destroying the lessor trips the assertion |
| `Common.AlignIs` | include/small/util.h:119-131 | small_align gives the least multiple of the alignment that is not below the address |
| `LsRegion.UseRest` | include/small/lsregion.h:174-181 | New bytes come after all that is left to flush, wherever the savepoint is |
| `LsRegion.DropExact` | include/small/lsregion.h:326-364 | Dropping the leading slabs with ids up to m keeps what is left to flush exactly when everything with such ids is flushed |
| `LsRegion.Region.AlignedReserve` | small/lsregion.c:34-94 | Room at the end of the last slab, at the least multiple of the alignment; a slab is added exactly when the last has no room: large, the cached one or from the arena, at the address given; refused exactly when there is no room, the outside gives nothing and no cached slab will do |
| `LsRegion.Region.Reserve` | include/small/lsregion.h:238-257 | A reserve adds nothing to what any savepoint has left to flush, and leaves only the last slab unused; refused on that same condition |
| `LsRegion.Region.AlignedAlloc` | include/small/lsregion.h:302-319 | With an id not below the last one, the content, at a multiple of the alignment after less than alignment bytes, is appended to what every savepoint has left to flush; refused, without effect on that, on the same condition; stats stay exact; everything flushed with smaller ids stays flushed |
| `LsRegion.Region.Gc` | include/small/lsregion.h:326-364 | Exactly the leading slabs with no newer id go, and the first of the arena's size is cached if none was; what is left to flush stays if and only if everything with ids up to min_id is flushed; a collection that reaches the unused slabs leaves none |
| `LsRegion.Region.ToIovec` | small/lsregion.c:96-138 | What was left to flush is what is emitted followed by what is left now, for any limit; the iovecs are the first limit ones of the slabs not passed, up to one never used, and savepoint and id returned are those of the last; with room to spare nothing is left if and only if no unused slab stands before bytes to flush; everything with ids below the one returned is flushed, and with it too if no two slabs end with one id |
| `LsRegion.User.Alloc` | include/small/lsregion.h:302-319 | A user's allocation, with any greater id or the last one again, adds its bytes to the log, and nothing exactly when it is refused |
| `LsRegion.User.Flush` | small/lsregion.c:96-138 | A flush emits what follows in the log, as many iovecs as there are and the limit allows, all of it if there is room and nothing blocks it; ids up to the one of the last slab emitted, or one less where ids repeat, are covered |
| `LsRegion.User.Collect` | include/small/lsregion.h:326-364 | A collection up to an id covered by flushes takes exactly the leading slabs up to it and changes neither the log nor what was emitted |
| `LsRegion.Run` | small/lsregion.c:34-138 | Exactly-once flush: on every run of allocations with ids that grow by any step or repeat, reserves each consumed by an allocation that fits, flushes with any limits and collections up to any ids that flushes have covered, and a last flush, the bytes emitted are exactly the bytes of the allocations that succeeded, in order |
| `LsRegion.UnconsumedReserve` | small/lsregion.c:107-109 | A reserve that is not consumed holds back everything behind it, until a collection reaches the unused slab |
| `LsRegion.EqualIds` | include/small/lsregion.h:326-364 | Two slabs of one id, a flush of the first and a collection up to the id returned: bytes are lost |
| `Region.Region.Reserve` | include/small/region.h:214-234 | Room at the end of the newest slab, with the allocated bytes as before; a slab is added exactly when there is no room, and refused exactly when none is to be had then |
| `Region.Region.Alloc` | include/small/region.h:236-259 | The bytes of the reserved memory become allocated, at the address that the reserve returned, or nothing changes exactly when the reserve is refused |
| `Region.Region.AlignedAlloc` | include/small/region.h:270-303 | The same at a multiple of the alignment, with less than alignment bytes skipped, which count as allocated |
| `Region.Region.Truncate` | small/region.c:77-108 | Exactly the first bytes are left, over however many slabs, empty ones included; stats.used is their number; the slabs given back are the newest ones, down to the newest that still holds a byte |
| `Region.Region.Reset` | include/small/region.h:307-320 | Only the newest slab's bytes go: the region is empty afterwards if and only if no older slab held a byte |
| `Region.ResetLeaves` | include/small/region.h:307-320 | After two slabs region_reset leaves a byte allocated |
| `Region.Region.Gather` | small/region.c:129-142 | The copying loop puts the last size bytes together, in order, however many slabs they span |
| `Region.Region.Join` | small/region.c:110-145 | A contiguous chunk equal to the last size bytes, in place if the newest slab has them all, and otherwise appended; refused exactly when it has not, has no room, and no slab is to be had |
| `Region.Region.Free` | small/region.c:57-71 | Every slab is given back and nothing is left |

## Left out

- The address-sanitizer builds of all allocators, which are other programs behind the same headers.
- mmap, munmap, madvise, mprotect, malloc and poisoning: sources of aligned memory that may fail.
- Weak memory orders: atomic operations are sequentially consistent steps.
- Statistics, printing and self-checks (`slab_cache_check`, `mempool_stats`, `small_stats`,
  `matras_stats`, `read_view_extent_count`): the balance they print or check is proved instead.
- `ibuf`, `obuf`, `static`, `lifo`, `rlist`: simple buffers and links; lists are sequences here.
- `rb.h`: searches, `first`, `last`, `next`, `prev`, the reverse iterator and the recursive traversals,
  which only read; the colour is a field and not a bit of the right link, and keys are integers compared
  by value. Nodes are values: that a node keeps its address through rotations and the successor swap is
  not captured.
- `small_class_create`: the choice of effective_bits by floating point is a parameter, and so is
  size_shift, which is not negative because small_alloc_create rounds the least size up to the granularity.
- `mempool_create`: its division by 0.01 is a product by 100.
- `small_align`: the mask of a power of two is a quotient here, for any alignment.
- `mempool_destroy`, `slab_cache_destroy`, `small_alloc_destroy` and `small_alloc_info`: loops over lists
  that only hand slabs back or read one field.
- Shifts and loop counters of matras.c are on mathematical integers, so their wrap-around in 32 bits is
  not captured; ids are split by quotient and remainder. A view's handle is its place in the chain.
- The masks of small.c are sets of bit numbers below 32.
- Memory written by users is captured where it matters: into slabs of the lock-free stack by their
  holders, into blocks of matras, into reserved memory of a region. Objects of a memory pool have no
  contents here, so the free list is a sequence and not links through freed objects.
- The on-alloc and on-truncate callbacks of a region.
- QuotaLessor.Lessor.Lease: sizes are not negative.
- Quota.StepKeeps: what is released was in use, by the same or by another thread, as quota_release asserts.
- LsRegion.Region.AlignedAlloc: the content is given at once, where C code writes it after the call.
