# EFS in Dafny

A model of EFS, an encrypted and hash-protected file system that runs inside an enclave, with proofs
of what its parts promise each other. Operations run one after the other, without threads.

The project is built in layers, each proved against the one below:

- **Ordered map** (`RbShape` to `RbTree`, `EfsMap`). The red-black tree is a heap of nodes with parent
  pointers. A ghost tree and a ghost path to the root (a zipper) say what the heap looks like around the
  node at hand; insertion and removal are proved with the invariant "all rules hold except here".
- **Hash set** (`SetTheory`, `SetGrowth`, `SetRemoval`, `HashSet`, `SetAlgebra`). Linear probing, growth in
  place, the set algebra. Growth is proved for all tables by splitting the pass at the old length: the keys
  cannot fill the new half, and an empty slot there cuts every probe path short. Removal loses keys in some
  tables; exactly which is proved.
- **Cache** (`Queue`, `Cache`, `CacheLoss`, `InodeCache`). Two rings of at most 256 nodes with write-back and pinning; what
  is seen through the cache, the order of both lists, and how the inode cache pins blocks of the block cache.
- **File tree** (`Layout` to `Routes`, `Relations`, `Carrying`, `Room`, `FileBytes`, `Enclave`, `OpenFile`). Direct and indirect
  blocks with hashes that are brought up to date lazily. The ghost map `A` from addresses (an inode and a path
  of indices) to block numbers is the tree; `Merkle.Inv` is the invariant of all runs without deletions: the
  tree is linked, no block number occurs twice, and every block on disk hashes to its pending hash, or else to
  the hash in its parent. On top of it, reads and writes are those of a flat sequence of bytes. `Carrying`
  keeps account of references and of the route each cached block was handed, `Room` of the blocks allocated.
- **Flush** (`Flush`, `Mend`, `Cascade`, `StaleRoutes`, `Misroute`). At unmount, deduplication drops the pending blocks
  that another one's route passes, and the cascade writes the hashes of the others along their routes. For true
  routes it is told exactly which hashes are right afterwards; for all routes that transfers can hand out, which
  slots are left alone, and what ends up in the others. Data blocks always have true routes (`Routes.Routed`);
  index blocks are handed true ones throughout a transfer exactly if it is `Straight`.
- **Whole runs** (`Sessions`, `Dinode`, `Remount`, `Mkfs`, `Lifetime`). Any sequence of operations refines the same
  sequence on a map from inode numbers to types, keys and bytes; unmounting and mounting in between, down to the bytes of
  inodes, bitmaps and superblock, makes no difference. Where each field and bit is on the disk is stated on the bytes, and
  a life begins with the disk that mkfs makes.
- **Bitmaps** (`Bits`, `BitTricks`, `Bitmap`, `BitmapDisk`). Words are numbers with the bit operators defined on them, so that
  the population count modulo 255 and the smearing trick can be proved for every word. `BitmapDisk` connects the
  words with blocks of bytes and with the sets of numbers in use.
- **Mount and paths** (`Superblock`, `Paths`).

The cipher is any pair of functions with decryption undoing encryption (`Crypto.Sane`), the hash any function.
Running `dafny verify dfyconfig.toml` checks everything.

Three of the places where the code does less than it seems to promise:

- `set_remove` (enclave/set.c:63-75) relays out only up to the end of the array. `SetRemoval.RemovedReachable`
  says exactly when all other keys stay reachable, and `SetRemoval.RemovalCanLoseAKey` gives a table where one does not.
- The route array of `inode_rw_data` is cleared once per call (enclave/inode.c:370). By `StaleRoutes.StraightIff` all
  index blocks are handed true routes if and only if the transfer touches one block, or no block beyond number 10
  (`Straight`); such transfers keep the flush right (`Sessions.Session`). `StaleRoutes.CrossingStale` is a transfer of
  two blocks that leaves a wrong route in the cache. A block with a wrong route is harmless if another waiting route
  passes through it and a kept block lies below it. `EnclaveStore.Enclave.BlockExit` says exactly which hashes are
  missing when none does, with `StaleRoutes.LostHash` as an example. If a block with a left-over route is kept itself,
  `Misroutes.WrongSlots` says which two slots go wrong, unless hashes agree, and `Misroutes.MisroutedExit` is a whole
  flush that does. The data blocks are right either way; what a wrong hash breaks is validation when its block is
  loaded again.
- A promotion takes the node out of the FIFO queue before it is known whether the LRU queue can take it
  (enclave/cache.c:52-55). It fails exactly for an id that is `Stuck`: not in the LRU queue, while that is full of
  pinned nodes (`Caches.Cache.Find`). `Caches.LostPromotionIff` says when nothing is lost then, and
  `CacheLosses.AboutToLose` runs into a state where something is.

## Model

| member | source | states |
|---|---|---|
| `RbShape.InorderPlug` | enclave/rbtree.c:356-382 | the nodes of a tree in order are those before a position, those below it and those after it, for every position |
| `RbShape.WfPlug` | enclave/rbtree.c:3-47 | children and parent pointers that agree around a position agree in the whole tree |
| `RbTheory.RBPlug` | enclave/rbtree.c:49-112 | a tree obeys all red-black rules exactly if every subtree does and the rules hold along the path above it |
| `RbRotate.RotateLeft` | enclave/rbtree.c:3-24 | a left rotation at any place of a tree gives the rotated tree with consistent parent pointers and leaves the rest of the tree alone |
| `RbRotate.RotateRight` | enclave/rbtree.c:26-47 | the mirror image of RotateLeft |
| `RbTheory.RotInorder` | enclave/rbtree.c:3-47 | rotations keep the order of the nodes |
| `RbInsert.Grandparent` | enclave/rbtree.c:53-60 | a red parent is never the root, and its parent is black |
| `RbInsert.Recoloured` | enclave/rbtree.c:59-69 | recolouring parent and uncle keeps all rules except one possible red pair, two levels nearer the root |
| `RbInsert.Turned` | enclave/rbtree.c:71-82 | the rotations keep the order of the nodes and end with the red node under a black parent, nearer the root |
| `RbInsert.InsertStep` | enclave/rbtree.c:53-109 | each round keeps the order of the nodes and all rules but one, and comes nearer to the root |
| `RbInsert.InsertColor` | enclave/rbtree.c:49-112 | from a red leaf just linked in, the loop ends in a red-black tree with the same nodes in the same order |
| `RbErase.SiblingExists` | enclave/rbtree.c:119-137 | the sibling of a subtree that is one black node short is never missing, and the children of a red sibling are both there and black |
| `RbErase.SiblingLiftedIsShort` | enclave/rbtree.c:124-130 | rotating a red sibling above the parent keeps the deficit in place and the order of the nodes |
| `RbErase.FadedIsShort` | enclave/rbtree.c:131-137 | turning the sibling red moves the deficit one level up and changes nothing else |
| `RbErase.RepaidIsHealed` | enclave/rbtree.c:147-152 | the last rotation makes up for the missing black node: all rules hold again |
| `RbErase.EraseStep` | enclave/rbtree.c:119-189 | each round either restores all rules or moves the deficit on, at a decreasing measure |
| `RbErase.EraseColor` | enclave/rbtree.c:114-192 | a tree with one subtree one black node short becomes a red-black tree with the same nodes in the same order |
| `RbTree.Erase` | enclave/rbtree.c:194-259 | erasing any node of a red-black tree leaves a red-black tree, with consistent pointers, of exactly the other nodes in the same order |
| `RbTree.First` | enclave/rbtree.c:332-342 | the first node in order, or none |
| `RbTree.Next` | enclave/rbtree.c:356-382 | the node that follows in order, or none after the last |
| `EfsMap.Map.Search` | enclave/map.c:12-27 | the data stored under an id, or nothing if the id is absent |
| `EfsMap.Map.Insert` | enclave/map.c:29-84 | an absent id is added with its data; a present id is reported and the map stays as it is |
| `EfsMap.Map.Delete` | enclave/map.c:95-105 | a present id is removed and its data handed out; an absent id is reported |
| `EfsMap.Map.ClearIter` | enclave/map.c:107-120 | the k-th call of a walk delivers the k-th entry in order of ids, and the call after the last one rewinds the cursor |
| `EfsMap.Map.Walk` | enclave/block.c:397-402 | a loop over the iterator meets each id of the map once, in ascending order |
| `SetTheory.Pigeonhole` | enclave/set.c:235-250 | fewer keys than slots leave a slot empty |
| `SetTheory.SeekSpec` | enclave/set.c:261-280 | where a probe ends, told from the table alone |
| `HashSets.ProbeIsExact` | enclave/set.c:235-280 | in a sound table, which the load limit never lets fill up, a probe finds a key if and only if it is stored, and never reports a full circle |
| `HashSets.HashSet.GetSlot` | enclave/set.c:261-280 | the probe loop computes the probe function |
| `SetGrowth.Destination` | enclave/set.c:297-310 | during a pass a probe for the node in slot i ends at i or at an earlier hole on its path |
| `SetGrowth.Grown` | enclave/set.c:235-250 | doubling a table and relaying it out in place keeps exactly the same nodes, each once, and makes every one reachable, whatever clusters wrapped around before |
| `HashSets.HashSet.RelayoutNodes` | enclave/set.c:297-310 | the relayout loop computes the relayout function on the array |
| `HashSets.HashSet.Grow` | enclave/set.c:235-250 | growth keeps the set and the soundness of the table |
| `HashSets.HashSet.Add` | enclave/set.c:53-56 | adding a key gives the set with that key, with the return code telling whether it was there |
| `HashSets.HashSet.AddHashed` | enclave/set.c:230-259 | the same with the hash at hand; the table doubles exactly if the key is new and more than a quarter of the slots are used |
| `HashSets.HashSet.Contains` | enclave/set.c:58-61 | membership |
| `SetRemoval.Removed` | enclave/set.c:63-75 | emptying a slot and relaying out from there takes away exactly that key from the table |
| `SetRemoval.RemovedReachable` | enclave/set.c:63-75 | after a removal every other key can still be found if and only if no key wrapped around to the front has its home at or before the last hole of the pass |
| `SetRemoval.RemovalCanLoseAKey` | enclave/set.c:297-310 | two keys with the same home in the last slot: removing the first hides the second |
| `HashSets.HashSet.Remove` | enclave/set.c:63-75 | exactly that key leaves, the other keys stay findable if and only if the condition of RemovedReachable holds, and an absent key is reported |
| `SetAlgebra.Union` | enclave/set.c:97-114 | union into an empty set; an occupied result is refused |
| `SetAlgebra.Intersection` | enclave/set.c:116-130 | intersection into an empty set |
| `SetAlgebra.Difference` | enclave/set.c:132-147 | difference into an empty set |
| `SetAlgebra.SymmetricDifference` | enclave/set.c:149-171 | symmetric difference into an empty set |
| `SetAlgebra.IsSubset` | enclave/set.c:173-183 | the subset relation |
| `SetAlgebra.IsSubsetStrict` | enclave/set.c:185-190 | the strict subset relation |
| `SetAlgebra.Compare` | enclave/set.c:192-208 | sizes are compared first; sets of the same size are equal exactly if one includes the other |
| `Queues.DropIndexed` | enclave/queue.c:11-24 | list and index stay in agreement when a node leaves both |
| `Queues.Queue.Evict` | enclave/queue.c:11-24 | the node is unhooked from the ring and the index, and the rest of the queue keeps its order |
| `Queues.OldestFree` | enclave/queue.c:26-38 | the last node of the list without references, and everything behind it is held |
| `Queues.Queue.DieOut` | enclave/queue.c:26-38 | the oldest unpinned node leaves; if all nodes are pinned nothing changes |
| `Queues.Queue.InsertToHead` | enclave/queue.c:40-57 | the node becomes the first; a full queue first gives up its oldest unpinned node, or refuses when there is none; the length stays at most 256 |
| `Queues.Queue.MoveToHead` | enclave/queue.c:59-62 | a listed node becomes the first and no node has to leave, so the overflow panic of the cache cannot happen |
| `Queues.Queue.Search` | enclave/queue.c:64-69 | the listed node with the id, or none |
| `Caches.PromoteOrdered` | enclave/cache.c:47-61 | after a promotion the FIFO list is still ordered by insertion and the LRU list by last access, and every node in it has been accessed again after it was inserted |
| `Caches.PromoteSeen` | enclave/cache.c:47-61 | a promotion that finds room or a victim changes the content of no id; one that fails reverts exactly the promoted id to what the store holds |
| `Caches.LostPromotionIff` | enclave/cache.c:47-61 | a failed promotion, which happens exactly to ids that are `Stuck`, is harmless if and only if the node held what the store holds, so always for a clean node |
| `Caches.InsertSeen` | enclave/cache.c:102-138 | inserting an empty node for an absent id, with whatever eviction that takes, changes the content of no id |
| `Caches.Cache.Find` | enclave/cache.c:29-67 | a cached id is found except exactly when it waits in the FIFO queue while the LRU queue is full of pinned nodes; an access makes it the latest of the LRU queue, whose oldest unpinned node leaves if there is no room; every other content and every pinned node stays, and the store changes only for an id that leaves |
| `Caches.Cache.Promote` | enclave/cache.c:47-61 | the whole effect of a promotion on both queues and the store |
| `Caches.Cache.InsertGet` | enclave/cache.c:102-138 | a new node held once; it fails exactly if the FIFO queue is full of pinned nodes; pinned nodes stay cached |
| `Caches.Cache.TryGet` | enclave/cache.c:140-161 | a found node is held once more and no other reference count changes; both lists end as cache_find leaves them; the store changes only for an id that leaves |
| `Caches.Cache.Bget` | enclave/block.c:206-239 | the node returned is held once more than before, or once if it is newly loaded, and holds the current content of the id; no content changes unless the id had to be promoted while the LRU queue was stuck; no node is returned exactly if the id is not cached and the FIFO queue is full of pinned nodes; both lists end as `Shifted` says; of the other ids, cached nodes stay what they are or leave, held ones stay, and the store changes only for those that leave |
| `Caches.Cache.Put` | enclave/cache.c:163-172 | overwriting a cached node and marking it dirty changes the content of that id and of no other |
| `Caches.Cache.Return` | enclave/cache.c:185-199 | the reference count drops by one, and neither lists, store nor any content change |
| `Caches.Cache.Exit` | enclave/cache.c:230-253 | afterwards the store holds the current content of every id |
| `CacheLosses.AboutToLose` | enclave/cache.c:47-61 | a run from an empty cache into a state in which the next access to a written block loses what has been written |
| `InodeCaches.SlotPlace` | enclave/layout.h:65-66 | an inode's block and its place in it give back its number |
| `InodeCaches.ResidentPins` | enclave/inode.c:105-142 | the block that holds a cached inode is cached and has a reference, so it cannot be evicted |
| `InodeCaches.Unpinned` | enclave/inode.c:38-88 | between operations a block can be evicted if and only if no inode in it is cached |
| `InodeCaches.InodeCache.IcacheCbWrite` | enclave/inode.c:38-88 | writing back an inode always finds its block, changes no inode and no other block, marks the block dirty only for a dirty inode, and keeps the reference count of each block equal to the number of cached inodes in it |
| `InodeCaches.InodeCache.Iget` | enclave/inode.c:105-142 | the inode returned is the current one and is held once more than before; on a hit nothing else changes; otherwise no held inode leaves, none that stays changes, and pinning and all inodes are kept through the evictions on the way |
| `InodeCaches.InodeCache.Update` | enclave/inode.c:149-152 | changing a held inode changes that inode, marks it dirty and touches no other, and no reference count changes |
| `InodeCaches.InodeCache.Return` | enclave/inode.c:144-147 | the inode is held once less, and nothing else changes |
| `InodeCaches.InodeCache.Exit` | enclave/inode.c:669-672 | afterwards every inode is in its block and no block is held |
| `Layout.PathIsExact` | enclave/inode.c:220-347 | the index decomposition stays in range at every level and recomposes to the block number |
| `Layout.PathInjective` | enclave/inode.c:220-347 | different blocks have different paths |
| `Layout.PathOrdered` | enclave/inode.c:220-347 | the paths of the blocks of a file are in lexicographic order, so the tree holds the blocks in the order of the file |
| `Layout.InodePlace` | enclave/layout.h:61-66 | inodes fill the inode blocks without gaps, in the order of their numbers |
| `Layout.OffsetsFit` | enclave/inode.c:369-373 | every 32-bit offset falls into some block of the tree |
| `Layout.DepthMonotone` | enclave/inode.c:372-373 | the depth never decreases from one round of a transfer to the next |
| `Blocks.PutHashExact` | enclave/inode.c:175-189 | writing the hash of one index entry changes that hash and nothing else in the block's entries |
| `Blocks.PutBidExact` | enclave/inode.c:205-209 | writing the block number of one index entry changes that number and nothing else in the block's entries |
| `Blocks.EntryBytes` | enclave/layout.h:7-10 | the bytes that hold the number and the hash of each entry of an index block |
| `MerkleSteps.EvictKeeps` | enclave/block.c:28-137 | evicting any unpinned block keeps the lazy hash invariant and changes no view |
| `MerkleSteps.ReloadValidates` | enclave/block.c:144-194 | an evicted block whose pending hash has been pulled passes validation against its parent's slot when it is loaded again |
| `MerkleSteps.LoadKeeps` | enclave/block.c:144-194 | loading a block keeps the invariant and changes no view |
| `MerkleUpdates.PullKeeps` | enclave/inode.c:159-189 | moving a pending hash into the slot that points to the block keeps the invariant and every data block |
| `MerkleUpdates.GraftKeeps` | enclave/inode.c:191-217 | allocating a block for a hole keeps the invariant, keeps block numbers unique across all trees, and changes no data block |
| `MerkleUpdates.StoreKeeps` | enclave/inode.c:378-385 | writing a data block changes that block and no other, and keeps the invariant |
| `Routes.GraftRouted` | enclave/inode.c:220-347 | growing the tree keeps the route of every cached or pending data block true |
| `Carrying.HandingStep` | enclave/inode.c:251-343 | each level of a lookup adds the block at hand, with the route array as it is then, to the pairs that the cache may have taken over, and gives back what it held |
| `Carrying.UnderwayStep` | enclave/inode.c:370-389 | each round of a transfer starts with the array that the round before has left, and adds its own pairs |
| `EnclaveStore.Enclave.BcacheCbWrite` | enclave/block.c:28-137 | the write-back step on the enclave's state |
| `EnclaveStore.Enclave.GetBlockFromDisk` | enclave/block.c:144-194 | the block is accepted exactly if its decrypted content has the expected hash; a new block is zero |
| `EnclaveStore.Enclave.Bget` | enclave/block.c:206-239 | getting a block never fails validation in a sound state, whatever is evicted meanwhile; the block is held once more, every other as often as before, and if it was not cached it carries the route passed in |
| `EnclaveStore.Enclave.BlockAlloc` | enclave/block.c:302-305 | the least block number not in use; nothing is returned exactly if none is left, since the bitmap then panics (enclave/bitmap.c:142), which never returns |
| `Rooms.RoomLeft` | enclave/block.c:302-305 | when blocks are free for everything that the tree lacks of a set of addresses, and some of them have been allocated, then blocks are free for all the rest |
| `EnclaveStore.Enclave.InodeSlot` | enclave/inode.c:233-248 | the slot of the inode is read with its true hash, or filled with a fresh block and the hash of zeros, which is the only case that takes a free block; unless it was, a state in which nothing waits stays one |
| `EnclaveStore.Enclave.IndexLookupOneLevel` | enclave/inode.c:191-217 | the entry of an index block is read with its true hash, or filled with a fresh block and the hash of zeros, which is the only case that takes a free block, and the lookup cannot fail; no block is held longer, and an index block just loaded carries the route passed in; unless a block was allocated, a state in which nothing waits stays one |
| `EnclaveStore.Enclave.InodeIndexLookup` | enclave/inode.c:220-347 | the block found is the one at the path of the block number, the route handed on is its true route and the hash is that of its slot; no data block changes; exactly the addresses that the way to it lacked have been allocated; no block is held longer; the index block at depth d was handed the true route above d and, from d on, what the array held before |
| `FileBytes.WriteFinished` | enclave/inode.c:375-395 | a finished transfer has changed its own range of its own file and nothing else |
| `FileBytes.BlocksInOrder` | enclave/inode.c:372-388 | a file is what its data blocks hold, one after the other, each at the path of its number |
| `EnclaveStore.Enclave.ReadData` | enclave/inode.c:350-395 | a read returns exactly the bytes of the flat file in the range, up to the end of the file; nothing if the range wraps around; no file changes and no block is allocated; all references are returned; the blocks loaded carry the routes that StraightIff speaks of, so a straight read keeps all routes true, and every read keeps them inside their files; where nothing was dirty or pending, nothing is afterwards, and neither disk nor inodes have changed |
| `EnclaveStore.Enclave.WriteData` | enclave/inode.c:350-395 | a write turns the flat file into the old one with the bytes replaced or appended, all other files stay; nothing happens if the range reaches the largest offset; exactly the blocks of the range and the index blocks above them that the tree lacked are allocated, always the lowest free ones, and one free block for each is all it takes; all references are returned, a straight write keeps all routes true, and every write keeps them inside their files |
| `EnclaveStore.Enclave.NewInode` | enclave/inode.c:459-482 | a fresh inode has its type and key and is an empty file, no other file changes, and routes stay true |
| `StaleRoutes.FirstRoundExact` | enclave/inode.c:370-373 | in the first round of a transfer every index block is handed its true route |
| `StaleRoutes.LaterRoundIff` | enclave/inode.c:370-376 | in a later round the index block at depth d is handed its true route if and only if the block before lay no deeper than d |
| `StaleRoutes.RoundIff` | enclave/inode.c:370-376 | the round for block x hands every index block its true route if and only if it is the first one or x is at most 10 |
| `StaleRoutes.StraightIff` | enclave/inode.c:370-376 | all routes handed out by a transfer of n bytes at off are true if and only if it touches one block, or no block beyond number 10 |
| `StaleRoutes.TransferRouted` | enclave/inode.c:350-395 | a transfer of that kind keeps every cached and pending block on its true route |
| `StaleRoutes.NamesItself` | enclave/inode.c:259-262 | for two blocks below the same index block, the route handed with it in the second round passes through itself |
| `StaleRoutes.CrossingStale` | enclave/inode.c:264-318 | a transfer of blocks 122 and 123 that first loads the index block at slot 11 caches it with the entry of block 122 in its route |
| `StaleRoutes.LostHash` | enclave/block.c:393-408 | a block whose own route passes through it, waiting alone, is exactly what the flush leaves behind |
| `Misroutes.TransferInFiles` | enclave/inode.c:350-395 | every transfer, straight or not, leaves all cached and pending blocks with routes through index blocks of one and the same file |
| `Cascading.ThroughSafe` | enclave/block.c:424-447 | writing a hash along any such route changes hashes only, and no slot becomes more or less right than it was, unless the route names it or its block |
| `Misroutes.ThroughChain` | enclave/block.c:424-447 | along any route through different blocks the deepest entry ends up with the hash of the pending block, and every other entry with the hash of the block that the next entry names |
| `Misroutes.WrongSlots` | enclave/block.c:424-439 | the hash of an index block written along a left-over route ends up in the slot of the block transferred before, and the own slot of the index block gets the hash of the index block on the way to that one; each is right afterwards if and only if the two hashes agree |
| `Misroutes.MisroutedExit` | enclave/block.c:377-456 | a flush that goes wrong: when all that deduplication keeps is an index block with the route left over from a data block, the slot of that data block ends up with the hash of the index block as it was before the exit, so it is right if and only if the two hashes agree |
| `Cascading.ThroughClimbs` | enclave/block.c:424-447 | along a true route, each entry written repairs one slot and passes the damage to the block above, until the inode is reached |
| `Flush.KeptIff` | enclave/block.c:393-408 | with true routes, deduplication keeps exactly the waiting blocks that lie above no other waiting block |
| `Flush.KeptBelow` | enclave/block.c:393-408 | with true routes, there is a kept block at or below every waiting one |
| `Flush.LeftStays` | enclave/block.c:28-137 | writing back any block, held or not, does not change which blocks wait for the flush and under which routes; of clean blocks it asks nothing |
| `Flush.TrueGuided` | enclave/block.c:393-439 | with true routes on pending and dirty blocks, the flush leaves no block behind |
| `Mending.MendSettled` | enclave/block.c:428-439 | after one slot has been rewritten, that slot is right, and any other is right if and only if it was, unless it belongs to the block written |
| `Mending.MendOnlyHashes` | enclave/block.c:428-442 | rewriting one slot changes no byte outside the hashes of index entries and inodes |
| `Flush.FlushStarts` | enclave/block.c:393-415 | if the kept blocks have true routes, then after the cache's exit and deduplication whatever is not settled lies over a block that still waits, or belongs to the blocks dropped for nothing |
| `Flush.ClimbStep` | enclave/block.c:428-442 | one level of the cascade keeps the flush invariant, and neither repairs nor damages what is left behind |
| `Flush.FlushEnds` | enclave/block.c:417-447 | when nothing waits any more, a slot holds the hash of its child on disk if and only if it was not left behind or was right before |
| `EnclaveStore.Enclave.CacheExit` | enclave/cache.c:230-253 | every block is written back, held or not; no view changes, and the blocks that wait for the flush keep their routes |
| `EnclaveStore.Enclave.Deduplicate` | enclave/block.c:393-408 | the two loops compute the deduplicated map |
| `EnclaveStore.Enclave.Cascade` | enclave/block.c:417-447 | one pending entry is written through to its inode: the loop computes the specified chain of rewritten hashes, whatever the route |
| `EnclaveStore.Enclave.BlockExit` | enclave/block.c:377-456 | whatever routes inside their files the waiting blocks carry, nothing is cached or pending afterwards, the kept entries have been written through one after the other in ascending order, and nothing but hashes has changed; a slot that no kept route names is right exactly if it was up to date; if the kept routes are true, a slot is right if and only if its block was not dropped with no kept block below it, or its slot was up to date before; if all are right, the tree is sound and every file is the same; where nothing was dirty or pending, nothing is written |
| `EnclaveStore.FlushableExit` | enclave/block.c:377-456 | with true routes on pending and dirty blocks, the kept routes are true and nothing is left behind |
| `BitTricks.SmearStep` | enclave/bitmap.h:15-24 | an or-shift step by d doubles the width over which bits have been smeared |
| `BitTricks.NextPow2Least` | enclave/bitmap.h:15-24 | NEXT_POW2_64 is the least power of two above the word, for every word: 1 for 0, and 0 when the power is no word any more |
| `BitTricks.DigitsCount` | enclave/bitmap.h:7-13 | for every 64-bit word, masks, shifts and the division by 255 of BITCOUNT64 leave the number of ones |
| `BitTricks.FirstEmptyIs` | enclave/bitmap.h:26-37 | for every 64-bit word BITMAP_FIRST_EMPTY_64 is -1 exactly if the word is all ones, and otherwise the position of its highest zero |
| `Bitmaps.FirstFreeIsLeast` | enclave/bitmap.c:52-60 | the highest zero of the first word that is not full is the least free number, and setting it takes that number and no other |
| `Bitmaps.HintKeeps` | enclave/bitmap.c:62-63 | all words before the hint stay full, also when the word used is not the one at the hint |
| `Bitmaps.InodeBitmap.Alloc` | enclave/bitmap.c:43-67 | the least free inode number is returned and marked, and no other; the hint moves on by one exactly if the word of that number is full now; with none free the result is 0 and nothing changes; once the hint has passed the last word, the variable that was never set decides, and the code writes behind the bitmap unless it happens to be -1 |
| `Bitmaps.DataBitmap.Alloc` | enclave/bitmap.c:89-144 | the same for data blocks across all bitmap blocks, with hint and maxbid raised as needed |
| `BitmapImages.WordsBack` | enclave/bitmap.c:176-192 | 64-bit words laid out in the bytes of a block are read back the same |
| `BitmapImages.TakenByte` | enclave/layout.h:57-72 | which bit of which byte of a bitmap block stands for a number: words have their least significant byte first, numbers count from the most significant bit down |
| `BitmapImages.ImageTaken` | enclave/bitmap.c:89-144 | in the bitmap block made for a set, exactly the numbers of the set are taken |
| `BitmapImages.SomeFree` | enclave/bitmap.c:142 | a data bitmap that takes exactly the blocks in use is full exactly if no block is free |
| `BitmapImages.AllocAgrees` | enclave/bitmap.c:89-144 | allocating the least free number of such a bitmap allocates the least block not in use, and bitmap and set agree again: no block in use is handed out |
| `Superblocks.UnpackPack` | enclave/superblock.c:31-105 | the superblock, which fits into its blocks, survives being laid out in bytes and read back |
| `Superblocks.FieldBytes` | enclave/layout.h:80-95 | the bytes that hold magic, maxbid and rootinode and each key, iv and hash of a superblock |
| `Superblocks.PackedBytes` | enclave/superblock.c:97-98 | the bytes at which unmounting puts them, and zeros behind |
| `Superblocks.KeyBytes` | enclave/layout.h:78-101 | the bytes that hold key, iv and hash of each metadata block |
| `Superblocks.SbBlocks` | enclave/superblock.c:23-29 | the superblock is its decrypted blocks in order |
| `Superblocks.RekeyOne` | enclave/superblock.c:76-99 | giving one metadata block a new key and recording its hash keeps every plaintext and every validation |
| `Superblocks.Volume.SbExit` | enclave/superblock.c:66-114 | every metadata block keeps its plaintext under its new key, which is the one given for it, every recorded hash is right, data blocks stay, and the hash returned is that of the superblock on disk |
| `Superblocks.Volume.SbInit` | enclave/superblock.c:14-54 | mounting succeeds if and only if the superblock has the expected hash and every metadata block the hash recorded for it |
| `Superblocks.MountAfterUnmount` | enclave/superblock.c:14-114 | a mount with the hash an unmount returned succeeds and finds the same superblock |
| `Sessions.Run` | enclave/inode.c:350-482 | any sequence of creations, reads and writes acts on the files as on a map from inode numbers to types, keys and bytes, and reads what that map holds; it allocates exactly the blocks that the map says it needs, and a free block for each is all it takes; a run of reads leaves a state in which nothing waits as it is |
| `Sessions.Session` | enclave/block.c:377-456 | the flush behind any sequence of operations leaves those files, with their types and keys; if all transfers are straight, it leaves them in a tree with every hash right, from which the next session can start; a session of reads, straight or not, writes nothing and leaves every hash right when nothing waited before it |
| `Sessions.FirstSession` | enclave/efs.c:13-56 | the same from an empty store on, for any operations that need no more blocks than there are |
| `Dinodes.InodeBack` | enclave/inode.c:71-83 | an inode copied field by field into its slot of an inode block is read back the same, and the other inodes of the block are untouched |
| `Dinodes.InodeBytes` | enclave/layout.h:18-24 | the bytes that hold each field of each inode of an inode block |
| `Dinodes.HashLater` | enclave/block.c:441-443 | changing one hash of an inode on disk after the inode has been written gives the same bytes as changing it before |
| `Remounts.WriteTable` | enclave/inode.c:38-88 | every inode can be read back from the encrypted inode blocks, and no data block changes |
| `Remounts.WriteBitmap` | enclave/bitmap.c:176-192 | the bitmap of a set is on the disk afterwards, encrypted, and no other block has changed |
| `Remounts.MetaRead` | enclave/bitmap.c:22-41 | the numbers that the bitmap blocks on the disk take are the inodes and blocks in use, and the inodes read back are those of the store |
| `Remounts.NumbersOn` | enclave/bitmap.c:22-41 | on the disk of a store, the bits of the inode bitmap stand for its inodes and those of the data bitmap for its blocks in use, counted from the data zone on |
| `Remounts.BitBytes` | enclave/layout.h:57-72 | the byte and bit of the disk that stand for a number in either bitmap |
| `Remounts.InodeOnBytes` | enclave/layout.h:65-66 | the block and place of an inode on the disk |
| `Remounts.Unmount` | enclave/efs.c:36-56 | whatever the transfers were, the decrypted files stay the same, with their types and keys, the disk holds the inodes, both bitmaps and the data blocks, and what mounting asks for is there; which hashes are right is told as for BlockExit; every metadata block has the new key given for it, and maxbid is the highest block ever in use |
| `Remounts.Mount` | enclave/efs.c:13-34 | a mount succeeds if and only if superblock and metadata have the hashes expected; inodes and the numbers in use are read off the disk, and are those that have been left there, as are the files |
| `Remounts.Remount` | enclave/efs.c:13-56 | any session, unmounted with a hash and mounted with it: the mount succeeds and the decrypted files, with types and keys, are those that the operations make; if all transfers are straight, or all operations are reads, every hash is right |
| `Formats.Mkfs` | mkfs/mkfs.c:127-187 | the bytes that mkfs writes are what an unmount leaves of a store with nothing but the root directory, with maxbid just before the data zone and the keys given |
| `Formats.FirstMount` | mkfs/mkfs.c:106-187 | a disk made by mkfs can be mounted with the hash mkfs noted, and holds an empty root directory of the type and key given, no other inode and no block in use |
| `Lifetimes.Lifetime` | enclave/efs.c:13-56 | from a disk made by mkfs on, through any number of unmounts and mounts, files, types, keys and reads are those of one uninterrupted run on the map that begins with the root directory, whose needs have to fit into the disk; maxbid is the highest block in use; every hash is right in the end if the last session is straight or reads only, too |
| `Paths.WellFormedIff` | enclave/file.c:78-100 | a path has at most one sequence of names, which reading it from the left finds |
| `Paths.PathCheck` | enclave/file.c:78-100 | exactly the root and the sequences of names of 1 to 13 letters and digits, each behind a slash, are accepted; the empty path is such a sequence |
| `Paths.PathSplit` | enclave/file.c:102-119 | the search for a slash stays inside the string if and only if there is one, for accepted paths if and only if they are not empty; then the parts are those around the last slash, and of an accepted path the upper part is well formed again, the last part is a name and joining them gives the path back |
| `Paths.NameOfNextLevel` | enclave/inode.c:414-426 | the text up to the next slash and what follows; it fails only on a name longer than 13 |
| `Paths.Components` | enclave/inode.c:540-545 | over an accepted path the loop never fails and yields exactly its names |
| `OpenFiles.OpenFile.constructor` | enclave/file.c:144-159 | the offset starts at 0, or at the end of a writable file opened for appending |
| `OpenFiles.OpenFile.Read` | enclave/inode.c:589-602 | the next bytes of the file, and the offset moves behind them (enclave/file.c:196-207); nothing from a directory |
| `OpenFiles.OpenFile.Write` | enclave/inode.c:604-617 | the bytes at the offset are replaced, the offset moves behind them and stays inside the file (enclave/file.c:209-226); a directory, or a file not open for writing, is left alone and needs no room |
| `OpenFiles.OpenFile.Eof` | enclave/file.c:228-237 | whether the offset is at the end |
| `OpenFiles.OpenFile.Seek` | enclave/file.c:250-273 | a seek succeeds exactly if its target lies in the file or at its end, also when 32-bit addition would wrap |
| `OpenFiles.ReadBack` | enclave/file.c:196-226 | what has been written can be read back at the same offset, and the bytes beside it are the old ones |

## Left out

- Threads, locks and the windows between them: every operation runs alone.
- Deletion of inodes, blocks and directory entries, and nodes marked deleted.
- `ibm_free` and `dbm_free`, which address single bytes while allocation uses whole words.
- Directories and `inode_get` as a whole: name lookup in directory data, and `fopen`'s set of open paths.
- Malloc, disk and random-number failures. A full data bitmap panics (enclave/bitmap.c:142), which never returns (app/ocall.c:98-102); operations that allocate ask for room for exactly what the tree lacks.
- The FNV-1a hash, AES and SHA-256 themselves: any functions of their types.
- The single-precision comparison of the load factor, written as `4 * used > slots`; rounding matters only beyond 2^24 slots.
- Integer widths of counters and sizes that no operation brings to their limit; 32-bit offsets, sizes and seeks wrap as in the code.
- Set operations on aliased operands: result and operands are distinct sets with the same hash function.
- `block_alloc`'s test for 0 never succeeds, since data block numbers start at DATA_START; the branch is not modelled.
- EnclaveStore.Enclave: the block cache there may evict any unpinned block at any time, which covers every order that the two queues can produce: `Caches.Cache.Bget` lets other ids only leave or stay as they are. A failed promotion is excluded. The blocks in use are a set, as `BitmapImages.AllocAgrees` sees the bitmap. The inode table is a map, as seen through the inode cache.
- InodeCaches.InodeCache: evictions are free choices in the same way; an inode block is the sequence of its inodes, and its encryption and validation are not repeated there.
- Caches.Cache: the two cache instances are one class over byte contents; the index of each queue is a map, not the red-black tree that enclave/map.c puts there.
- EnclaveStore.Enclave.ReadData: starts from an offset inside the file or at its end, which `fseek`, `fread` and `fwrite` guarantee (`OpenFiles.OpenFile`); files have no holes then, and index entries are not read where nothing has been written.
- EnclaveStore.Enclave.WriteData: starts from an offset inside the file or at its end, for the same reason.
- EnclaveStore.Enclave.InodeSlot: reads only slots that have been filled, as does every lookup behind it, for the same reason.
- Lifetimes.Lifetime: all sessions but the last are straight or read only, since the next session relies on every hash being right; any single session is covered by `Remounts.Remount`.
- Remounts.Unmount: the program has one disk; the model puts the store's data zone and the volume's metadata together here, and writes the inodes out after the cascade, which gives the same bytes (`Dinodes.HashLater`).
- EfsMap.Map.Walk: the static cursor of `map_clear_iter` is an object handed to each call.
- Bitmaps.InodeBitmap.Alloc: where the code would write behind the bitmap, the model stops and says so.
- Paths.PathSplit: where the code would read before the string, the model stops and says so.
- Superblocks.Volume.SbExit: the new keys are parameters, here and in `Formats.Mkfs`; that they are unpredictable is not modelled.
