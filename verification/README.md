# Kernel data structures: scan cache, BSD queues, mount walk, two-thread queue

A Dafny model of four parts of the repository, with proofs about all their inputs and runs.

* **Scan cache** (`RedBlack_Cache_LRU_Implementation_Kernel`). `SearchTree` and `TreeShapes` are the
  `RB_*` macros over a binary tree whose rebalancing is any list of rotations. `Records` has the
  record types and the comparators in their C widths. `CacheModel` is the map the cache stands for,
  `CacheTrees` the operations as functions on the two trees, `ScanCaches` the cache as an object with
  trees and slabs, `CacheRuns` whole runs, and `CacheFailures` the runs that go wrong. Allocation
  outcomes, clock readings and rotations are inputs.
* **BSD queues** (`Kthread_Queue/queue.h`). `TailQueue`, `CircleQueue` and `SingleTailQueue` work in
  place on linked entries. An address of a pointer field is `HeadFirst` or `NextOf(entry)`, so the
  casts behind `TAILQ_LAST` and `TAILQ_PREV` are ordinary reads.
* **Mount walk** (`Iterate_MountFS/mount_iter.c`, the `struct vfsmount` branch). `MountWalk`.
* **Two threads** (`Kthread_Queue/thread.c`). `ThreadQueue` is a step system; a run is any list of
  steps of the producer, the consumer and the module exit. `ThreadRuns` is about what runs there are.

What the proofs say about the code:

* The scan and LRU trees stay one to one over every run of insert, find-and-remove and purge, for any
  keys. With eviction they do so, whatever the rebalancing, if and only if the comparator orders the
  keys (`CacheFailures.InStepIff`). Then the cache is the map.
* The comparator subtracts unsigned fields before widening (`src/cache.c:56`, `66`). It is an order
  exactly on one device with inode numbers within half a turn. With two devices, three inserts and the
  one rotation a red-black tree then makes hide the first record; inserting its file again and
  evicting one entry leaves the trees out of step (`CacheFailures.TwoDevicesBreakPairs`).
* A failed update of an existing key drops the old entry. A refused LRU record is never freed
  (`src/cache.c:441-446`).
* A mount record whose file system name is already listed is never freed (`mount_iter.c:72`).
* Unloading the thread module can leave queued records allocated, without any signal
  (`ThreadQueue.ExitCanLeaveARecord`). It leaves exactly what came after the last drain
  (`ThreadRuns.LeftSinceLastDrain`).
* The consumer can always go on draining and the exit can always finish
  (`ThreadRuns.ConsumerDrains`, `ThreadRuns.ExitAlwaysPossible`); without signals a thread ends only
  when it is told to. A failed allocation uses up its round number (`ThreadRuns.RunWith`).
* A search that meets its key with another generation turns right, so in a tree that the comparator
  does not sort it can miss the record (`Records.OtherGenerationTurnsRight`).
* The thread counter overflows after 2^31 rounds; until then, and if every allocation succeeds only
  until then, the data increase (`ThreadQueue.IncreasingIff`).

Field widths are those of a 64-bit kernel: `dev_t` and the inode generation 32-bit unsigned, inode
numbers 64-bit unsigned. A clock reading is a normalised time after the epoch.

## Model

| member | source | states |
|---|---|---|
| SearchTree.Search | RedBlack_Cache_LRU_Implementation_Kernel/include/cache.h:58-76 | the downward loop returns what the recursive search of the same tree returns, for any comparator |
| SearchTree.FindSound | RedBlack_Cache_LRU_Implementation_Kernel/include/cache.h:58-76 | for any comparator at all, a hit is an item of the tree that compares equal |
| SearchTree.FindComplete | RedBlack_Cache_LRU_Implementation_Kernel/include/cache.h:58-76 | a comparator that points at one in-order position from everywhere finds that item in every tree shape |
| SearchTree.SortedSearch | RedBlack_Cache_LRU_Implementation_Kernel/include/cache.h:58-76 | a member of a sorted tree is found by any search key that agrees with the order on the other items |
| SearchTree.Insert | RedBlack_Cache_LRU_Implementation_Kernel/include/cache.h:30-53 | returns -1 and the untouched tree exactly when a search with the same comparator succeeds, so a reported duplicate is always found again; otherwise returns 0 and the linked tree after the given rotations |
| SearchTree.LinkInorder | RedBlack_Cache_LRU_Implementation_Kernel/include/cache.h:37-48 | linking puts the item into the in-order sequence at one place and moves nothing else, for any comparator |
| SearchTree.LinkSorted | RedBlack_Cache_LRU_Implementation_Kernel/include/cache.h:30-53 | a key that is new in one strict order lands at its sorted place, for every shape |
| SearchTree.Rebalance | RedBlack_Cache_LRU_Implementation_Kernel/include/cache.h:49-49 | the unseen rebalancing, as any list of rotations, keeps the in-order sequence |
| TreeShapes.EveryShape | RedBlack_Cache_LRU_Implementation_Kernel/include/cache.h:49-49 | rotations reach every tree with the same in-order sequence, so what holds for all rotation lists holds for all shapes |
| TreeShapes.AnyRoot | RedBlack_Cache_LRU_Implementation_Kernel/include/cache.h:49-49 | rotations can bring any item to the root |
| SearchTree.UnlinkInorder | RedBlack_Cache_LRU_Implementation_Kernel/include/cache.h:78-81 | erasing a node removes one position of the in-order sequence |
| SearchTree.UnlinkFacts | RedBlack_Cache_LRU_Implementation_Kernel/include/cache.h:78-81 | erasing removes exactly the given item and keeps any order |
| SearchTree.Erase | RedBlack_Cache_LRU_Implementation_Kernel/include/cache.h:78-81 | the unlinked tree after the given rotations, with the same in-order sequence |
| SearchTree.ReplaceFacts | RedBlack_Cache_LRU_Implementation_Kernel/include/cache.h:84-87 | replacing swaps exactly one item and keeps the order when the new one compares the same |
| SearchTree.ReplaceKeepsSearches | RedBlack_Cache_LRU_Implementation_Kernel/include/cache.h:84-87 | in any tree, sorted or not, every search that cannot tell the two items apart ends where it did, with the new item in place of the old one |
| SearchTree.First | RedBlack_Cache_LRU_Implementation_Kernel/include/cache.h:89-90 | following left children gives the first item in order, or null on the empty tree |
| Records.AntisymmetricIff | RedBlack_Cache_LRU_Implementation_Kernel/src/cache.c:44-79 | the insert comparator tells two keys apart consistently if and only if they are on one device and their inode numbers are not 2^63 apart; any two distinct devices fail |
| Records.KeyCompareMeaning | RedBlack_Cache_LRU_Implementation_Kernel/src/cache.c:44-79 | what the fixed widths compute: another device is always greater; on one device the sign is that of the inode difference modulo 2^64, negative from half a turn on |
| Records.HalfTurnOrders | RedBlack_Cache_LRU_Implementation_Kernel/src/cache.c:44-79 | on one device with inode numbers within half a turn, the wrapped comparison is the comparison of distances from the base |
| Records.OrderOnIff | RedBlack_Cache_LRU_Implementation_Kernel/src/cache.c:44-79 | the comparator is a strict total order on a set of keys if and only if they share a device and lie within half a turn of the 64-bit circle |
| Records.LexicographicIff | RedBlack_Cache_LRU_Implementation_Kernel/src/cache.c:44-79 | it is the meant (device, inode) order if and only if all keys share a device and inode numbers are less than 2^63 apart |
| Records.StampOrder | RedBlack_Cache_LRU_Implementation_Kernel/src/cache.c:142-234 | the time-stamp comparators compare times: the sign is that of the difference in nanoseconds after the epoch, seconds first, and no difference overflows |
| Records.KeySearch | RedBlack_Cache_LRU_Implementation_Kernel/src/cache.c:387-391 | the two-field search returns the record of that key, exactly, in every shape of a sorted tree |
| Records.FileSearch | RedBlack_Cache_LRU_Implementation_Kernel/src/cache.c:82-140 | three-field search in a tree ordered on two fields: the record is returned exactly when the whole triple is present |
| Records.FindCompareMeaning | RedBlack_Cache_LRU_Implementation_Kernel/src/cache.c:82-140 | the generation decides only between equal keys, and a mismatch always says greater, because 32-bit differences are never negative |
| Records.OtherGenerationTurnsRight | RedBlack_Cache_LRU_Implementation_Kernel/src/cache.c:125-131 | in any tree, sorted or not, a search that meets its key with another generation goes on in the right subtree only, and finds nothing if the file is only on the left |
| Records.StampSearch | RedBlack_Cache_LRU_Implementation_Kernel/src/cache.c:537-552 | the LRU search finds a record exactly when some record has that time stamp |
| Records.ScanLinkSorted | RedBlack_Cache_LRU_Implementation_Kernel/src/cache.c:466-469 | a scan insert keeps the tree sorted when the comparator orders all keys in use |
| Records.LruLinkSorted | RedBlack_Cache_LRU_Implementation_Kernel/src/cache.c:440-443 | an LRU insert of a new time stamp keeps the tree sorted |
| Records.SortedIsOrder | RedBlack_Cache_LRU_Implementation_Kernel/src/cache.c:44-79 | a tree that the comparator sorts shows that it orders all keys in it |
| Records.FindableIff | RedBlack_Cache_LRU_Implementation_Kernel/src/cache.c:54-75 | for every tree: all records stay findable by key under every rebalancing if and only if the comparator sorts the tree |
| Records.LinkedIsFound | RedBlack_Cache_LRU_Implementation_Kernel/src/cache.c:653-659 | a record linked where its key was not found is what a later search for its whole triple returns |
| CacheModel.DropOldestFacts | RedBlack_Cache_LRU_Implementation_Kernel/src/cache.c:632-672 | evicting n removes exactly min(n, size) entries, none if n is not positive, the time of every removed one before that of every survivor, survivors unchanged |
| CacheModel.EvictOnMap | RedBlack_Cache_LRU_Implementation_Kernel/src/cache.c:632-672 | the same for the map operation in the count it is asked for: a count of 0 or less changes nothing |
| CacheModel.RunKeepsStampsUnique | RedBlack_Cache_LRU_Implementation_Kernel/src/cache.c:352-672 | no run of operations gives two keys one time stamp |
| CacheModel.InsertKeeps | RedBlack_Cache_LRU_Implementation_Kernel/src/cache.c:352-497 | replacing or adding in both record sets, or undoing it in both, keeps them one to one (or covered) |
| CacheModel.InsertRefines | RedBlack_Cache_LRU_Implementation_Kernel/src/cache.c:380-497 | the record sets after an insert represent the map after Bind, return code included |
| CacheModel.DropBoth | RedBlack_Cache_LRU_Implementation_Kernel/src/cache.c:590-593 | dropping a scan record with the LRU record of its time stamp keeps the sets one to one |
| CacheModel.DropStale | RedBlack_Cache_LRU_Implementation_Kernel/src/cache.c:653-662 | dropping a stale LRU record together with a later scan record of the same key still leaves every scan record covered |
| CacheModel.ClashIff | RedBlack_Cache_LRU_Implementation_Kernel/src/cache.c:440-443 | in a one-to-one cache the LRU tree refuses a stamp exactly when another key of the map has it |
| ScanCaches.ScanCache.constructor | RedBlack_Cache_LRU_Implementation_Kernel/src/cache.c:20-30 | the empty cache is consistent, sorted, in step and represents the empty map |
| ScanCaches.ScanCache.RemoveLru | RedBlack_Cache_LRU_Implementation_Kernel/src/cache.c:516-524 | unlinks exactly the record and frees an address that is still allocated |
| ScanCaches.ScanCache.RemoveScan | RedBlack_Cache_LRU_Implementation_Kernel/src/cache.c:526-535 | the same for the scan tree; sortedness is kept |
| ScanCaches.ScanCache.InsertLru | RedBlack_Cache_LRU_Implementation_Kernel/src/cache.c:420-447 | 0 exactly when memory was there and no record has the stamp; a refused record stays allocated and is counted |
| ScanCaches.ScanCache.UpdateLru | RedBlack_Cache_LRU_Implementation_Kernel/src/cache.c:352-378 | swaps the record of the old stamp for one of the new stamp; -1 if there was none, no memory, or a clash with a remaining record |
| ScanCaches.ScanCache.UpdateScan | RedBlack_Cache_LRU_Implementation_Kernel/src/cache.c:380-417 | replaces the record with the same key in both trees, or drops it from both; the old record is freed once |
| ScanCaches.ScanCache.InsertScan | RedBlack_Cache_LRU_Implementation_Kernel/src/cache.c:449-497 | for any keys, ordered or not, the trees stay in step and are exactly those of InsertOn; where the comparator orders the keys the call is Bind on the map: 0 with the binding in both trees, -ENOMEM with nothing changed, -1 with the key gone |
| ScanCaches.ScanCache.FindRemoveLru | RedBlack_Cache_LRU_Implementation_Kernel/src/cache.c:554-568 | removes the record with the stamp and reports whether there was one |
| ScanCaches.ScanCache.FindRemove | RedBlack_Cache_LRU_Implementation_Kernel/src/cache.c:570-596 | true exactly when key and generation match; deletes only that key, from both trees |
| ScanCaches.ScanCache.PurgeScan | RedBlack_Cache_LRU_Implementation_Kernel/src/cache.c:598-609 | empties the scan tree, frees every scan record, leaves the LRU tree |
| ScanCaches.ScanCache.PurgeLru | RedBlack_Cache_LRU_Implementation_Kernel/src/cache.c:612-623 | empties the LRU tree; only leaked records stay allocated |
| ScanCaches.ScanCache.Purge | RedBlack_Cache_LRU_Implementation_Kernel/src/cache.c:625-629 | both trees empty, map empty, nothing but leaked LRU records allocated |
| ScanCaches.ScanCache.Evict | RedBlack_Cache_LRU_Implementation_Kernel/src/cache.c:632-672 | for any keys the trees are exactly those of EvictOn; a count of 0 or less changes nothing; on a sorted cache in step the early exit is not taken and exactly min(count, size) records leave each tree, their times before all that stay; on a sorted covered cache it stays covered |
| ScanCaches.ScanCache.EvictRounds | RedBlack_Cache_LRU_Implementation_Kernel/src/cache.c:632-672 | the loop, for any keys: the trees end exactly as EvictOn says, nothing leaks, and it ends |
| CacheTrees.OldestFound | RedBlack_Cache_LRU_Implementation_Kernel/src/cache.c:644-659 | the first LRU record leads to its own scan record, which is the oldest entry of the map |
| CacheTrees.InsertFacts | RedBlack_Cache_LRU_Implementation_Kernel/src/cache.c:352-497 | for any keys: which records an insert leaves in each tree and its code, down to the failure paths; sortedness is kept on ordered keys |
| CacheTrees.UpdatedInPlace | RedBlack_Cache_LRU_Implementation_Kernel/src/cache.c:380-417 | in any scan tree an insert that finds its key leaves every key leading where it led, with the new record in place of the old one |
| CacheTrees.TakeFacts | RedBlack_Cache_LRU_Implementation_Kernel/src/cache.c:554-596 | for any keys: a find-and-remove takes out exactly the found record and the LRU record of its stamp |
| CacheTrees.EvictFacts | RedBlack_Cache_LRU_Implementation_Kernel/src/cache.c:632-672 | any eviction only takes records away; on a sorted scan tree covered records stay covered |
| CacheTrees.EvictRound | RedBlack_Cache_LRU_Implementation_Kernel/src/cache.c:644-662 | for any keys one round takes exactly the first LRU record and the scan record its triple leads to |
| CacheTrees.EvictStops | RedBlack_Cache_LRU_Implementation_Kernel/src/cache.c:632-672 | for any keys eviction takes as many records from one tree as from the other, exactly the count unless the LRU tree runs empty or its first record leads nowhere |
| CacheTrees.EvictExact | RedBlack_Cache_LRU_Implementation_Kernel/src/cache.c:632-672 | from a sorted cache in step exactly min(n, size) records leave each tree, each older than every record that stays, and the trees stay in step |
| CacheTrees.EvictStuck | RedBlack_Cache_LRU_Implementation_Kernel/src/cache.c:653-659 | if the first LRU record leads to no scan record, eviction changes nothing, whatever the count |
| CacheTrees.NothingToEvict | RedBlack_Cache_LRU_Implementation_Kernel/src/cache.c:598-609 | after the scan tree alone was purged, eviction leaves every LRU record where it is |
| ScanCaches.ScanCache.ContentsStampsUnique | RedBlack_Cache_LRU_Implementation_Kernel/src/cache.c:632-672 | in step, no two entries share a stamp, so the oldest is unique |
| ScanCaches.ScanCache.AllocationConserved | RedBlack_Cache_LRU_Implementation_Kernel/src/cache.c:352-535 | allocated scan records are as many as scan nodes; allocated LRU records are the LRU nodes plus the refused inserts, which Run counts from the outcomes |
| CacheRuns.Allocate | RedBlack_Cache_LRU_Implementation_Kernel/src/cache.c:332-350 | a slab hands out an address not in use, or fails |
| CacheRuns.Step | RedBlack_Cache_LRU_Implementation_Kernel/src/cache.c:449-672 | one operation is one event on the trees; its outcome, the refusal counter and the relations between the trees are stated |
| CacheRuns.Run | RedBlack_Cache_LRU_Implementation_Kernel/src/cache.c:352-672 | every run is a run of events; without eviction the trees stay in step and covered for any keys; on ordered keys contents and outcomes are those of the map; with scan-only purges every scan record keeps its LRU record; refused grows by exactly the inserts that got both records and returned -1 |
| CacheRuns.PerformKeeps | RedBlack_Cache_LRU_Implementation_Kernel/src/cache.c:449-672 | on ordered keys one call keeps the cache sorted and in step and does to the map what the map operation says, outcome included |
| CacheRuns.ExecKeeps | RedBlack_Cache_LRU_Implementation_Kernel/src/cache.c:352-672 | the same for every run, for all addresses, clock readings and rotations |
| CacheFailures.Relapse | RedBlack_Cache_LRU_Implementation_Kernel/src/cache.c:466-497 | if the oldest record cannot be found by its key, inserting its file again and evicting one entry takes the trees out of step |
| CacheFailures.ChainMustTurn | RedBlack_Cache_LRU_Implementation_Kernel/include/cache.h:49-49 | the only red-black tree over a chain of three has the middle record at the root |
| CacheFailures.OneTurnIsRedBlack | RedBlack_Cache_LRU_Implementation_Kernel/include/cache.h:49-49 | the chain itself is no red-black tree; one left rotation at its root makes it one |
| CacheFailures.TwoDevicesBreakPairs | RedBlack_Cache_LRU_Implementation_Kernel/src/cache.c:632-672 | a run of the code from the empty cache, with the rotations red-black trees make: three files, the first on another device, the first again, evict one; the trees end out of step |
| CacheFailures.UnorderedFails | RedBlack_Cache_LRU_Implementation_Kernel/src/cache.c:54-75 | over any keys the comparator does not order (two devices, half a turn apart, or a circle of three) some run with some rebalancing ends out of step |
| CacheFailures.InStepIff | RedBlack_Cache_LRU_Implementation_Kernel/src/cache.c:44-79 | every run over a set of keys, under every rebalancing, ends in step if and only if the comparator orders the set, that is one device and within half a turn |
| TailQueue.Queue.constructor | Kthread_Queue/queue.h:371-374 | an empty well-formed queue |
| TailQueue.Queue.Write | Kthread_Queue/queue.h:389-389 | storing through an address changes the pointer at that position and nothing else |
| TailQueue.Queue.InsertHead | Kthread_Queue/queue.h:393-401 | the new entry is prepended; every pointer and address field is right |
| TailQueue.Queue.InsertTail | Kthread_Queue/queue.h:403-408 | the new entry is appended |
| TailQueue.Queue.InsertAfter | Kthread_Queue/queue.h:376-384 | the new entry goes right behind the given one |
| TailQueue.Queue.InsertBefore | Kthread_Queue/queue.h:386-391 | the new entry goes right in front of the given one, without the head |
| TailQueue.Queue.Remove | Kthread_Queue/queue.h:418-425 | exactly the given position goes; the removed entry keeps its own fields |
| TailQueue.Queue.Last | Kthread_Queue/queue.h:410-411 | reading tqh_last as a head gives the last entry, or null when empty |
| TailQueue.Queue.Prev | Kthread_Queue/queue.h:415-416 | reading tqe_prev as a head gives the predecessor, or null at the first entry |
| TailQueue.Queue.Forward | Kthread_Queue/queue.h:355-358 | the forward loop sees the whole sequence and ends |
| TailQueue.Queue.Backward | Kthread_Queue/queue.h:360-363 | the reverse loop sees exactly the reverse |
| TailQueue.Queue.Drain | Kthread_Queue/queue.h:365-369 | removing and freeing inside the safe loop empties the queue in order, frees each entry once and reads no freed entry |
| CircleQueue.Queue.constructor | Kthread_Queue/queue.h:462-465 | both ends of the empty ring are the head |
| CircleQueue.Queue.InsertAfter | Kthread_Queue/queue.h:467-475 | the new entry goes right behind the given one, both directions linked |
| CircleQueue.Queue.InsertBefore | Kthread_Queue/queue.h:477-485 | the new entry goes right in front of the given one |
| CircleQueue.Queue.InsertHead | Kthread_Queue/queue.h:487-495 | the new entry is prepended |
| CircleQueue.Queue.InsertTail | Kthread_Queue/queue.h:497-505 | the new entry is appended |
| CircleQueue.Queue.Remove | Kthread_Queue/queue.h:513-524 | exactly the given position goes |
| CircleQueue.Queue.BothWays | Kthread_Queue/queue.h:452-460 | the two traversals see one sequence from its two ends |
| SingleTailQueue.Queue.constructor | Kthread_Queue/queue.h:209-212 | an empty well-formed queue |
| SingleTailQueue.Queue.InsertHead | Kthread_Queue/queue.h:220-224 | the new entry is prepended and the tail address kept right |
| SingleTailQueue.Queue.InsertTail | Kthread_Queue/queue.h:226-230 | the new entry is appended through the tail address |
| SingleTailQueue.Queue.InsertAfter | Kthread_Queue/queue.h:214-218 | the new entry goes right behind the given one |
| SingleTailQueue.Queue.RemoveHead | Kthread_Queue/queue.h:254-258 | the first entry goes; an emptied queue is well formed |
| SingleTailQueue.Queue.RemoveHeadUntil | Kthread_Queue/queue.h:260-263 | everything up to and including the given entry goes |
| SingleTailQueue.Queue.Remove | Kthread_Queue/queue.h:240-252 | the predecessor search ends for every member and exactly that entry goes |
| SingleTailQueue.Queue.Last | Kthread_Queue/queue.h:232-236 | the entry around the tail address is the last one, null when empty |
| MountWalk.PlaceUnique | Iterate_MountFS/mount_iter.c:186-246 | a mount's links determine its place in the tree |
| MountWalk.EachMountOnce | Iterate_MountFS/mount_iter.c:186-246 | the links of a finite mount tree force every mount to occur once in preorder |
| MountWalk.GetRoot | Iterate_MountFS/mount_iter.c:84-129 | climbing parents from any mount of the tree ends at its root |
| MountWalk.Climb | Iterate_MountFS/mount_iter.c:208-214 | the climb ends at the nearest place on the way up with a next sibling, or at the root |
| MountWalk.LandingFacts | Iterate_MountFS/mount_iter.c:208-214 | the climb skips nothing: the mounts left to visit stay the same |
| MountWalk.Advance | Iterate_MountFS/mount_iter.c:192-224 | the next mount is the head of what is left to visit in preorder; null exactly at the end |
| MountWalk.Iterate | Iterate_MountFS/mount_iter.c:149-252 | from any start the walk ends, visits the recursive preorder once each, lists each allocated file system name at its first occurrence, counts the records it leaks; at each visit there is one more reference on that mount and none on any other, and all are given back |
| MountWalk.AddRef | Iterate_MountFS/mount_iter.c:232-234 | getting or putting a reference changes the count of that mount alone |
| MountWalk.HasName | Iterate_MountFS/mount_iter.c:46-60 | true exactly when a listed record has the same file system name |
| MountWalk.AddRecord | Iterate_MountFS/mount_iter.c:62-82 | appends only a new name; on a duplicate the fresh record is leaked; on failed allocation nothing changes |
| MountWalk.FirstSeenFacts | Iterate_MountFS/mount_iter.c:46-82 | the first-occurrence list has the same names and no duplicates |
| MountWalk.FirstSeenOrder | Iterate_MountFS/mount_iter.c:46-82 | first occurrences keep their order |
| MountWalk.AllocatedAt | Iterate_MountFS/mount_iter.c:62-82 | exactly the mounts whose kmalloc was granted give a name, each behind as many names as were granted before |
| MountWalk.AllAllocated | Iterate_MountFS/mount_iter.c:62-82 | with every allocation succeeding, the listed names are those of all mounts |
| ThreadQueue.Int32Exact | Kthread_Queue/thread.c:48-48 | the int counter is the round number modulo 2^32 in the range of an int, equal to it exactly below 2^31 |
| ThreadQueue.LikeTheMacros | Kthread_Queue/thread.c:126-129 | on every well-formed TailQueue.Queue the queue steps are what its head and next fields, InsertTail and Remove give |
| ThreadQueue.ProducerKeeps | Kthread_Queue/thread.c:57-89 | every producer step keeps the invariant; what a round does with and without memory is stated by DataAreGrantedRounds and RoundsWith |
| ThreadQueue.ConsumerKeeps | Kthread_Queue/thread.c:108-142 | every consumer step, also inside the drain, keeps the invariant; that it goes on draining is stated by ConsumerDrains and EndsOnlyWhenTold |
| ThreadQueue.ExitKeeps | Kthread_Queue/thread.c:165-175 | every step of the module exit keeps the invariant |
| ThreadQueue.RunKeeps | Kthread_Queue/thread.c:45-175 | every interleaving keeps the invariant |
| ThreadQueue.FirstInFirstOut | Kthread_Queue/thread.c:57-142 | in every interleaving the data removed so far followed by the data queued are the data enqueued so far |
| ThreadQueue.Increasing | Kthread_Queue/thread.c:73-82 | the enqueued data strictly increase as long as no round number reached 2^31 |
| ThreadQueue.IncreasingIff | Kthread_Queue/thread.c:73-82 | when every round enqueued its record, the data strictly increase if and only if there are at most 2^31 of them |
| ThreadQueue.NoUseAfterFree | Kthread_Queue/thread.c:125-135 | in every interleaving each step touches allocated records only, each free hits an allocated record, and allocations are frees plus live records |
| ThreadQueue.LeftAtExit | Kthread_Queue/thread.c:165-175 | what is left when the exit returns is exactly what was enqueued since the last drain |
| ThreadQueue.LateDrainLeavesNothing | Kthread_Queue/thread.c:165-175 | a drain that takes the lock after the producer ended leaves an empty queue and no live record at the exit |
| ThreadQueue.ExitCanLeaveARecord | Kthread_Queue/thread.c:137-140 | a run without any signal in which the exit returns with a record still queued |
| ThreadRuns.ConsumerDrains | Kthread_Queue/thread.c:108-142 | from every reachable state in which the consumer is alive, not about to see its stop flag, and the producer does not hold the lock, consumer steps alone lead to the end of a drain: queue empty, everything enqueued removed in order, lock free |
| ThreadRuns.EveryRunCanBeDrained | Kthread_Queue/thread.c:108-142 | whatever any run enqueued, consumer steps alone can remove all of it, as long as its stop flag is down |
| ThreadRuns.EndsOnlyWhenTold | Kthread_Queue/thread.c:61-140 | in every run a thread ends only if its stop flag is up or it was sent a signal; flags never go down again |
| ThreadRuns.OrderlyEnd | Kthread_Queue/thread.c:165-175 | in every run without signals the producer ends only after it was told to, and the consumer only after it was told to and the producer had ended |
| ThreadRuns.SignalEnds | Kthread_Queue/thread.c:61-70 | a thread that meets a signal while it waits takes no further step in any run |
| ThreadRuns.SignalIsEnough | Kthread_Queue/thread.c:108-121 | from every reachable state with the stop flag down and the lock not with the producer, a signal alone can end the consumer, because it waits before every drain |
| ThreadRuns.LeftSinceLastDrain | Kthread_Queue/thread.c:165-175 | the data left at the exit are exactly those enqueued after the last drain came to its end |
| ThreadRuns.GrantedFacts | Kthread_Queue/thread.c:73-82 | the granted numbers are exactly the indices of granted outcomes, strictly increasing |
| ThreadRuns.RunCounts | Kthread_Queue/thread.c:73-82 | in every run each kmalloc, failed or not, is one round, and the rounds that enqueued are those whose kmalloc was granted |
| ThreadRuns.DataAreGrantedRounds | Kthread_Queue/thread.c:73-82 | in every run the data, with the one in hand, are the numbers of exactly the rounds whose kmalloc was granted, in order; a failed one uses up its number |
| ThreadRuns.GrantedRound | Kthread_Queue/thread.c:57-89 | a round that gets memory leads to exactly the state with its number appended |
| ThreadRuns.FailedRound | Kthread_Queue/thread.c:57-89 | a round that gets no memory uses up its number and changes nothing else |
| ThreadRuns.RoundsWith | Kthread_Queue/thread.c:57-89 | from every state between two rounds and for every list of kmalloc outcomes the producer alone has a run that meets them |
| ThreadRuns.RunWith | Kthread_Queue/thread.c:57-89 | for every list of kmalloc outcomes a run whose data are exactly the indices of the granted ones, in order |
| ThreadRuns.RunOfLength | Kthread_Queue/thread.c:57-89 | for every n a run in which n rounds enqueue the numbers from 0 on, as C ints |
| ThreadRuns.OverflowHappens | Kthread_Queue/thread.c:76-82 | a run whose data do not increase |
| ThreadRuns.ServedInTurn | Kthread_Queue/thread.c:57-142 | for every n a run in which n records are enqueued and removed one drain at a time, both threads ready for the next after each |
| ThreadRuns.ExitAlwaysPossible | Kthread_Queue/thread.c:165-175 | no deadlock: from every reachable state, without any signal, the exit can finish with both threads ended |

## Left out

- The kernel's `rbtree` code: rebalancing is any list of rotations; the red-black rules appear only as the shapes they allow in `CacheFailures`.
- Tree nodes as linked memory: the trees are values held in fields of the cache, so parent pointers and the in-place rewriting of child pointers are not captured; record addresses, allocation and frees are.
- Concurrent callers of the scan cache: locks are released between search and change, so calls are sequential here.
- NULL arguments of the comparators (`src/cache.c:51`, `89`): no caller passes one.
- The `status` field, `printk` output, the `#if 0` functions, and slab creation and destruction (`src/cache.c:674-714`).
- thread.c as two endless loops: it is a step system over values, one step per lock operation, read, unlink and free; wait-queue timing and `kthread_stop` on a thread that a signal already ended are not modelled.
- Other kernel-version branches of the mount walk, RCU and the dcache lock: the same algorithm.
- The printing and freeing of the record list (`mount_iter.c:262-275`): a plain loop over the list.
- SLIST and DLIST, `Userspace_Queue_using_BSD_Example/queue.h` (the same macros again), and the `insque`/`remque` helpers.
- The netlink, fanotify, procfs, file-descriptor, uname, System.map, insmod, rmmod, kfifo and logging samples: input and output plumbing around unseen libraries.
