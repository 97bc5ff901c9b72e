# A verified model of the pooled containers and allocators

This project models a header-only C++ toolkit of containers and memory pools in Dafny and proves what its code does:
an ordered map (a red-black tree over nodes with parent pointers), an open-addressing hash map, a linked hash list that
serves as a cache, two pooled lists, a block pool with counted handles, an object pool, a copy-on-write segmented
vector and a ring queue. `dafny verify dfyconfig.toml` checks everything.

## How the model is built

Code that changes objects is modelled as classes and methods that change the same fields in the same order. What the
methods mean is said by values:

- `RedBlackTree`, `RedBlackRepair` know trees as values: a subtree, and the place around it (a zipper). The loops of
  `fix_insert` and `fix_erase` are steps on such pairs; the erase loop keeps "this subtree is one black node short".
- `NodeLinks`, `NodeRepair` know the pointers and colours of all nodes as one map, and every group of pointer
  assignments as a function on it. `View` says that the pointers are exactly a tree seen from a place in it.
- `PooledMap` is the class. Its ghost field `links` records the pointers of the heap, and each method is proved to make
  the record what the function says.
- `HashTable` says what a probe sequence finds in a sequence of slots; `PooledHashMap` is the class over an array;
  `Floats` rounds its counts as single-precision floats do.
- `NodeChain` is the doubly linked chain that `PooledList` and `PooledHashList` share; `Recency` is the linked hash
  list as a sequence of pairs together with the order in which keys were put and used; `PooledLinkedHashList` is the
  class.
- `SlotBitmap` reads 64-bit words as sets of slots; `BlockMemPool` has the segments and buckets; `BlockHandles` lets any
  number of threads allocate, copy, move and drop handles in any interleaving; `BlockScans` says what an allocation has
  seen by the time it takes a slot or adds a segment.
- `SegVector` keeps a record of all control blocks, segments, handles and the free stack of one element type, so that
  one handle can be compared with all others.
- `SegVectorRuns` compares runs over any number of vectors with runs over variables that share nothing.
- `RWRingQueue`, `SegmentedObjectPool` and `MathBits` follow the files of the same names; `Wrappers` has the few
  definitions that several modules share.

The maps, the hash lists, the vector, the queue and the object pool each come with a method `Replay` that executes any
run of operations and is proved to answer as the mathematical object does: a finite map, an order of use, a sequence,
independent variables, a set of objects.

Machine words are natural numbers, with wrap-around written out where the code depends on it. A method whose source would
go wrong at some point returns whether it does not, and says exactly when that is.

## Where the code does less than its names promise

Each of these is proved with the exact condition under which the code does what is expected. The tables, lists, runs and
pools that an entry names are concrete failures.

- `round_up_power_of_two` returns 0 for arguments above 2^63, so `chooseBucketSize` then returns the minimum block size:
  a block is large enough exactly for requests of at most 2^63 bytes (`MathBits.RoundUpPowerOfTwo`,
  `BlockMemPool.ChooseBucketSize`, and for products of sizes, which wrap around, `BlockMemPool.BlockFor`). A hash table
  asked for more than 2^63 slots gets none, and one whose slots take more than 2^63 bytes a block that is too small
  (`PooledHashMap.PooledHashMap.constructor`). The same holds for the slots of a queue (`RWRingQueue.Create`,
  `RWRingQueue.RWRingQueue.EnsureCapacity`).
- `PooledHashMap::rehash` asks neither whether the pairs fit into the slots nor whether the slots fit into the block: it
  goes right exactly when there are no more pairs than new slots and these take at most 2^63 bytes
  (`PooledHashMap.PooledHashMap.Rehash`, with nine pairs in `PooledHashMap.RehashOverflows` and with 2^59 slots in
  `PooledHashMap.RehashWraps`).
- An insertion into a table without a free slot that is not grown dereferences a null pointer. Counts are compared as
  floats, and 2^24 + 1 is the same float as 2^24, so a load limit keeps an empty slot in every table exactly when it is
  below 1, and in a table of 2^k slots exactly when it is below 1 + 2^-k, for k < 24, or below 1
  (`PooledHashMap.LoadLimit`, `PooledHashMap.TableLimit`, `PooledHashMap.PooledHashMap.InsertValue`, and 2^24 pairs with a
  load limit of 1 in `PooledHashMap.FullAtOne`). In a run whose load limits are below 1 and whose rehashes leave room, no
  operation goes wrong while the slots fit in memory (`PooledHashMap.Replay`).
- `PooledHashList::insert` at either end counts the element twice; `insert_list` at the front of a list that has elements
  keeps a cache whose every entry is wrong; `clear` keeps the cache (`PooledHashList.PooledHashList.Insert`,
  `PooledHashList.PooledHashList.InsertList`, `PooledHashList.PooledHashList.Clear`, with lists built by these calls in
  `PooledHashList.CountedTwice`, `PooledHashList.StaleExample` and `PooledHashList.StaleAfterClear`).
- A block handle count has 32 bits. Dropping a handle frees the slot exactly when the number of its handles is 1 modulo
  2^32, which is the drop of the last handle unless there are more than 2^32 of them (`BlockHandles.DropReturns`); the
  pool stays sound through a run exactly when no such drop occurs (`BlockHandles.DropExact`, `BlockHandles.RunExact`),
  and a run in which it does occur is `BlockHandles.WrapFrees`.
- `SegmentVector` finds its elements by shift and mask, which is right for every index exactly when the segment size is a
  power of two (`SegVector.AddressesExact`); a page size divided by the size of an element need not be one. Where they
  miss the index, another cell of the same or an earlier segment is read or written
  (`SegVector.SegmentVector.PushBack`, `SegVector.SegmentVector.Set`, `SegVector.SegmentVector.Get`). For elements larger
  than a page the segment size is 0, and adding segments never makes room (`SegVector.GrowsExact`).
- `RWRingQueue::clear` reads the flag of every slot of the block, and only the slots asked for have been set up. It
  destroys exactly the items, whatever the block holds from before, if and only if every slot has been set up or holds an
  item, which for an empty queue means that the block has no more slots than were asked for
  (`RWRingQueue.LeftoversMatter`, `RWRingQueue.EmptyQueueLeftovers`, and a queue of one slot in a block of two in
  `RWRingQueue.LeftoverDestroyed`).
- `SegmentedObjectPool::clear` drops the segments and keeps the free stack, and `deallocate` accepts a pointer that is not
  live (`SegmentedObjectPool.SegmentedObjectPool.Clear`, `SegmentedObjectPool.SegmentedObjectPool.Deallocate`, with pools in
  `SegmentedObjectPool.DanglingAfterClear` and `SegmentedObjectPool.FreedTwice`).

## Model

| member | source | states |
|---|---|---|
| MathBits.RoundUpPowerOfTwo | Foundations/MathBits.hpp:36-51 | the smearing loop-free code yields the least power of two not below the argument if and only if the argument is at most 2^63, and 0 otherwise |
| MathBits.SmearStep | Foundations/MathBits.hpp:42-48 | one shift-and-or doubles the run of ones below the highest bit |
| MathBits.PowerOfTwoTrick | Foundations/MathBits.hpp:32-34 | `v & (v - 1)` is 0 exactly for powers of two |
| MathBits.MaskIsRemainder | HPContainer/PooledHashMap.hpp:518-528 | masking with a power of two minus one is the remainder |
| MathBits.RoundUpToMultiple | Foundations/MathBits.hpp:53-59 | on words: the least multiple that is not below the value, if and only if that multiple is a word |
| MathBits.Gcd | Foundations/MathBits.hpp:11-18 | the loop returns a common divisor that is an integer combination of both arguments, hence the greatest |
| MathBits.Lcm | Foundations/MathBits.hpp:20-22 | the exact result is a common multiple and divides every common multiple, and is 0 exactly when an argument is; the result is the exact one if and only if that is a word |
| MathBits.FindFirstZeroBit | Foundations/MathBits.hpp:61-71 | for a word other than all ones the search stops at the lowest clear bit |
| Floats.RoundedNearest | HPContainer/PooledHashMap.hpp:461-461 | a count converted to a float is the float nearest to it |
| Floats.RoundedMonotone | HPContainer/PooledHashMap.hpp:461-461 | the conversion keeps the order of counts |
| Floats.RoundedNext | HPContainer/PooledHashMap.hpp:461-461 | one more than a power of two is a float of its own exactly below 2^24 |
| RedBlackTree.PlugRedBlack | HPContainer/PooledMap.hpp:242-344 | a whole tree is red-black exactly when the subtree and its surroundings are and fit together |
| RedBlackTree.SizeAtLeast | HPContainer/PooledMap.hpp:11-25 | a balanced tree of black height h has at least 2^h - 1 nodes |
| RedBlackTree.SearchLength | HPContainer/PooledMap.hpp:87-95 | a path of length h in a red-black tree satisfies 2^(h/2) <= number of keys + 1, with h/2 rounded up |
| RedBlackTree.SearchEnd | HPContainer/PooledMap.hpp:54-62 | an empty subtree reached by comparing proves that the key is absent, in a sorted tree |
| RedBlackRepair.UncleRedStep | HPContainer/PooledMap.hpp:247-252 | recolouring below a red uncle keeps keys and the insert invariant, two levels up |
| RedBlackRepair.InnerStep | HPContainer/PooledMap.hpp:254-258 | the inner rotation keeps keys and the insert invariant |
| RedBlackRepair.OuterStep | HPContainer/PooledMap.hpp:259-262 | the outer rotation keeps keys and ends the repair with a red-black tree |
| RedBlackRepair.InsertEnd | HPContainer/PooledMap.hpp:282-283 | when the loop stops, blackening the root gives a red-black tree |
| RedBlackRepair.SiblingExists | HPContainer/PooledMap.hpp:289-297 | a node that is one black node short has a sibling, so the erase loop never dereferences a missing one |
| RedBlackRepair.SiblingRedStep | HPContainer/PooledMap.hpp:290-296 | rotating a red sibling up keeps keys and the erase invariant and leaves a black sibling |
| RedBlackRepair.PushUpStep | HPContainer/PooledMap.hpp:297-301 | reddening the sibling moves the missing black node to the parent |
| RedBlackRepair.NephewStep | HPContainer/PooledMap.hpp:303-308 | turning a red inner nephew outwards keeps keys and the erase invariant |
| RedBlackRepair.SettleStep | HPContainer/PooledMap.hpp:309-315 | the last rotation restores the missing black node and keeps the keys |
| RedBlackRepair.EraseEnd | HPContainer/PooledMap.hpp:343-344 | when the loop stops, blackening x gives a red-black tree |
| RedBlackRepair.SuccessorKeys | HPContainer/PooledMap.hpp:129-146 | replacing a node by its successor removes exactly its key from the in-order keys |
| RedBlackRepair.SuccessorColors | HPContainer/PooledMap.hpp:130-152 | after it the tree is red-black, or one black node short where a black successor was taken out |
| NodeLinks.ViewTurnedLeft | HPContainer/PooledMap.hpp:217-227 | the pointer assignments of `rotate_left` turn the pointers of a tree into those of the rotated tree, parent pointers included |
| NodeLinks.ViewTurnedRight | HPContainer/PooledMap.hpp:230-240 | the same for `rotate_right` |
| NodeLinks.ViewTransplanted | HPContainer/PooledMap.hpp:353-358 | `transplant` puts a subtree in the place of another |
| NodeLinks.ViewSucceeded | HPContainer/PooledMap.hpp:142-146 | the successor takes over place, children and colour of the erased node |
| NodeRepair.UncleRedView | HPContainer/PooledMap.hpp:249-252 | the colour assignments of the red-uncle case are those of the step on trees |
| NodeRepair.OuterView | HPContainer/PooledMap.hpp:260-262 | the assignments of the outer case are those of the step on trees |
| NodeRepair.ViewSettled | HPContainer/PooledMap.hpp:310-313 | the assignments of the last erase case are those of the step on trees |
| PooledMap.PooledMap.RotateLeft | HPContainer/PooledMap.hpp:217-227 | the method's pointer writes are the function on links, and the root is updated with them |
| PooledMap.PooledMap.RotateRight | HPContainer/PooledMap.hpp:230-240 | the same for the right rotation |
| PooledMap.PooledMap.Transplant | HPContainer/PooledMap.hpp:353-358 | the same for `transplant` |
| PooledMap.PooledMap.Minimum | HPContainer/PooledMap.hpp:347-350 | walking left ends at the least node of the subtree |
| PooledMap.PooledMap.FixInsert | HPContainer/PooledMap.hpp:243-283 | the loop terminates, and the pointers are those of a red-black tree with the same in-order keys |
| PooledMap.PooledMap.FixErase | HPContainer/PooledMap.hpp:286-344 | started one black node short, at a node that may be missing, the loop terminates with the pointers of a red-black tree with the same in-order keys |
| PooledMap.PooledMap.Locate | HPContainer/PooledMap.hpp:55-62 | the search loop finds the node of the key exactly when the map has it, within 2 log2(size + 1) steps |
| PooledMap.PooledMap.Index | HPContainer/PooledMap.hpp:54-79 | `operator[]` adds a default value for a new key and leaves an existing pair and the tree alone |
| PooledMap.PooledMap.Find | HPContainer/PooledMap.hpp:87-95 | `find` returns the value of the key or a default value, within the search bound |
| PooledMap.PooledMap.Contains | HPContainer/PooledMap.hpp:166-174 | `contains` says whether the map has the key, within the search bound |
| PooledMap.PooledMap.Size | HPContainer/PooledMap.hpp:158-158 | `size_` is the number of keys of the map |
| PooledMap.PooledMap.Erase | HPContainer/PooledMap.hpp:106-155 | `erase` removes exactly the key, returns how many were removed, and keeps a red-black tree with consistent parent pointers |
| PooledMap.PooledMap.ReplaceBySuccessor | HPContainer/PooledMap.hpp:129-146 | both successor cases leave the pointers of the tree without the key, and say where a black node is missing |
| PooledMap.PooledMap.InorderTraverse | HPContainer/PooledMap.hpp:370-375 | the recursion visits the keys of the subtree in order |
| PooledMap.PooledMap.ForEach | HPContainer/PooledMap.hpp:184-186 | every pair is visited once, in strictly ascending order of keys |
| PooledMap.Replay | HPContainer/PooledMap.hpp:54-174 | over any run of operations from an empty map, all answers, the size and the final traversal are those of a finite map |
| HashTable.NotInMap | HPContainer/PooledHashMap.hpp:520-531 | an empty slot on the probe path, or a full round, proves the key absent |
| HashTable.Stored | HPContainer/PooledHashMap.hpp:539-562 | storing a new key in a free slot of its probe path keeps every key findable, the new one included |
| HashTable.Buried | HPContainer/PooledHashMap.hpp:378-383 | a tombstone keeps every other key findable and removes exactly the erased pair |
| HashTable.EmptyingLoses | HPContainer/PooledHashMap.hpp:379-379 | emptying a slot instead of leaving a tombstone loses every key whose probe path crosses it |
| HashTable.EmptySlot | HPContainer/PooledHashMap.hpp:455-464 | a table that its occupied and erased slots do not fill has an empty slot |
| PooledHashMap.MaskIsNext | HPContainer/PooledHashMap.hpp:528-528 | the masked increment steps through the probe sequence with wrap-around |
| PooledHashMap.PooledHashMap.FindExistingIndex | HPContainer/PooledHashMap.hpp:512-532 | the index is below the bucket count exactly when the map has the key, and is then its slot |
| PooledHashMap.PooledHashMap.FindSlotForInsert | HPContainer/PooledHashMap.hpp:534-563 | the slot of the key, or the first free slot on its probe path, tombstones included; there is none only in a table full of other keys |
| PooledHashMap.PooledHashMap.constructor | HPContainer/PooledHashMap.hpp:168-174 | a new table is empty, with the normalised number of slots, which is none for counts above 2^63; it is sound if and only if the slots take at most 2^63 bytes |
| PooledHashMap.PooledHashMap.Rehash | HPContainer/PooledHashMap.hpp:415-443 | it goes right if and only if the pairs are no more than the new slots and these take at most 2^63 bytes; then the map and its size are kept, no tombstone is left, and the probe invariant holds under the new mask |
| PooledHashMap.PooledHashMap.Reserve | HPContainer/PooledHashMap.hpp:408-413 | a table with as many slots as required stays exactly as it is; any other gets the least power of two from the required number on, and never fewer slots than it had up to 2^63; after `reserve(n)` the table does not grow before n slots are in use, whatever the float division rounds, and a quarter of its slots, if they are more than 8, would have been too few |
| PooledHashMap.ReservedRun | HPContainer/PooledHashMap.hpp:408-464 | in any run of insertions, assignments, erasures, clearing, lookups and further reservations a reservation for n lasts, the number of slots never falls, and no insertion makes the table grow while fewer than n slots are in use |
| PooledHashMap.ReserveReserves | HPContainer/PooledHashMap.hpp:408-413 | `reserve` in a run makes such a reservation, unless it leaves no slots at all |
| PooledHashMap.PooledHashMap.InsertRehashedValue | HPContainer/PooledHashMap.hpp:484-489 | one pair is stored with its kept hash and counted; it fails exactly in a full table |
| PooledHashMap.PooledHashMap.EnsureCapacityForInsert | HPContainer/PooledHashMap.hpp:455-464 | the table doubles exactly when the load as a float exceeds the limit; afterwards a slot is empty unless every slot was used and the table was not grown |
| PooledHashMap.PooledHashMap.InsertValue | HPContainer/PooledHashMap.hpp:312-329 | a new pair is stored and counted, an existing one is left alone, and the returned slot holds the key; it goes wrong exactly when the block of the grown table is too small, or when the key is new and the table is full of pairs and not grown |
| PooledHashMap.PooledHashMap.Put | HPContainer/PooledHashMap.hpp:266-272 | an assignment through `operator[]` sets exactly that pair, and goes wrong exactly when the insertion does |
| PooledHashMap.PooledHashMap.Erase | HPContainer/PooledHashMap.hpp:372-384 | exactly the key leaves the map, the two counts stay exact, and the result says whether it was there |
| PooledHashMap.PooledHashMap.Clear | HPContainer/PooledHashMap.hpp:399-406 | the map is empty, and so are both counts |
| PooledHashMap.PooledHashMap.Contains | HPContainer/PooledHashMap.hpp:368-370 | the result says whether the map has the key |
| PooledHashMap.PooledHashMap.SetMaxLoadFactor | HPContainer/PooledHashMap.hpp:255-257 | every value from the least limit on is taken as it is, and every other one becomes the least limit |
| PooledHashMap.LeastLoadIsTenth | HPContainer/PooledHashMap.hpp:255-257 | the least limit is the float nearest to 0.1 |
| PooledHashMap.LoadLimit | HPContainer/PooledHashMap.hpp:455-464 | with counts as floats, a load limit keeps an empty slot in every table if and only if it is below 1 |
| PooledHashMap.TableLimit | HPContainer/PooledHashMap.hpp:455-464 | for a table of 2^k slots the exact limit is 1 + 2^-k below 2^24 slots, and 1 from there on |
| PooledHashMap.PooledHashMap.SkipToOccupied | HPContainer/PooledHashMap.hpp:158-162 | the iterator stops at the first occupied slot and passes none |
| PooledHashMap.PooledHashMap.Walk | HPContainer/PooledHashMap.hpp:176-183 | iterating from begin to end meets every pair once, in the order of the slots |
| PooledHashMap.Replay | HPContainer/PooledHashMap.hpp:255-443 | over any run of insertions, assignments, erasures, clearing, lookups, rehashes, reservations and load limits every operation answers as on the map, up to the first one that goes wrong, for one of the stated reasons; none does if rehashes leave room, load limits are below 1 and the slots fit in memory |
| PooledHashMap.RehashOverflows | HPContainer/PooledHashMap.hpp:415-443 | a concrete table of nine pairs that a rehash to eight slots does not hold |
| PooledHashMap.RehashWraps | HPContainer/PooledHashMap.hpp:415-419 | a concrete empty table for which a rehash to 2^59 slots gets a block that is too small |
| PooledHashMap.FullAtOne | HPContainer/PooledHashMap.hpp:455-464 | a concrete table with a load limit of 1 and 2^24 pairs in 2^24 slots, to which no key can be added |
| NodeChain.ChainJoined | HPContainer/PooledList.hpp:80-132 | linking a chain in between two neighbours, or at an end, gives the chain of the joined sequence |
| NodeChain.ChainUnlinked | HPContainer/PooledList.hpp:189-200 | unlinking a node gives the chain of the sequence without it |
| NodeChain.SteppedAt | HPContainer/PooledList.hpp:160-176 | the node i links after the head is the i-th node of the sequence |
| NodeChain.PooledChain.Create | Memory/SegmentedObjectPool.hpp:242-244 | a new node is the one recycled last, if there is any, and is in no list |
| NodeChain.PooledChain.Insert | HPContainer/PooledList.hpp:80-102 | the value goes in at the position, and the links are those of the new order |
| NodeChain.PooledChain.Erase | HPContainer/PooledList.hpp:189-200 | the node leaves the list, its links are cleared and it goes on top of the free stack |
| NodeChain.PooledChain.Splice | HPContainer/PooledList.hpp:105-132 | all nodes of the other list move in at the position and the other list is empty |
| NodeChain.PooledChain.Walk | HPContainer/PooledList.hpp:158-178 | walking the distance in either direction ends at the asked position |
| NodeChain.PooledChain.Clear | HPContainer/PooledList.hpp:205-214 | every node is recycled with cleared links, from the head on |
| PooledList.PooledList.NodeAt | HPContainer/PooledList.hpp:134-180 | the node at the position, or null past the end, whichever end the walk starts from |
| PooledList.PooledList.Search | HPContainer/PooledList.hpp:140-178 | the walk ends at the asked position; lists of more than 16 elements are walked from the head up to the middle and from the tail past it |
| PooledList.PooledList.Insert | HPContainer/PooledList.hpp:80-102 | the value goes in at the position; it fails exactly past the end |
| PooledList.PooledList.InsertList | HPContainer/PooledList.hpp:105-132 | the other list's elements go in at the position and leave it empty; it fails exactly past the end |
| PooledList.PooledList.Erase | HPContainer/PooledList.hpp:189-200 | the element of the node is removed; a null pointer is ignored |
| PooledList.PooledList.PopBack | HPContainer/PooledList.hpp:203-203 | the last element is removed, if there is one |
| PooledLinkedHashList.Relocated | HPContainer/PooledLinkedHashList.hpp:258-270 | after the node was recycled and made anew, rewriting one index entry restores the agreement of list and index |
| PooledLinkedHashList.Forgotten | HPContainer/PooledLinkedHashList.hpp:115-117 | erasing a node and its index entry keeps the agreement |
| PooledLinkedHashList.Entered | HPContainer/PooledLinkedHashList.hpp:223-235 | adding a node at an end and its index entry keeps the agreement |
| PooledLinkedHashList.PooledLinkedHashList.Find | HPContainer/PooledLinkedHashList.hpp:57-60 | the value of the key in the list, or none |
| PooledLinkedHashList.PooledLinkedHashList.InsertOrAssign | HPContainer/PooledLinkedHashList.hpp:194-209 | the pair is the first, or the last, of the list with the new value, all other pairs keep their order, and the result says whether the key was new |
| PooledLinkedHashList.PooledLinkedHashList.Emplace | HPContainer/PooledLinkedHashList.hpp:212-220 | a new pair goes in front of, or behind, all others, an existing one stays as it is with the whole list, and the result says which |
| PooledLinkedHashList.PooledLinkedHashList.AppendNewNode | HPContainer/PooledLinkedHashList.hpp:223-235 | the pair is at its end, and the index points to its node |
| PooledLinkedHashList.PooledLinkedHashList.RelocateExistingNode | HPContainer/PooledLinkedHashList.hpp:246-271 | the pair moves to its end, whether or not it was there already |
| PooledLinkedHashList.PooledLinkedHashList.MoveToEnd | HPContainer/PooledLinkedHashList.hpp:237-244 | `touch` and its relatives make the pair of the key the first, or the last, all other pairs keep their order, and the result says whether it exists |
| PooledLinkedHashList.PooledLinkedHashList.Erase | HPContainer/PooledLinkedHashList.hpp:109-119 | exactly the pair of the key is removed |
| PooledLinkedHashList.PooledLinkedHashList.Pop | HPContainer/PooledLinkedHashList.hpp:153-171 | the first or last pair is removed and returned, if there is one, and all others keep their order |
| PooledLinkedHashList.PooledLinkedHashList.Clear | HPContainer/PooledLinkedHashList.hpp:173-176 | list and index are empty |
| PooledLinkedHashList.Replay | HPContainer/PooledLinkedHashList.hpp:57-176 | over any run, clearing and lookups included, the list and every answer are those of the model, index and list agree, the pairs are in the order in which they were put to the ends, and a run of a cache leaves it in order of most recent use |
| Recency.OrderedByPlace | HPContainer/PooledLinkedHashList.hpp:83-271 | over any run of all operations, the list holds exactly the keys and values of a ledger that knows of no list, in the order in which each key was last put to an end: the key put last to the front first, the one put last to the back last; `pop_front` and `pop_back` remove the ends of that order |
| Recency.OrderedByUse | HPContainer/PooledLinkedHashList.hpp:83-151 | over any run of insert or assign, touch, erase, evict, lookup and clear, the list is in strict order of last use and holds the values assigned last |
| Recency.EvictsLeastRecent | HPContainer/PooledLinkedHashList.hpp:143-151 | a key survives `pop_back` exactly when some key in the list was used less recently |
| PooledHashList.CachedSpliced | HPContainer/PooledList.hpp:406-418 | cutting the cache at the position and caching the ends of what was inserted keeps every entry right |
| PooledHashList.CachedRemoved | HPContainer/PooledList.hpp:545-553 | cutting the cache at the erased position and caching the next node keeps every entry right |
| PooledHashList.StaleInFront | HPContainer/PooledList.hpp:386-390 | a cache kept across an insertion at the front is right exactly when it is empty, and wrong at every entry otherwise |
| PooledHashList.PooledHashList.NodeAt | HPContainer/PooledList.hpp:436-527 | the node at the position, for any cache contents and any order of scanning the cache, which stays right and gains exactly the position when there is room |
| PooledHashList.PooledHashList.Search | HPContainer/PooledList.hpp:449-519 | the walk ends at the asked position; it is no longer than from the head up to the middle or from the tail past it, and above 64 steps no longer than from any cached node |
| PooledHashList.PooledHashList.Nearer | HPContainer/PooledList.hpp:475-497 | the scan returns a start no farther away; it is nearest unless the scan stopped early below 64 |
| PooledHashList.PooledHashList.PushBack | HPContainer/PooledList.hpp:309-334 | the element goes to the end, and its position is cached exactly when it is a sampled one and there is room |
| PooledHashList.PooledHashList.PushFront | HPContainer/PooledList.hpp:337-350 | the element goes to the front and nothing stays cached |
| PooledHashList.PooledHashList.Insert | HPContainer/PooledList.hpp:353-379 | the element goes in at the position; the list stays valid if and only if the position is interior or out of range, and otherwise counts one element too many |
| PooledHashList.PooledHashList.InsertList | HPContainer/PooledList.hpp:382-426 | the elements go in at the position; the list stays valid if and only if nothing moved, the position is not 0 or nothing was cached |
| PooledHashList.PooledHashList.InsertInside | HPContainer/PooledList.hpp:360-377 | an interior insert keeps the cached positions before it, drops those from it on, and caches the new node where it is more than 16 places from at least one end |
| PooledHashList.PooledHashList.SpliceInside | HPContainer/PooledList.hpp:398-418 | an interior insertion of a list keeps the cached positions before it and caches the head, and the tail if it is far enough away |
| PooledHashList.PooledHashList.EraseInside | HPContainer/PooledList.hpp:541-553 | an interior erase keeps the cached positions before it and caches the node that has taken its place |
| PooledHashList.PooledHashList.Erase | HPContainer/PooledList.hpp:529-555 | the element at the position is removed and the cache stays right; it goes wrong exactly past the end, but for 0 and, on an empty list, the position whose successor wraps around |
| PooledHashList.PooledHashList.PopFront | HPContainer/PooledList.hpp:570-574 | the first element is removed, if there is one, and nothing stays cached |
| PooledHashList.PooledHashList.PopBack | HPContainer/PooledList.hpp:576-584 | the last element is removed, if there is one, and the cache stays right |
| PooledHashList.PooledHashList.Clear | HPContainer/PooledList.hpp:586-595 | the list is empty; it is valid if and only if nothing was cached |
| PooledHashList.Replay | HPContainer/PooledList.hpp:309-584 | over any scoped run, for any cache size, every lookup returns the element at its position |
| PooledHashList.CountedTwice | HPContainer/PooledList.hpp:356-358 | a concrete list of two elements with a count of three |
| PooledHashList.StaleExample | HPContainer/PooledList.hpp:386-390 | a concrete list whose cache `insert_list` at the front makes wrong |
| PooledHashList.StaleAfterClear | HPContainer/PooledList.hpp:586-595 | a concrete list whose cache `clear` leaves with a node of no list |
| SlotBitmap.BitSet | Memory/BlockMemPool.hpp:418-438 | setting or clearing one bit of one word adds or removes exactly that slot |
| SlotBitmap.FullWord | Memory/BlockMemPool.hpp:407-410 | a word of all ones has no free slot |
| BlockMemPool.Segment.TryAcquireSlot | Memory/BlockMemPool.hpp:398-428 | it succeeds exactly when a slot is free and takes the lowest one, whose count becomes 0; the used count stays the number of set bits |
| BlockMemPool.Segment.ReleaseSlot | Memory/BlockMemPool.hpp:430-445 | exactly the slot's bit is cleared, with its count, and the used count stays the number of set bits |
| BlockMemPool.Bucket.Acquire | Memory/BlockMemPool.hpp:207-229 | the lowest free slot of the newest segment that has one, and slot 0 of a new segment exactly when all are full; the new segment has as many slots as the storage wanted has room for, and its storage is exactly these; the exception is unreachable |
| BlockMemPool.AcquireMany | Memory/BlockMemPool.hpp:198-237 | n allocations from an empty bucket without a release fill its segments one after the other: with c slots a segment, the k-th gets slot k mod c of segment k div c, and there are n / c segments, rounded up |
| BlockMemPool.Bucket.Scan | Memory/BlockMemPool.hpp:209-214 | the scan passes full segments only and changes nothing else |
| BlockMemPool.Bucket.Release | Memory/BlockMemPool.hpp:430-445 | one slot of one segment is returned and nothing else changes |
| BlockMemPool.NormalizeMinBlockSize | Memory/BlockMemPool.hpp:343-348 | the least power of two from 64 on that is not below the argument, if and only if the argument is at most 2^63 |
| BlockMemPool.ChooseBucketSize | Memory/BlockMemPool.hpp:357-361 | a block is at least the request if and only if the request is at most 2^63, and then the least power of two that holds request and minimum, below twice their maximum |
| BlockMemPool.BlockFor | Memory/BlockMemPool.hpp:198-204 | the block for a product of sizes that wraps around is large enough if and only if the product is at most 2^63; for 0 bytes there is none |
| BlockMemPool.WantedBytes | Memory/BlockMemPool.hpp:364-368 | the storage wanted is the least number of whole pages that holds one block and the configured pages; the largest preallocated block size has no influence on it |
| BlockMemPool.StorageBytes | Memory/BlockMemPool.hpp:364-368 | the storage asked for is the one wanted, the configured pages and one block in whole pages, if and only if that is a word |
| BlockMemPool.SlotsPerSegment | Memory/BlockMemPool.hpp:363-371 | a segment has as many slots as the storage wanted has room for, if that is a word, and at least one |
| BlockMemPool.CreateSegment | Memory/BlockMemPool.hpp:363-371 | a segment has that number of slots, all of them free, and storage that is exactly its slots |
| BlockMemPool.SlotsDisjoint | Memory/BlockMemPool.hpp:231-231 | the slots of a segment do not overlap and lie inside its storage |
| BlockHandles.TakesSlotKeeps | Memory/BlockMemPool.hpp:398-428 | a step that takes a slot keeps the invariant, and finds the slot without owner and without handles |
| BlockHandles.RetainKeeps | Memory/BlockMemPool.hpp:236-236 | the first handle closes the window between acquiring and retaining |
| BlockHandles.EndCopyKeeps | Memory/BlockMemPool.hpp:45-52 | a copied handle keeps the count equal to the handles modulo 2^32, however many there are |
| BlockHandles.MoveKeeps | Memory/BlockMemPool.hpp:71-78 | a moved handle keeps the count equal to the handles modulo 2^32 |
| BlockHandles.DropReturns | Memory/BlockMemPool.hpp:493-504 | a drop sends the slot back exactly when its handles are 1 modulo 2^32; it does so exactly with the last handle if and only if the handles are one, or not 1 modulo 2^32 |
| BlockHandles.DropKeeps | Memory/BlockMemPool.hpp:493-504 | a drop that is not mistaken for that of the last handle keeps the invariant |
| BlockHandles.DropExact | Memory/BlockMemPool.hpp:493-504 | a drop keeps the invariant if and only if it is not mistaken for that of the last handle |
| BlockHandles.GiveBackKeeps | Memory/BlockMemPool.hpp:430-445 | a slot is given back without handles, by an allocation that had not been returned |
| BlockHandles.RunKeeps | Memory/BlockMemPool.hpp:198-237 | every state of every interleaving of any number of threads in which no drop is mistaken keeps the invariant: counts, owners, windows and the lock |
| BlockHandles.RunExact | Memory/BlockMemPool.hpp:198-237 | the invariant holds throughout an interleaving if and only if no drop in it is mistaken for that of the last handle |
| BlockHandles.FewHandlesSafe | Memory/BlockMemPool.hpp:484-504 | no drop is mistaken while no slot has more than 2^32 handles |
| BlockHandles.Exclusive | Memory/BlockMemPool.hpp:484-504 | in every state of a safe interleaving handles of one slot stem from one allocation, counts are numbers of handles modulo 2^32, and a taken slot without handles is held by exactly one thread |
| BlockHandles.NeverTwice | Memory/BlockMemPool.hpp:398-428 | no acquisition in a safe run takes a slot that is owned or referred to |
| BlockHandles.FreshSegmentHasRoom | Memory/BlockMemPool.hpp:216-226 | a segment just created has a free slot, in any safe interleaving |
| BlockHandles.ReturnedOnce | Memory/BlockMemPool.hpp:493-504 | no allocation gives its slot back twice in a safe run |
| BlockHandles.AllReturned | Memory/BlockMemPool.hpp:493-504 | when all threads are idle and no handle is left, every allocation has been returned and no slot is taken |
| BlockHandles.WrapFrees | Memory/BlockMemPool.hpp:498-501 | a run from the start in which 2^32 + 1 handles of a slot are made and dropping one of them frees the slot while 2^32 are left |
| BlockScans.CreatesWhenAllFull | Memory/BlockMemPool.hpp:207-222 | in any interleaving a thread adds a segment only after it has tried every segment and found it full since it last took the lock |
| BlockScans.TakesNewestFree | Memory/BlockMemPool.hpp:207-214 | in any interleaving a thread that takes a slot of a segment has tried every newer segment and found it full since it last took the lock |
| BlockScans.Progress | Memory/BlockMemPool.hpp:198-237 | no thread is ever stuck: in every state that keeps the invariant each thread in the middle of an operation has a next step, and an idle one can start to allocate when the lock is free |
| SegVector.AddressesExact | HPContainer/SegVector.hpp:187-188 | shift and mask find the place of every index if and only if the segment size is a power of two |
| SegVector.GetSegmentShift | HPContainer/SegVector.hpp:33-37 | the least shift whose power of two is not below the segment size |
| SegVector.DetachedSound | HPContainer/SegVector.hpp:101-107 | detaching changes no handle's sequence, keeps counts and partition, and leaves the handle alone with its block |
| SegVector.WrittenSound | HPContainer/SegVector.hpp:189-190 | a write to an unshared block changes the sequence of its one handle and no other |
| SegVector.ReleasedSound | HPContainer/SegVector.hpp:141-145 | letting go keeps counts and partition; the last handle's segments go to the free stack |
| SegVector.SegmentAddedSound | HPContainer/SegVector.hpp:109-123 | a segment taken from the free stack or from the allocator changes no sequence and keeps the partition |
| SegVector.Shared.AppendSegment | HPContainer/SegVector.hpp:63-70 | the segment is the one recycled last, or a new one |
| SegVector.Shared.DeepCopy | HPContainer/SegVector.hpp:84-99 | the copy has segments of its own with the same contents, and all other blocks keep theirs |
| SegVector.Shared.FreeControlBlock | HPContainer/SegVector.hpp:76-82 | all segments of the block go to the free stack, in order |
| SegVector.SegmentVector.constructor | HPContainer/SegVector.hpp:130-139 | a new handle has the empty sequence and the others keep theirs |
| SegVector.SegmentVector.CopyOf | HPContainer/SegVector.hpp:147-150 | the copy has the sequence of the original and the others keep theirs |
| SegVector.SegmentVector.Assign | HPContainer/SegVector.hpp:152-161 | the same for assignment, self-assignment and assignment between sharers included |
| SegVector.SegmentVector.MovedFrom | HPContainer/SegVector.hpp:163-166 | the sequence goes over to the new handle |
| SegVector.SegmentVector.MoveAssign | HPContainer/SegVector.hpp:168-177 | the same for move assignment |
| SegVector.SegmentVector.Destroy | HPContainer/SegVector.hpp:141-145 | the handle goes and the others keep their sequences |
| SegVector.SegmentVector.Detach | HPContainer/SegVector.hpp:101-107 | no sequence changes and the handle's block is unshared |
| SegVector.SegmentVector.AddSegment | HPContainer/SegVector.hpp:109-123 | no sequence changes and the handle's unshared block has a free cell; a block never has more than one segment of cells to spare |
| SegVector.SegmentVector.PushBack | HPContainer/SegVector.hpp:181-191 | this handle's sequence grows by one and the cell that shift and mask find for the new index is written, whoever shared its block; where they find that index the element is added at the end |
| SegVector.SegmentVector.Set | HPContainer/SegVector.hpp:193-199 | the cell that shift and mask find is written, in this handle's sequence only; it is the one at the index where they find it |
| SegVector.SegmentVector.Get | HPContainer/SegVector.hpp:201-206 | the element of the cell that shift and mask find, which is the one at the index where they find it |
| SegVector.CellInside | HPContainer/SegVector.hpp:187-190 | the cell that shift and mask find lies inside the block, in the segment of the index or an earlier one |
| SegVector.GrowsExact | HPContainer/SegVector.hpp:109-123 | adding a segment to a full block makes room if and only if the segment size is not 0 |
| SegVectorRuns.Replay | HPContainer/SegVector.hpp:125-206 | over any run of constructing, copying, moving, assigning, destroying, appending, writing and reading any number of vectors, every element read and every vector is that of variables that share nothing; when all are destroyed no control block is left and every segment is on the free stack |
| RWRingQueue.RingOverwritten | HPContainer/RWRingQueue.hpp:112-116 | overwriting a full ring drops exactly the oldest item |
| RWRingQueue.RWRingQueue.MoveInto | HPContainer/RWRingQueue.hpp:88-93 | every item moves to its new place in order, and nothing is left in the old slots |
| RWRingQueue.RWRingQueue.EnsureCapacity | HPContainer/RWRingQueue.hpp:74-99 | growth keeps the queue; the new capacity is what the block for the doubled capacity holds, at least the capacity asked for, within twice the bytes of twice that capacity or of the least block; it overruns the block exactly when the doubled capacity takes more than 2^63 bytes |
| RWRingQueue.DoubledLeast | HPContainer/RWRingQueue.hpp:78-81 | the doubling loop ends at the capacity times a power of two, the least one that reaches what is asked for |
| RWRingQueue.RWRingQueue.PushValue | HPContainer/RWRingQueue.hpp:102-130 | the queue gains the value at its end; when full it grows, rejects the value or drops its oldest item, as the modes say; it goes wrong exactly when growing does |
| RWRingQueue.RWRingQueue.TryPop | HPContainer/RWRingQueue.hpp:246-261 | the oldest item is removed and returned, if there is one, and no initialised slot outside the ring holds a value |
| RWRingQueue.RWRingQueue.PopBatch | HPContainer/RWRingQueue.hpp:276-292 | the oldest items, as many as asked for, are removed and returned in order |
| RWRingQueue.RWRingQueue.FrontCopy | HPContainer/RWRingQueue.hpp:263-274 | the oldest item, if there is one |
| RWRingQueue.RWRingQueue.Snapshot | HPContainer/RWRingQueue.hpp:294-308 | the whole queue, oldest item first |
| RWRingQueue.RWRingQueue.Clear | HPContainer/RWRingQueue.hpp:310-322 | the queue is empty and no slot holds a value; the slots destroyed are those whose flag is set, which are those of the items where every slot has been set up or holds an item |
| RWRingQueue.LeftoversMatter | HPContainer/RWRingQueue.hpp:68-72 | exactly the items have their flags set, whatever the block holds from before, if and only if every slot has been set up or holds an item |
| RWRingQueue.EmptyQueueLeftovers | HPContainer/RWRingQueue.hpp:310-322 | for an empty queue this is so if and only if the block has no more slots than were asked for |
| RWRingQueue.LeftoverDestroyed | HPContainer/RWRingQueue.hpp:310-322 | a concrete empty queue of one slot whose clearing destroys what is left over in a second one |
| RWRingQueue.Replay | HPContainer/RWRingQueue.hpp:102-322 | over any run every reply, and in the end the items, the capacity and the modes, are those of a sequence |
| RWRingQueue.FirstInFirstOut | HPContainer/RWRingQueue.hpp:102-322 | over any run the values leave in the order in which they came, and what has not left is still there |
| RWRingQueue.ReturnsAll | HPContainer/RWRingQueue.hpp:246-292 | over a run without clearing and overwriting all that leaves is returned to a caller |
| RWRingQueue.ExpandingLossless | HPContainer/RWRingQueue.hpp:102-130 | a run from an expanding queue that neither clears it nor changes its modes loses nothing, so that all that leaves is returned |
| RWRingQueue.Create | HPContainer/RWRingQueue.hpp:135-151 | an empty queue with the modes asked for, whose capacity is what the block holds, at least the one asked for; it throws exactly for 0, and overruns its block exactly when the slots asked for take more than 2^63 bytes |
| RWRingQueue.FillAndEmpty | HPContainer/RWRingQueue.hpp:102-151 | values pushed into a new queue and taken out again: an expanding queue returns all of them in order, an overwriting one the newest and any other the oldest, as many as its block has slots |
| SegmentedObjectPool.ComputeMinPages | Memory/SegmentedObjectPool.hpp:186-196 | the least page count from what is asked for on that slots fill without remainder, if its bytes are a word; without a request every page count that slots fill is a multiple of it |
| SegmentedObjectPool.SegmentTiles | Memory/SegmentedObjectPool.hpp:210-213 | the slots of a new segment fill its bytes exactly |
| SegmentedObjectPool.SegmentedObjectPool.constructor | Memory/SegmentedObjectPool.hpp:85-89 | the slot size is aligned and holds an object and a pointer if and only if the rounded size is a word; then the pool is sound with at least the page count asked for if and only if the bytes of the least such segment are a word; the growth factor is the one asked for, and at least 1 |
| SegmentedObjectPool.SegmentedObjectPool.Allocate | Memory/SegmentedObjectPool.hpp:97-132 | the pointer was not live; it is the one freed last, if there is any, then the next slot of the newest segment, and only when that has none left the first of a new segment; live, free and unused slots still make up the capacity; it goes wrong exactly when a segment is needed whose bytes are not a word |
| SegmentedObjectPool.SegmentedObjectPool.AddSegment | Memory/SegmentedObjectPool.hpp:198-214 | the new segment is larger than the last by the growth product, as double arithmetic has it, or the base page count, rounded up by less than one base count, and filled by its slots, if and only if its bytes are a word |
| SegmentedObjectPool.SegmentedObjectPool.PlainGrowth | Memory/SegmentedObjectPool.hpp:198-208 | where the growth product is at most one base page count more, as with the growth factor 1, the next segment has exactly one base page count more than the last |
| SegmentedObjectPool.SegmentedObjectPool.Deallocate | Memory/SegmentedObjectPool.hpp:135-142 | the pointer goes from the live ones to the top of the free stack; the pool is valid afterwards if and only if it was live or null |
| SegmentedObjectPool.SegmentedObjectPool.LiveApart | Memory/SegmentedObjectPool.hpp:112-118 | live objects do not overlap and lie inside their segments |
| SegmentedObjectPool.SegmentedObjectPool.Conserved | Memory/SegmentedObjectPool.hpp:176-179 | live, free and never used slots add up to the total capacity |
| SegmentedObjectPool.SegmentedObjectPool.Clear | Memory/SegmentedObjectPool.hpp:166-174 | the page count starts over, and the pool is valid afterwards if and only if nothing was on the free stack |
| SegmentedObjectPool.Replay | Memory/SegmentedObjectPool.hpp:97-174 | over any run, up to the first segment whose bytes are not a word, held objects are distinct, do not overlap and lie inside their segments, the live count is theirs, and no more slots were handed out than the most objects held at a time |
| SegmentedObjectPool.DanglingAfterClear | Memory/SegmentedObjectPool.hpp:166-174 | a concrete pool that `clear` leaves with a pointer into a segment that is gone |
| SegmentedObjectPool.FreedTwice | Memory/SegmentedObjectPool.hpp:135-142 | a concrete pool in which an object given back twice is free twice |

## Left out

- PooledMap.PooledMap.Erase: the erased node leaves the model; that the pool may hand it out again is modelled for the lists and in `SegmentedObjectPool`, not for the tree, and neither is the destructor, which recycles every node.
- PooledMap.PooledMap.Index: keys are integers, standing for any totally ordered key type whose comparisons have no effect.
- PooledHashMap.PooledHashMap.Rehash: the old slots are read as they were before; the source releases their storage before it reads them. Once a rehash has gone wrong nothing is said about the contents of the table.
- PooledHashMap.PooledHashMap.SetMaxLoadFactor: any real from the float nearest to 0.1 on may be the limit, floats among them.
- PooledHashMap.PooledHashMap.Reserve: the division of floats is a parameter, which may be any rounding that does not fall below a power of two; a quotient that is no word, whose conversion C++ does not define, counts as going wrong.
- PooledHashMap: assignment and move of whole tables and `erase` by iterator, which repeat the modelled steps.
- PooledLinkedHashList.PooledLinkedHashList.InsertOrAssign: the returned pointer is not modelled; keys are values, so the key reference that the source uses across a possible rehash is not either.
- NodeChain.PooledChain.Create: every list has a free stack of its own, while the source shares one per node type; freshly reused nodes are never in another list either way.
- BlockHandles.RunKeeps: one bucket, because buckets share nothing but the map that finds them, which is taken as given; the reader-writer lock of that map and its waiting are not modelled.
- BlockHandles.EndCopyKeeps: a handle is not moved or dropped while another thread copies it, as C++ demands of any object.
- BlockMemPool.SlotsPerSegment: where the storage wanted is no word, the number of slots is only said to be at least one.
- BlockMemPool: `clear` with handles outstanding, zero filling, and the typed views of a block.
- SegVector.Shared.DoubleIfFull: the array of segment pointers is a sequence; doubling it changes the recorded capacity only.
- SegVector.SegmentVector.Release: the pointer is cleared where the source leaves it to be overwritten or to die.
- SegVector.Shared.constructor: segments have at least one cell; what happens with none is `SegVector.GrowsExact`.
- SegVector: handles used after they were moved from, and references kept across copies.
- RWRingQueue: `emplace` has the steps of `PushValue`; waiting on the lock is not modelled, every method is one locked section.
- SegmentedObjectPool.SegmentedObjectPool.AddSegment: the growth product is any function that is not negative, and one that is no word, which C++ does not define, counts as too large; the allocator is never out of memory.
- SegmentedObjectPool: `PooledSharedPtr` and `RefCountedPooledObject`, whose counting is that of the block handles without the slot search.
- PooledVector (array shifting), BHSync (locks, queues and controllers), page size and thread queries of the platform, memory orderings, exceptions in constructors and template forwarding.
