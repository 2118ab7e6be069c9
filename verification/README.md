# Verified models of the graph-system components

Dafny models of the data structures and concurrent protocols that the graph systems of this repository
are built on, with proofs of what they compute and of what they keep. Most of the code is in
`comparison_systems/aspen/code` (version maintenance, work stealing, reference-counted trees, hash table,
block allocator, maximal independent set, sorting), with the B-tree of `comparison_systems/terrace` and
the linear sketch of `sketch_expr/agm_sketching`.

Concurrent code is modelled as a state machine whose steps are single accesses to shared memory; a theorem
about a run holds for every number of threads and every interleaving. Code that updates objects in place is
a class or a method over arrays, proved against functions on values whose own properties are lemmas.

| component | modules |
|---|---|
| wait-free version maintenance | `VersionWords`, `WaitFree`, `WaitFreeSafety`, `WaitFreeReclaim`, `WaitFreeSlots`, `WaitFreeHistory`, `WaitFreeCollected` |
| version table with reference counts | `VersionTable`, `VersionAnswers` |
| work-stealing deque, concurrent stack | `Deque`, `DequeAnswers`, `TaggedStack`, `StackAnswers` |
| weight-balanced trees, as values | `WeightBalanced`, `TreeMaps` |
| the same trees with reference counts, in place | `TreeHeap`, `HeapJoin`, `HeapMaps`, `HeapSets`, `HeapSplit`, `HeapUnion`, `HeapBulk`, `HeapResults` |
| hash table with ordered linear probing | `HashTable`, `HashInserts` |
| B-tree, as values, on nodes and arrays, and its iterator | `SortedSeq`, `BTree`, `BTreeAnswers`, `BTreeNodes`, `BTreeIterator` |
| list allocator | `ListAllocator` |
| rootset maximal independent set | `Mis` |
| quicksort, counting sort, radix sort, range minimum | `Orders`, `Powers`, `Quicksort`, `CountingSort`, `RadixSort`, `RangeMin` |
| linear sketch with sampling | `Modular`, `Sketch`, `SketchSampling` |

## Model

| member | source | states |
|---|---|---|
| VersionWords.PackInjective | comparison_systems/aspen/code/graph/versioning_utils.h:7-48 | for fields in range, two packed words are equal only if index, timestamp and flag are |
| VersionWords.UnpackRoundTrip | comparison_systems/aspen/code/graph/versioning_utils.h:16-48 | packing the three fields read from any 64-bit word gives the word back |
| WaitFreeSafety.RunSafe | comparison_systems/aspen/code/graph/versioned_graph_waitfree.h:43-172 | in every run no version is collected twice, the current one never, and a thread that holds a snapshot finds the root of its version in its slot, uncollected and no older than the start of its acquire |
| WaitFreeSafety.AcquireReturnsCommitted | comparison_systems/aspen/code/graph/versioned_graph_waitfree.h:80-120 | whenever any run brings acquire to its return, after two rounds at most, its announcement is committed and names an installed version that was current at or after its start, even if the current version changed in both rounds |
| WaitFreeReclaim.QuiescentRunKeepsOnlyCurrent | comparison_systems/aspen/code/graph/versioned_graph_waitfree.h:132-172 | in every run, whenever all threads are idle, the slots other than the current version's are empty: every superseded version has been collected |
| WaitFreeHistory.SnapshotIsGiven | comparison_systems/aspen/code/graph/versioned_graph_waitfree.h:55-120 | a thread that holds a snapshot holds the root that the schedule handed to the batch that made its version, or the first root, and the version was made no earlier than the acquire began |
| WaitFreeHistory.BatchStartsFromLatest | comparison_systems/aspen/code/graph/versioned_graph_waitfree.h:124-128 | a batch is built on the root that was handed to the batch before it |
| WaitFreeHistory.BatchPublishes | comparison_systems/aspen/code/graph/versioned_graph_waitfree.h:55-91 | a batch that ends has made exactly the next version current, with the root handed to it |
| WaitFreeHistory.WaitFreedom | comparison_systems/aspen/code/graph/versioned_graph_waitfree.h:43-172 | wherever a run has brought a thread, it rests after a number of its own steps that depends only on its place and on the number of threads, whatever the others do |
| WaitFreeHistory.AcquireInNineSteps | comparison_systems/aspen/code/graph/versioned_graph_waitfree.h:94-120 | an acquire has its snapshot after nine steps of its own |
| WaitFreeCollected.QuiescentAllCollectedOnce | comparison_systems/aspen/code/graph/versioned_graph_waitfree.h:43-53 | in every run, whenever all threads are idle, every version that was ever current has been collected exactly once, and the current one has not |
| WaitFreeSlots.SetAbortsExactly | comparison_systems/aspen/code/graph/versioned_graph_waitfree.h:55-77 | when a batch is handed its root, some continuation aborts its search if and only if no slot is free then; and in that case every other thread is holding, releasing or collecting a superseded version of its own |
| WaitFreeSlots.IdleReaderSuffices | comparison_systems/aspen/code/graph/versioned_graph_waitfree.h:55-77 | if some other thread is idle at that moment, no continuation of this search aborts |
| WaitFreeSlots.SoleThreadFull | comparison_systems/aspen/code/graph/versioned_graph_waitfree.h:55-77 | with one thread, hence one slot, the slots are full in every state of every run |
| VersionTable.RunSafe | comparison_systems/aspen/code/graph/versioned_graph.h:114-191 | in a run that never fills a slot some thread still refers to, a root is collected once, never while held and never while latest, and the latest version keeps its entry |
| VersionTable.NoReuseExact | comparison_systems/aspen/code/graph/versioned_graph.h:114-191 | after such a run, a next step leaves every such continuation safe if and only if it does not fill a slot that another thread still refers to with an access ahead that can succeed |
| VersionTable.QuiescentOnlyLatest | comparison_systems/aspen/code/graph/versioned_graph.h:138-171 | after such a run, when all threads are idle, the latest version is the only entry and only the table holds it |
| VersionTable.QuiescentAllCollected | comparison_systems/aspen/code/graph/versioned_graph.h:138-171 | and every earlier version has been collected |
| VersionTable.StaleAcquireCollectsLatest | comparison_systems/aspen/code/graph/versioned_graph.h:114-134 | from a table of two cells there is a run that is careful about releases only and collects the latest version, through an acquire that still looks at a reused slot |
| VersionTable.StaleReleaseTakesLatest | comparison_systems/aspen/code/graph/versioned_graph.h:138-171 | and one careful about acquires only that takes the last reference of the latest version and collects a version twice, through a release that re-reads a reused slot |
| VersionAnswers.AcquiresLatest | comparison_systems/aspen/code/graph/versioned_graph.h:114-134 | in every careful run, a thread that owns a version owns one that was the latest when its acquire began or later, with its own root, and the writer builds on the latest one |
| VersionAnswers.ReaderAlone | comparison_systems/aspen/code/graph/versioned_graph.h:114-134 | wherever a careful run has left the others, an idle reader that moves alone owns the latest version after at most as many accesses as there are cells, and six |
| Deque.NoJobLostOrDuplicated | comparison_systems/aspen/code/pbbslib/scheduler.h:55-138 | in every run of one owner and any number of thieves, the jobs pushed are, with multiplicity, those returned, those in the deque and the one in the owner's hands |
| Deque.RunRefines | comparison_systems/aspen/code/pbbslib/scheduler.h:72-136 | every step of every run does to the list of jobs what its linearization point says: a push or a successful pop at the bottom, a successful pop at the top, or nothing |
| DequeAnswers.PushedAsAsked | comparison_systems/aspen/code/pbbslib/scheduler.h:72-83 | the jobs of the push calls in the schedule are, with multiplicity, those returned, in the deque and in hand, and the store of bot puts the job of the latest call at the bottom |
| DequeAnswers.NullExplained | comparison_systems/aspen/code/pbbslib/scheduler.h:85-104 | a thief comes back empty-handed only if age changed during its call, or there is no job, or the owner is inside pop_bottom over the only one |
| DequeAnswers.StealAlone | comparison_systems/aspen/code/pbbslib/scheduler.h:85-104 | with no one else moving, a steal takes the top job, and answers NULL if there is none |
| DequeAnswers.ThiefAnswered | comparison_systems/aspen/code/pbbslib/scheduler.h:85-104 | whatever the others do, pop_top is answered by the thief's fifth access |
| DequeAnswers.PopAnswered | comparison_systems/aspen/code/pbbslib/scheduler.h:106-136 | whatever the thieves do, pop_bottom is answered within seven accesses of the owner |
| DequeAnswers.OwnerShrinks | comparison_systems/aspen/code/pbbslib/scheduler.h:72-136 | each access of the owner brings its call closer to the end, and a push gives up exactly when the last cell is reached |
| TaggedStack.RunLinearizable | comparison_systems/aspen/code/pbbslib/concurrent_stack.h:50-124 | every step of every run is an atomic push, pop or no change of the stack contents, a winning compare-and-swap of a pop installs the current successor (no ABA), and the head's cached length is the number of elements |
| StackAnswers.AnswersAreTrue | comparison_systems/aspen/code/pbbslib/concurrent_stack.h:77-124 | linearizability of whole calls: a call answers exactly when it ends; a push has put the value it was called with on top once, a pop that returns a value has taken just that value off the top once, and a pop that answers empty has changed nothing and the stack was empty at some moment of the call |
| StackAnswers.CallEndsAlone | comparison_systems/aspen/code/pbbslib/concurrent_stack.h:77-124 | wherever a run has left the threads, a thread that moves alone ends its call within 22 accesses |
| WeightBalanced.NodeJoinCorrect | comparison_systems/aspen/code/trees/balance_utils.h:56-94 | joining any two balanced trees around an entry gives a balanced tree, with the exact bounds 29/71 and 42/71, whose entries in order are left, entry, right |
| TreeMaps.SplitCorrect | comparison_systems/aspen/code/trees/map_ops.h:142-201 | splitting gives two balanced search trees with the entries below and above the key, and the entry at it |
| TreeMaps.InsertCorrect | comparison_systems/aspen/code/trees/map_ops.h:412-441 | the map changes at the inserted key only, where the values are combined, and stays a balanced search tree |
| TreeMaps.DeleteCorrect | comparison_systems/aspen/code/trees/map_ops.h:444-463 | the map loses the key and nothing else, and stays a balanced search tree |
| TreeMaps.UnionCorrect | comparison_systems/aspen/code/trees/map_ops.h:234-252 | the union of the two maps, with values at common keys combined in argument order, as a balanced search tree |
| TreeMaps.IntersectCorrect | comparison_systems/aspen/code/trees/map_ops.h:256-283 | the intersection of the two maps with the values combined, as a balanced search tree |
| TreeMaps.DifferenceCorrect | comparison_systems/aspen/code/trees/map_ops.h:285-302 | the first map without the keys of the second, as a balanced search tree |
| TreeMaps.MultiInsertCorrect | comparison_systems/aspen/code/trees/map_ops.h:465-485 | inserting a sorted array at once is inserting its entries one by one, as maps, and stays a balanced search tree |
| TreeMaps.BinarySearch | comparison_systems/aspen/code/pbbslib/binary_search.h:31-49 | the first position of a sorted array whose key is not smaller, with a linear scan at the end |
| TreeMaps.FromArrayCorrect | comparison_systems/aspen/code/trees/sequence_ops.h:245-258 | a balanced search tree with the array as its entries in order |
| TreeMaps.FilterCorrect | comparison_systems/aspen/code/trees/sequence_ops.h:213-228 | the submap of the entries that satisfy the condition, as a balanced search tree |
| TreeMaps.Select | comparison_systems/aspen/code/trees/sequence_ops.h:36-48 | the entry with the given number of entries before it, or nothing if there is none |
| TreeHeap.Heap.DecrementRecursive | comparison_systems/aspen/code/trees/gc.h:22-45 | gives up one handle: the counts stay exact, every tree still held is unchanged, and nodes nobody reaches any more are freed |
| TreeHeap.Reachable | comparison_systems/aspen/code/trees/gc.h:22-54 | with exact counts every node in memory belongs to the tree of some handle (what a decrement frees is stated at Heap.DecrementRecursive) |
| HeapResults.LiveIsReachable | comparison_systems/aspen/code/trees/gc.h:22-54 | with exact counts and no node under construction, memory holds exactly the nodes at the end of a path of child pointers from a handle: no leak and no dangling pointer |
| HeapMaps.InsertNode | comparison_systems/aspen/code/trees/map_ops.h:412-441 | insertion with copying on shared paths and reuse elsewhere computes the functional insertion, uses up the reference it was given, and changes no other tree that is held |
| HeapSets.DeleteNode | comparison_systems/aspen/code/trees/map_ops.h:444-463 | the same for deletion |
| HeapSets.Join2Node | comparison_systems/aspen/code/trees/sequence_ops.h:50-66 | the same for joining two trees without a middle entry |
| HeapSplit.SplitCopy | comparison_systems/aspen/code/trees/map_ops.h:150-174 | the same for splitting a borrowed tree |
| HeapSplit.SplitNode | comparison_systems/aspen/code/trees/map_ops.h:178-205 | the same for splitting a tree that is used up |
| HeapUnion.UnionNode | comparison_systems/aspen/code/trees/map_ops.h:234-252 | the same for union, which uses up its first argument, and its second unless it is borrowed |
| HeapUnion.IntersectNode | comparison_systems/aspen/code/trees/map_ops.h:256-283 | the same for intersection |
| HeapUnion.DifferenceNode | comparison_systems/aspen/code/trees/map_ops.h:285-302 | the same for difference |
| HeapBulk.MultiInsertNode | comparison_systems/aspen/code/trees/map_ops.h:465-485 | the same for the insertion of a sorted array |
| HeapBulk.FilterNode | comparison_systems/aspen/code/trees/sequence_ops.h:213-228 | the same for filtering |
| HeapBulk.FromArrayNode | comparison_systems/aspen/code/trees/sequence_ops.h:245-258 | the new tree is the functional one and no other tree changes |
| HeapResults.UnionMaps | comparison_systems/aspen/code/trees/map_ops.h:234-252 | on search trees: the result is the map union and balanced, other held trees are unchanged, and memory is exactly what the held handles reach |
| HeapResults.InsertMap | comparison_systems/aspen/code/trees/map_ops.h:412-441 | the same, for the map with the key inserted |
| HeapResults.DeleteMap | comparison_systems/aspen/code/trees/map_ops.h:444-463 | the same, for the map without the key |
| HeapResults.IntersectMaps | comparison_systems/aspen/code/trees/map_ops.h:256-283 | the same, for the map intersection |
| HeapResults.DifferenceMaps | comparison_systems/aspen/code/trees/map_ops.h:285-302 | the same, for the map difference |
| HeapResults.MultiInsertMap | comparison_systems/aspen/code/trees/map_ops.h:465-485 | the same, for the map with a sorted array inserted |
| HeapResults.FilterMap | comparison_systems/aspen/code/trees/sequence_ops.h:213-228 | the same, for the submap of the entries that satisfy the condition |
| HashTable.UniqueLayout | comparison_systems/aspen/code/pbbslib/hash_table.h:79-102 | two tables of one size in ordered-probing layout with the same keys are equal cell by cell |
| HashTable.Table.Insert | comparison_systems/aspen/code/pbbslib/hash_table.h:83-102 | keeps the layout and adds exactly the key; the answer says whether the key was new or replaced |
| HashTable.Table.Find | comparison_systems/aspen/code/pbbslib/hash_table.h:208-222 | finds the key if and only if it is in the table, though it stops at the first key of lower priority |
| HashTable.Table.Delete | comparison_systems/aspen/code/pbbslib/hash_table.h:132-204 | an absent key changes nothing; otherwise the table is the deletion function's; with runs shorter than half the table the layout stays and exactly the key goes |
| HashTable.DeleteExactInitial | comparison_systems/aspen/code/pbbslib/hash_table.h:64-204 | deletion keeps the layout if and only if, in the table as it is, every key in the run behind the hole that the scans compare has its home near enough for the cyclic comparison |
| HashTable.DeleteExact | comparison_systems/aspen/code/pbbslib/hash_table.h:64-204 | the same with the condition at each move of the hole, and then exactly the deleted key is gone |
| HashTable.ShortRunsSuffice | comparison_systems/aspen/code/pbbslib/hash_table.h:64-204 | no run of half the table's length or more is enough for that |
| HashTable.LongRunBreaks | comparison_systems/aspen/code/pbbslib/hash_table.h:64-204 | at every even size, a run of one cell more than half the table with all keys at home loses its layout when its first key is deleted |
| HashTable.LongRunWithinSize | comparison_systems/aspen/code/pbbslib/hash_table.h:68-75 | this happens to a table declared for 204 keys that holds 204 keys |
| HashInserts.InsertPhase | comparison_systems/aspen/code/pbbslib/hash_table.h:83-102 | whatever the interleaving of any number of inserting threads, when all are done the table is in layout and holds the old keys and those asked for |
| HashInserts.ScheduleIndependent | comparison_systems/aspen/code/pbbslib/hash_table.h:36-102 | two complete runs that insert the same keys, by other threads and in another order, end in the same table |
| HashInserts.InsertAlone | comparison_systems/aspen/code/pbbslib/hash_table.h:83-102 | wherever a run has left the threads, an insert that moves alone in a table with an empty cell ends within two accesses per cell, and one |
| BTree.InsertExact | comparison_systems/terrace/code/include/btree.h:283-486 | inserting adds the key to the sorted contents once if and only if it is not the middle key of a full root |
| BTree.DuplicateInserted | comparison_systems/terrace/code/include/btree.h:455-478 | if it is, the contents hold the key twice afterwards |
| BTree.DuplicateExample | comparison_systems/terrace/code/include/btree.h:455-478 | this happens to 63 in the tree whose only node holds 0 to 126 |
| BTree.InsertOk | comparison_systems/terrace/code/include/btree.h:283-486 | insertion keeps leaf depth, key counts and child counts, and the height grows by one only when the root is full |
| BTree.RemoveExact | comparison_systems/terrace/code/include/btree.h:499-826 | removing takes exactly the key out of the sorted contents, for every tree and key |
| BTree.RemoveKeyOk | comparison_systems/terrace/code/include/btree.h:499-826 | removal keeps the shape, and the height drops by one only when the root runs empty |
| BTree.FillOk | comparison_systems/terrace/code/include/btree.h:605-764 | borrowing from a sibling or merging keeps the contents and the shape and leaves a child with a key to spare |
| BTreeAnswers.FindExact | comparison_systems/terrace/code/include/btree.h:219-231 | find succeeds if and only if the key is in the contents |
| BTreeAnswers.InsertAnswerExact | comparison_systems/terrace/code/include/btree.h:283-486 | insert says that the key is new if and only if it is, or it is the middle key of a full root |
| BTreeAnswers.RemoveAnswerExact | comparison_systems/terrace/code/include/btree.h:768-826 | remove says that the key was there if and only if it was, or the root is an inner node |
| BTreeAnswers.AbsentRemoved | comparison_systems/terrace/code/include/btree.h:768-826 | so it answers true for 1000 on a tree with the keys 0 to 126 |
| BTreeNodes.KeyTree.InsertKey | comparison_systems/terrace/code/include/btree.h:283-486 | on nodes with arrays, in place: the value of the tree becomes the functional insertion, no node is shared, leaked or dangling, and the exact conditions above, for the contents and for the answer, carry over |
| BTreeNodes.KeyTree.RemoveKeyAt | comparison_systems/terrace/code/include/btree.h:499-826 | the same for removal, with freed siblings, a root that runs empty, and the exact condition for the answer |
| BTreeNodes.KeyTree.Has | comparison_systems/terrace/code/include/btree.h:219-231 | on nodes with arrays: the search finds a node exactly if the key is in the contents |
| BTreeNodes.Store.SplitChildAt | comparison_systems/terrace/code/include/btree.h:338-381 | element by element, the split of a full child computes the functional split and touches only its nodes |
| BTreeNodes.Store.FillAt | comparison_systems/terrace/code/include/btree.h:605-764 | the same for borrowing and merging |
| BTreeIterator.NodeIterator.Advance | comparison_systems/terrace/code/include/btree.h:406-430 | the keys still to be visited lose their first one, from a leaf, an inner node or the last key of either |
| BTreeIterator.Enumerate | comparison_systems/terrace/code/include/btree.h:384-435 | iterating until done visits the contents of the tree in order, each key once |
| ListAllocator.Allocator.Alloc | comparison_systems/aspen/code/pbbslib/list_allocator.h:283-297 | hands out a block not in use and leaves every block in use and every other worker's list alone, or reports too many blocks exactly when a new list would exceed the limit |
| ListAllocator.Allocator.Free | comparison_systems/aspen/code/pbbslib/list_allocator.h:266-281 | puts the block in front of the worker's list, and when the list has grown to two lengths spills exactly the older list of listLength blocks to the shared pool |
| ListAllocator.Nowhere | comparison_systems/aspen/code/pbbslib/list_allocator.h:126-297 | a block in use is in no worker's list and in no pool list |
| ListAllocator.UsedAndFree | comparison_systems/aspen/code/pbbslib/list_allocator.h:126-297 | blocks in use, in the workers' lists and in the pool add up to the blocks allocated |
| ListAllocator.Allocator.NumUsedBlocks | comparison_systems/aspen/code/pbbslib/list_allocator.h:138-144 | the count from the list sizes is the number of blocks in use |
| ListAllocator.Allocator.ListsAreEnough | comparison_systems/aspen/code/pbbslib/list_allocator.h:211-224 | reserve takes one list for each worker and beside these just enough lists for the blocks asked for |
| Mis.MaximalIndependentSet | comparison_systems/aspen/code/algorithms/MIS.h:67-137 | terminates, and marks exactly the vertices of the greedy choice by priority, for any order in which edge updates interleave |
| Mis.ChosenIsGreedy | comparison_systems/aspen/code/algorithms/MIS.h:67-137 | this choice is the set the sequential greedy loop over the permutation builds |
| Mis.ChosenIndependent | comparison_systems/aspen/code/algorithms/MIS.h:67-137 | no two neighbours are chosen |
| Mis.ChosenMaximal | comparison_systems/aspen/code/algorithms/MIS.h:67-137 | every vertex that is not chosen has a chosen neighbour |
| Mis.RoundKeeps | comparison_systems/aspen/code/algorithms/MIS.h:105-135 | one round keeps the counts of live smaller neighbours, the roots and the marks, and its roots and removed vertices are new |
| Mis.EdgeMap | comparison_systems/aspen/code/graph/traversible_graph.h:301-337 | the dense and the sparse form of the edge map drop the same counts, and return each vertex whose count reaches zero once |
| Quicksort.QuicksortSerial | comparison_systems/aspen/code/pbbslib/quicksort.h:36-111 | for any strict weak order, the range is sorted and rearranged, the rest of the array untouched |
| Quicksort.Split3 | comparison_systems/aspen/code/pbbslib/quicksort.h:54-99 | rearranges the range into below, between and above two pivots, and says whether the middle needs no sorting |
| CountingSort.SeqCountSort | comparison_systems/aspen/code/pbbslib/counting_sort.h:43-110 | the output is the stable rearrangement by digit, and the offsets returned are the starts of the buckets |
| CountingSort.CountSortBlocked | comparison_systems/aspen/code/pbbslib/counting_sort.h:112-222 | the same for counts and writes per block, for any number of blocks; the report of one bucket comes if and only if skipping was asked for and all digits are equal, and then the input is its own rearrangement |
| CountingSort.StableKeepsOrder | comparison_systems/aspen/code/pbbslib/counting_sort.h:76-101 | within each digit, the stable rearrangement keeps the input order |
| CountingSort.StableIsSorted | comparison_systems/aspen/code/pbbslib/counting_sort.h:76-101 | and the digits ascend |
| RadixSort.SeqRadixSort | comparison_systems/aspen/code/pbbslib/integer_sort.h:37-87 | for every number of key bits and both buffer arrangements, the result buffer holds the input sorted stably by that many low bits |
| RadixSort.TwoPasses | comparison_systems/aspen/code/pbbslib/integer_sort.h:37-63 | a stable sort by the low digit and then by the high one is a stable sort by both |
| RangeMin.RangeMin.Query | comparison_systems/aspen/code/pbbslib/range_min.h:50-87 | the index of a minimum of the range, both ends included, for any strict weak order and block size |
| Modular.PowerMod | sketch_expr/agm_sketching/include/prime_generator.h:7-18 | the power modulo m, by repeated squaring |
| Modular.CachedPowerMod | sketch_expr/agm_sketching/include/prime_generator.h:30-41 | the same from a cache of squares |
| Sketch.NetDeterminesSketch | sketch_expr/agm_sketching/src/agm_sketch.cpp:13-29 | two streams with the same net vector give equal sketches, bucket by bucket |
| Sketch.BucketsAdd | sketch_expr/agm_sketching/src/agm_sketch.cpp:64-90 | the bucket of two streams one after the other is the sum of their buckets |
| Sketch.AgmSketch.Plus | sketch_expr/agm_sketching/src/agm_sketch.cpp:64-76 | the sum of two sketches is the sketch of the joined streams |
| Sketch.AgmSketch.Add | sketch_expr/agm_sketching/src/agm_sketch.cpp:78-90 | the same in place, also when both are one object |
| Sketch.AgmSketch.Apply | sketch_expr/agm_sketching/src/agm_sketch.cpp:13-29 | afterwards the buckets are those of the stream with the update at its end |
| Sketch.AgmSketch.Query | sketch_expr/agm_sketching/src/agm_sketch.cpp:31-62 | the first query answers with the first good bucket in scan order, or all-zero, or no good bucket; later ones are refused |
| Sketch.IsGood | sketch_expr/agm_sketching/src/bucket.cpp:14-27 | a bucket is good if and only if its numbers are those of one sampled coordinate with a nonzero value |
| Sketch.OneCoordinateFound | sketch_expr/agm_sketching/src/agm_sketch.cpp:31-62 | if the net vector has one nonzero coordinate, the query returns it and its value |
| Sketch.IsolationFinds | sketch_expr/agm_sketching/src/agm_sketch.cpp:31-62 | if some bucket isolates a coordinate, the query finds something |
| Sketch.ZeroVectorIsAllZero | sketch_expr/agm_sketching/src/agm_sketch.cpp:31-62 | if the updates cancel out, the query reports all buckets zero |
| SketchSampling.OneUpdateMarks | sketch_expr/agm_sketching/src/bucket.cpp:5-12 | after one update by a nonzero amount, the bucket of column c and guess j is not empty if and only if the hash of the one-based index under the column's seed can be halved j times without remainder |
| SketchSampling.OneUpdate | sketch_expr/agm_sketching/src/bucket.cpp:29-41 | such a bucket then holds the amount, the amount times the one-based index, and the amount times the power of the column's base modulo p |
| SketchSampling.SamplesNest | sketch_expr/agm_sketching/src/bucket.cpp:5-12 | every coordinate is sampled at guess 0, and those sampled at a guess are among those of the guess before |
| SketchSampling.SketchSize | sketch_expr/agm_sketching/src/agm_sketch.cpp:3-11 | with 2^k the largest power of two not above n there are k + 1 columns of k + 2 guesses |
| SketchSampling.AloneIsFound | sketch_expr/agm_sketching/src/agm_sketch.cpp:31-62 | if some column and guess sample just one nonzero coordinate, in terms of the hash, the query finds a coordinate, and this one with its value if no bucket before is good |
| SketchSampling.BatchUpdate | sketch_expr/agm_sketching/include/agm_sketch.h:84-106 | each bucket gains what the updates come to under the seed of the bucket's number |
| SketchSampling.BatchExact | sketch_expr/agm_sketching/include/agm_sketch.h:84-106 | a bucket gets the same from batch_update as from update, for every stream, if and only if the seed of its number and the seed of its column sample the same coordinates with the same fingerprints |
| SketchSampling.BatchExample | sketch_expr/agm_sketching/include/agm_sketch.h:84-106 | one update after which bucket 1 is good in the sketch of update, and not in that of batch_update |
| Sketch.ShiftFits | sketch_expr/agm_sketching/src/agm_sketch.cpp:24-24 | the int shift that gives the guess fits for all guesses if and only if the vector has fewer than 2^30 coordinates |

## Findings

Six places where the code does not do what it is for. The models follow the code; the conditions are exact.

- `btree.h:455-478`, a key entered twice. When the root is full it is split before the key is compared with
  the middle key, which moves up into the new root. Inserting that key again puts a second copy into one of
  the halves. `BTree.InsertExact`: insertion is right if and only if not (the root has 127 keys and the key
  is its 64th). `BTree.DuplicateInserted` gives the two copies for every such tree, `BTree.DuplicateExample`
  a concrete one, and `BTreeNodes.KeyTree.InsertKey` states the condition for the code on nodes.
- `hash_table.h:64` and `132-204`, deletion in a long run. The cyclic comparison of positions is right only
  up to half the table. `HashTable.DeleteExactInitial`: the layout survives a deletion if and only if every
  key of the run that is compared with the hole is near enough. Runs shorter than half the table always
  satisfy it (`ShortRunsSuffice`); a table that holds no more keys than it was declared for need not
  (`LongRunWithinSize`).
- `versioned_graph.h:114-171`, a reused table slot. A thread keeps a pointer to a table entry across steps in
  which the entry can be emptied and filled with a newer version. `VersionTable.NoReuseExact`: a step is safe
  whatever follows carefully if and only if it does not fill a slot that another thread still refers to with
  an access ahead that can succeed. `StaleAcquireCollectsLatest` and `StaleReleaseTakesLatest` are complete
  failing runs, one for each kind of reference.
- `versioned_graph_waitfree.h:62-77`, no slot left. There are as many slots as threads.
  `WaitFreeSlots.SetAbortsExactly`: the update can end the program if and only if all slots are full when
  it is handed its root, which takes a superseded version in the care of every other thread. With one thread it
  always does (`SoleThreadFull`); one idle thread rules it out (`IdleReaderSuffices`).
- `btree.h:768-826`, the answer of remove. An inner node drops the answer of the child it goes down to and
  returns true. `BTreeAnswers.RemoveAnswerExact`: the answer is true if and only if the key was there or the
  root is an inner node; `AbsentRemoved` is a wrong answer. The answer of insert is wrong only together with
  the contents (`InsertAnswerExact`).
- `agm_sketch.h:84-106`, the seeds of batch_update. It derives a bucket's seed from the bucket's number, update
  and query from the number of its column. `SketchSampling.BatchExact`: a bucket gets the same from both if and
  only if the two seeds sample the same coordinates with the same fingerprints; `BatchExample` is a bucket that
  the query recognises after update and not after batch_update.

## Left out

General:

- Memory is sequentially consistent. Timestamps, tags, counters and array sizes are unbounded where the code
  has fixed widths, except in `VersionWords` (64-bit words) and where a lemma says so.
- The two branches of a parallel fork run one after the other; in `Deque`, `TaggedStack`, `WaitFree*`,
  `VersionTable`, `HashInserts` and `Mis.SparseMap` threads interleave at each access. Parallel inserts into the
  hash table are modelled without their Boolean answers.
- The scheduler's `pardo` and `parfor`, and failure of `malloc`.

By member or component:

- VersionTable.RunSafe: assumes the condition of `NoReuseExact` at each step, because the code fails without
  it; entries are written at once, a root is identified with its timestamp, all timestamps start probing at
  one cell (as for timestamps below 2^32), and the table's element count and its `remove` are not modelled.
- HashTable.Table.Delete: promises the layout only for runs shorter than half the table, see Findings; two
  deletions in parallel are not modelled, and cells hold keys without values, so `update` and the choice of
  `replaceQ` by value are not.
- BTreeNodes.KeyTree.InsertKey: does not promise a set when the root is full and the key is its middle key,
  see Findings; weights are not modelled. The copy of child pointers in `splitChild` reads past the child array;
  the model copies those in the array. `memmove` is a loop.
- BTreeNodes.KeyTree.RemoveKeyAt: the answer is that of the code, see Findings.
- BTree: `sum`, `traverse` and `map` would add easy members only, and `findKey` takes keys of any size.
- BTreeIterator.NodeIterator.Advance: nodes are values, not memory, and an iterator is not used across changes.
- TreeHeap.Reachable: reachability only; which nodes a decrement frees is in `Heap.DecrementRecursive` and
  `HeapResults.LiveIsReachable`.
- Trees: `update`, `left`, `right`, `range`, `rank`, `next` and `previous`, `map_reduce`, `insert_lazy` and
  augmented values are not modelled; keys are integers.
- ListAllocator: the global stack is atomic (its steps are in `TaggedStack`), and shuffling and `finish` are
  not modelled. With lists of length 1 a worker's list never spills, as in the code.
- Mis.MaximalIndependentSet: the random permutation is given, and the hash set of neighbours is a list
  without repetitions.
- Quicksort: the parallel wrapper is not modelled, and of `base_case` the choice of the limit is a parameter.
- CountingSort.CountSortBlocked: the number of blocks is a parameter.
- RadixSort: the recursive parallel `integer_sort_r` is not modelled.
- RangeMin.RangeMin.Query: needs a sequence that is not empty, like the constructor.
- Sketch.AgmSketch.Query: hash, seeds and modulus are given; the widths of the integers, the rounding of
  `log2` and scaling by a number are not modelled, and guesses are exact powers of two, which
  the code's shift computes below 2^30 coordinates (`ShiftFits`).
- TaggedStack: `clear`, which nothing may run beside, is not modelled.
