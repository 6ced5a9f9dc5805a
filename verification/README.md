# Verified models of the study repository

This project models the data structures, concurrency exercises and algorithms
of the repository in Dafny and proves what they are for. Code that changes
things in place is modelled in place: classes with the program's own fields,
arrays, and loops with invariants. Each such method is proved against a
specification on sequences, maps or multisets, and the laws of that
specification are proved as lemmas.

The files, and what they model:

- `PointerHeap.dfy`, `ArrayHeap.dfy`, `Bits.dfy`: the priority queue of
  intrusive nodes (`clib/heap_interface.c`). `ArrayHeap` is the heap on a
  sequence in level order, with its laws. `PointerHeap` proves that relinking
  `parent`, `left` and `right` does exactly that: after every exchange all three
  links of every node agree with its level-order position. The comparison is
  any function that is a total preorder on the nodes in the heap; the node
  given to `heapAdd` is not in the heap already.
- `KfifoProtocol.dfy`, `Ring.dfy`: the byte ring buffer (`clib/kfifo.c`), with
  32-bit counters that wrap, shared by a producer and a consumer without a lock.
  Every copied byte is a step, and either side may act on a counter the other
  has since advanced.
- `Kfifo.dfy`, `KfifoCalls.dfy`, `NextPower.dfy`, `MachineInts.dfy`: the same
  buffer called from one thread. A call is proved to be an uninterrupted run of
  the protocol.
- `ThreadQueue.dfy`, `IntrusiveList.dfy`, `CircularList.dfy`, `Sequences.dfy`:
  the worker and its pushers (`clib/thread_queue.c`, `clib/cond.h`) as a
  transition system, the circular list (`clib/list.h`) on the heap, and the
  lock sections of the code as steps of the transition system.
- `Lru.dfy`, `LruHistory.dfy`: the LRU cache (`golib/lru.go`), its map and its
  ring of nodes, against a list of pairs, and what whole histories of calls mean.
- `HashTable.dfy`: the chained hash table (`clib/hash_interface.c`) with its
  memory accounting. `keyCompare` is any equivalence that `hashFunction`
  respects, so the table stands for a finite map from classes of keys.
- `SemaphoreRing.dfy`: the ring of semaphores (`clib/pthread_sem_sync.c`) for
  any number of threads, any number of rounds and any first thread.
- `Trees.dfy`, `Flatten.dfy`, `Traverse.dfy`: the three orders of a tree's nodes
  and their laws, the three flatten variants, the iterative postorder traversal
  and the construction of a tree from two traversals (`lintcode/tree_path.md`,
  `lintcode/tree_traverse.md`).
- `PathSum.dfy`: the largest sum over all paths of a tree
  (`lintcode/tree_path.md`).
- `EditDistance.dfy`, `Subsequences.dfy`: edit distance, longest common and
  longest increasing subsequences, and counting the ways to pick one string from
  another (`lintcode/dynamic_planning.md`).
- `NextPermutation.dfy`, `Combinations.dfy`: the next permutation and all sums
  of candidates (`lintcode/permutation_and_combination.md`).
- `Median.dfy`, `ThreeSum.dfy`, `QuickSelect.dfy`, `SubArrays.dfy`,
  `RotatedSearch.dfy`, `TwoSum.dfy`, `Sorting.dfy`, `MinMax.dfy`: the median of two sorted
  arrays, three numbers with sum zero, selection by partition, the best two
  stretches, search in a rotated array and two numbers with a given sum
  (`lintcode/array.md`).

Some code is right only on part of its inputs. It is modelled as it stands, and
the exact condition under which it is right is proved:

- `dictCreate` clears only as many slots as were asked for, but allocates the
  next power of two. The table it returns is usable exactly when the slots past
  the requested size happen to be null and an `int` can count the slots
  (`HashTable.Dict.constructor`). Whatever the slots happen to hold, the former
  is so exactly for the sizes that are powers of two from 4 on
  (`HashTable.AlwaysClean`). The program's own tests ask for 3, and
  `HashTable.AskForThree` makes an unusable table of that size. In tables of more
  than 2^31 slots a hash can get a negative index (`HashTable.IndexIsSlotUpTo`).
- `nextPowerOfTwo` is right exactly from 0 to 2^30. It gives 0 for negative
  numbers and the least `int` for the rest (`NextPower.NextPowerOfTwo`). So
  `kfifo_init` returns nothing for requests above 2^30 up to 2^31, and a buffer
  of size 0 for requests above 2^31 (`Kfifo.KfifoInit`).
- `search` in a rotated array misses exactly the second element of a proper
  rotation of 2, of 5 or 6, of 11 up to 14, of 23 up to 30 elements and so on
  (`RotatedSearch.Search`).
- `twoSum` is wrong exactly when a number without a twin is half the target and
  no earlier number has a partner (`TwoSum.TwoSum`).
- `longestIncreasingSubsequence` is right except on a single number
  (`Subsequences.LongestIncreasingSubsequence`).

Memory is sequentially consistent, allocation succeeds, and a thread that holds
no lock can be preempted anywhere.

## Model

| member | source | states |
|---|---|---|
| PointerHeap.LinksInMemory | clib/heap_interface.c:15-20 | In a linked tree the children of the node at level-order place i are those at 2i and 2i + 1, its parent is at half of i, and the links that would leave the tree are null. |
| PointerHeap.GetOffset | clib/heap_interface.c:44-49 | The offset is the weight of the bit just below the leading bit of its argument, and 0 for 1. |
| PointerHeap.Heap.constructor | clib/heap_interface.c:33-42 | A new heap is well formed and empty. |
| PointerHeap.Heap.Walk | clib/heap_interface.c:104-113 | The walk steered by the bits of n below the leading one never meets null and ends at level-order position n; heapGet walks the same way. |
| PointerHeap.ReplaceChild | clib/heap_interface.c:65-69 | The grandparent's link to the old node, and no other link, goes to the new one. |
| PointerHeap.ExchangeUp | clib/heap_interface.c:58-86 | All links of all nodes afterwards are the old ones with the names of node and parent exchanged, at both ends of every link. |
| PointerHeap.ExchangeLeft | clib/heap_interface.c:178-192 | The same for an exchange of a node with its left child. |
| PointerHeap.ExchangeRight | clib/heap_interface.c:195-209 | The same for an exchange of a node with its right child. |
| PointerHeap.ExchangedIsLinked | clib/heap_interface.c:58-86 | Exchanging the names of two nodes in the links of a complete linked tree gives the complete linked tree whose level order has the two nodes exchanged. |
| PointerHeap.RoundUp | clib/heap_interface.c:52-87 | One round of sifting up links the level order with the node and its parent exchanged. |
| PointerHeap.RoundDown | clib/heap_interface.c:176-212 | One round of sifting down links the level order with the node and the chosen child exchanged. |
| PointerHeap.Heap.AdjustUp | clib/heap_interface.c:51-89 | Sifting up by relinking leaves the complete linked tree of the sifted level order, with the right root and the same nodes. |
| PointerHeap.Heap.Append | clib/heap_interface.c:102-121 | The new node is hung at the first free level-order position of the complete tree. |
| PointerHeap.Heap.Add | clib/heap_interface.c:91-124 | Links, complete shape and heap order hold again, and the nodes are the old ones and the new one, as insertion into the level order says. |
| PointerHeap.Heap.ChooseChild | clib/heap_interface.c:137-174 | The comparisons pick the child that the specification sinks to, or neither. |
| PointerHeap.Heap.AdjustDown | clib/heap_interface.c:128-214 | Sifting down by relinking leaves the complete linked tree of the sifted level order, with the right root. |
| PointerHeap.Heap.Detach | clib/heap_interface.c:233-237 | Cutting the last node off leaves the others a complete linked tree. |
| PointerHeap.TakeOver | clib/heap_interface.c:238-249 | The cut-off node takes over the root's links, and the old root is left with none. |
| PointerHeap.Heap.ReplaceRoot | clib/heap_interface.c:238-250 | The heap's root, count and links are those of the level order with the last node in front. |
| PointerHeap.Heap.TakeRoot | clib/heap_interface.c:219-250 | The first node is delivered with no links, and the last one is in its place, also when they are the same node. |
| PointerHeap.Heap.Get | clib/heap_interface.c:217-255 | An empty heap delivers null; otherwise the delivered node is at least as large as every node in the heap, exactly it is removed, and the heap is well formed again. |
| PointerHeap.Heap.Destruct | clib/heap_interface.c:257-268 | Ends, and passes each remaining node to node_destruct exactly once, largest first, in the order of repeated removal. |
| ArrayHeap.SiftUpRestores | clib/heap_interface.c:51-89 | Sifting up restores heap order when order fails at most between one node and its parent. |
| ArrayHeap.SiftDownRestores | clib/heap_interface.c:128-214 | Sifting down restores heap order when order fails at most between one node and its children. |
| ArrayHeap.SinkChildIsLargest | clib/heap_interface.c:154-174 | The child chosen is at least as large as its sibling and its parent; none is chosen only if the parent is at least as large as both. |
| ArrayHeap.InsertCorrect | clib/heap_interface.c:91-124 | Insertion keeps the heap and adds exactly the new element. |
| ArrayHeap.RemoveRootCorrect | clib/heap_interface.c:217-255 | Removal keeps the heap and removes exactly the root. |
| ArrayHeap.RootIsLargest | clib/heap_interface.c:217-219 | The root of a heap is at least as large as every element. |
| ArrayHeap.DrainSorts | clib/heap_interface.c:257-263 | Repeated removal delivers a nonincreasing permutation of the contents. |
| ArrayHeap.HistoryConserves | clib/heap_interface.c:91-255 | After any history of adds and gets the heap is ordered, and what was delivered and what is left together are exactly what was there and what was added. |
| NextPower.SmearStep | clib/kfifo.c:13-18 | Or-ing with a shift of at most the length of the set run below the leading bit lengthens that run by the shift. |
| NextPower.NegativeStep | clib/kfifo.c:13-18 | Or-ing a negative number with a shift of itself extends its leading ones by the shift. |
| NextPower.NextPowerOfTwo | clib/kfifo.c:7-21 | For every int, the result is the least power of two not below the argument if and only if the argument is from 0 to 2^30; it is 0 for a negative one, and the least int for the least int and above 2^30. |
| Ring.MaskIsSlot | clib/kfifo.c:64-65 | Masking a wrapped counter with a power of two less one gives the remainder of the unbounded counter. |
| Ring.WrapDifference | clib/kfifo.c:60-60 | Differences of wrapped counters are those of the unbounded ones, also after one has wrapped below the other. |
| Kfifo.KfifoInit | clib/kfifo.c:31-49 | For every unsigned request: nothing is returned exactly above 2^30 up to 2^31; otherwise an empty buffer, whose size is the least power of two not below the request exactly up to 2^30, and 0 above 2^31. |
| Kfifo.Kfifo.constructor | clib/kfifo.c:35-48 | A new buffer of the given size, which may be 0, is empty. |
| Kfifo.Kfifo.CopyIn | clib/kfifo.c:64-67 | The two copies bring the bytes into the slots from the masked counter on, around the end of the buffer, and change no other slot. |
| Kfifo.Kfifo.CopyOut | clib/kfifo.c:81-84 | The two copies fetch the bytes from the slots from the masked counter on, around the end of the buffer. |
| KfifoCalls.Appended | clib/kfifo.c:64-67 | The two copies put the new bytes after the held ones, around the end of the buffer, and disturb none of the held ones. |
| KfifoCalls.PutIsRun | clib/kfifo.c:58-73 | An uninterrupted kfifo_put is a run of the protocol, whatever the consumer is at. |
| KfifoCalls.GetIsRun | clib/kfifo.c:75-90 | An uninterrupted kfifo_get is a run of the protocol, whatever the producer is at. |
| Kfifo.Kfifo.Put | clib/kfifo.c:58-73 | Exactly min(request, free) bytes are appended to the byte queue, whatever the counters have wrapped to, and the call is a run of the protocol. |
| Kfifo.Kfifo.Get | clib/kfifo.c:75-90 | Exactly min(request, held) bytes are taken from the front of the byte queue into the caller's bytes, whose rest is untouched, and the call is a run of the protocol. |
| KfifoProtocol.CopyIndexIsSlot | clib/kfifo.c:64-67 | The index used for the i-th copied byte is the slot of the i-th position after the counter. |
| KfifoProtocol.WriteIsFree | clib/kfifo.c:64-67 | A byte is never copied to the slot of a published byte not yet delivered, however stale the length was. |
| KfifoProtocol.StepKeepsInv | clib/kfifo.c:58-90 | Every step of either side keeps the invariant in whatever state of its call the other side is. |
| KfifoProtocol.NextIsInBounds | clib/kfifo.c:64-84 | No copy leaves the buffer or the caller's bytes. |
| KfifoProtocol.EveryRunIsSafe | clib/kfifo.c:58-90 | In every interleaving the consumer's output is a prefix of the producer's input, at most a buffer behind, unread bytes are not overwritten and all accesses are in bounds. |
| KfifoProtocol.RefinesQueue | clib/kfifo.c:58-90 | Each step is a step of an atomic bounded byte queue: beginning fixes min(request, free) or min(request, held) as the length, publishing appends that many bytes, delivering takes that many from the front, all else changes nothing. |
| KfifoProtocol.QueueInBuffer | clib/kfifo.c:75-84 | The bytes of that queue lie in the buffer from the wrapped read counter on, around the end of the buffer. |
| KfifoProtocol.PutPublishes | clib/kfifo.c:58-73 | In every run a call of kfifo_put publishes the first min(request, free) of its bytes, with free as it was when the call began. |
| KfifoProtocol.GetDelivers | clib/kfifo.c:75-90 | In every run a call of kfifo_get delivers min(request, held) bytes from the front, with held as it was when the call began. |
| CircularList.Deleted | clib/list.h:26-30 | Closing the gap around one element of a circular doubly linked list takes exactly it out of the list. |
| IntrusiveList.ListNode.constructor | clib/list.h:7-10 | A new list is empty. |
| IntrusiveList.ListNode.LinksInMemory | clib/list.h:1-5 | The head's links go to the first and the last element, every other next and prev to the neighbour on its side, and at the ends back to the head. |
| IntrusiveList.ListNode.Add | clib/list.h:12-17 | The element becomes the first; links agree in both directions. |
| IntrusiveList.ListNode.AddTail | clib/list.h:19-24 | The element becomes the last; links agree in both directions. |
| IntrusiveList.ListNode.Del | clib/list.h:26-30 | Exactly the element leaves its list and is a list of its own. |
| IntrusiveList.ListNode.Empty | clib/list.h:32-34 | The test is true exactly for the empty list. |
| IntrusiveList.ListNode.RemoveHead | clib/list.h:36-44 | Null for the empty list, otherwise the first element, which leaves the list. |
| IntrusiveList.ListNode.Elements | clib/list.h:46-47 | The loop visits every element once, in order, and ends. |
| ThreadQueue.StepKeepsInv | clib/thread_queue.c:60-117 | Every step keeps: executed, in progress and queued tasks are the push order; once the worker has seen the queue empty, queued tasks are covered by counted and outstanding wake-ups. |
| ThreadQueue.StepConserves | clib/thread_queue.c:105-117 | No step makes or loses a task. |
| ThreadQueue.StepDecreases | clib/cond.h:46-60 | Every step but a spurious wake-up decreases a measure, and that one raises it by one. |
| ThreadQueue.EveryRunIsSafe | clib/thread_queue.c:60-117 | In every reachable state tasks have run, and will run, in push order, and the worker sleeps on queued tasks only while some pusher still owes a wake-up. |
| ThreadQueue.EveryRunEnds | clib/thread_queue.c:60-117 | The length of every run is bounded by the pushes to be made and the spurious wake-ups. |
| ThreadQueue.RunInterleaves | clib/thread_queue.c:105-117 | At every moment the tasks pushed are an interleaving of what each pusher has pushed so far, each in its own order. |
| ThreadQueue.PartInOrder | clib/thread_queue.c:105-117 | Every part of an interleaving can be picked from the whole at places that go from left to right. |
| ThreadQueue.EveryRunCompletes | clib/thread_queue.c:60-117 | A run that cannot go on has executed every pushed task once, in push order, which is an interleaving of the pushers' own orders, and leaves the worker asleep with count 0. |
| ThreadQueueCode.Queue.constructor | clib/thread_queue.c:85-95 | The queue starts empty with nothing counted. |
| ThreadQueueCode.Queue.Push | clib/thread_queue.c:105-112 | The lock section of a push makes the appending step, or refuses a null task. |
| ThreadQueueCode.Queue.Wakeup | clib/cond.h:46-51 | The wake-up makes the counting step. |
| ThreadQueueCode.Queue.RemoveHead | clib/thread_queue.c:67-72 | The worker's lock section makes the taking step or sees the queue empty. |
| ThreadQueueCode.Queue.TryWait | clib/cond.h:53-60 | One test of the count makes the consuming or the sleeping step. |
| Lru.LRUNode.constructor | golib/lru.go:15-20 | A new node is linked to itself. |
| Lru.LRUNode.LinksInMemory | golib/lru.go:8-13 | Following next from the head of the ring meets the nodes in order and comes back to the head, and pre goes the other way. |
| Lru.LRUNode.Del | golib/lru.go:22-25 | Exactly the node leaves the ring; links agree in both directions. |
| Lru.LRUNode.Insert | golib/lru.go:27-32 | The node becomes the first of the ring. |
| Lru.NewLRU | golib/lru.go:42-52 | Null exactly for sizes that are not positive, otherwise an empty cache of that size. |
| Lru.LRU.Evict | golib/lru.go:63-64 | Exactly the least recently used pair leaves the map and the ring. |
| Lru.LRU.Update | golib/lru.go:55-59 | A known key gets the new value and becomes the most recent. |
| Lru.LRU.Push | golib/lru.go:67-69 | A new pair becomes the most recent. |
| Lru.LRU.Add | golib/lru.go:54-70 | Map, ring and recency list of at most size pairs still agree, and the list changes as the specification says. |
| Lru.LRU.Get | golib/lru.go:72-80 | The value found is that of the recency list, and the key found becomes the most recent. |
| LruHistory.HoldsMostRecent | golib/lru.go:54-80 | After any history the keys held are the size most recently used distinct ones, most recent first. |
| LruHistory.FirstsOrder | golib/lru.go:54-80 | Of two of the distinct keys used the one listed first was used more recently. |
| LruHistory.HoldsLatest | golib/lru.go:54-80 | Every pair held carries the value last added for its key. |
| LruHistory.LastAddedIsLast | golib/lru.go:54-70 | The value last added for a key is that of an addition after which no other addition of the key comes. |
| LruHistory.GetMeaning | golib/lru.go:72-80 | After any history a get finds the value last added exactly for the keys among the size most recently used. |
| HashTable.DictNextPower | clib/hash_interface.c:94-104 | The least power of two not below the size and not below 4, and LONG_MAX for sizes from LONG_MAX on. |
| HashTable.SizeIsKept | clib/hash_interface.c:111-124 | The requested size is kept exactly when it is a power of two from 4 on. |
| HashTable.IndexIsSlot | clib/hash_interface.c:136-137 | Converting the hash to int and masking it as unsigned long gives its remainder by the table size. |
| HashTable.IndexIsSlotUpTo | clib/hash_interface.c:136-137 | That is so for every hash exactly in tables of up to 2^31 slots. |
| HashTable.Clear | clib/hash_interface.c:123-123 | Exactly the first slots are null afterwards. |
| HashTable.AlwaysClean | clib/hash_interface.c:111-124 | The slots past the requested size are null whatever the block happened to hold exactly for sizes that are powers of two from 4 on. |
| HashTable.Dict.constructor | clib/hash_interface.c:106-129 | The new table is a well-formed empty one if and only if the slots past the requested size were null and the size is at most 2^30; it is one for all powers of two from 4 to 2^30; the memory total grows by the structure and one pointer for each allocated slot. |
| HashTable.AskForThree | clib/hash_interface.c:288-289 | A table of size 3 that is not usable. |
| HashTable.Dict.Add | clib/hash_interface.c:132-158 | The finite map gets the pair, the status says whether the key was there, and the memory total grows by one entry exactly if it was not. |
| HashTable.PushFirst | clib/hash_interface.c:153-154 | The new entry becomes the first of its chain; no other chain changes. |
| HashTable.Dict.Find | clib/hash_interface.c:160-173 | Null exactly for keys not in the map, otherwise the entry of the key with its value. |
| HashTable.Dict.Del | clib/hash_interface.c:175-197 | Exactly the key leaves the map, the status says whether it was there, and the memory total falls by one entry exactly if it was. |
| HashTable.Unlink | clib/hash_interface.c:183-189 | Exactly the entry leaves its chain, at the head or after its predecessor; no other chain changes. |
| HashTable.Dict.FreeChain | clib/hash_interface.c:202-211 | Every entry of the bucket is given back once. |
| HashTable.Dict.Destroy | clib/hash_interface.c:199-215 | Nothing is left in use, so the final assertion holds, and every entry's memory is given back. |
| HashTable.Dict.Destruct | clib/hash_interface.c:217-227 | The memory total falls by the structure, one pointer for each slot and one entry for each key in the map, which is what the table had cost. |
| HashTable.Dict.KeyLiesOnce | clib/hash_interface.c:132-197 | A key in the map has exactly one entry in the whole table, in its own bucket. |
| HashTable.Dict.BucketInMemory | clib/hash_interface.c:160-173 | Every slot links the entries of its bucket in order and ends with null. |
| HashTable.RepliesAnswer | clib/hash_interface.c:132-197 | The replies of a finite map say of every operation what the last addition or deletion of an equivalent key before it left: its value if it was an addition, nothing otherwise. |
| HashTable.Session | clib/hash_interface.c:286-328 | For any operations in any order a find answers with the value of the last earlier addition or deletion of an equivalent key if that was an addition, and not found otherwise; the statuses of additions and deletions say the same; after the destruction the memory total is what it was before. |
| SemaphoreRing.NextState | clib/pthread_sem_sync.c:28-36 | In the p-th state after the first post exactly one step is possible, until every number has been printed in every round, and it leads to the next state. |
| SemaphoreRing.EveryRunIsTheSame | clib/pthread_sem_sync.c:38-63 | Whatever the scheduler does, the number of steps alone determines the state, and runs are bounded. |
| SemaphoreRing.OutputGoesRound | clib/pthread_sem_sync.c:28-63 | The output of every run is the beginning of k + 1, k + 2, ... cycling over the N numbers, at most N times M of them. |
| SemaphoreRing.NoRunStopsEarly | clib/pthread_sem_sync.c:28-63 | A run can stop exactly when N times M numbers are out and every thread has done its M rounds. |
| SemaphoreRing.StepKeepsTokens | clib/pthread_sem_sync.c:32-34 | From any state, only the first post makes a token, and no step loses one. |
| SemaphoreRing.OneToken | clib/pthread_sem_sync.c:31-58 | Semaphore counts and threads between wait and post total one, so at most one thread is between them. |
| SemaphoreRing.LapsStep | clib/pthread_sem_sync.c:31-35 | Each output is one more round for exactly the thread whose turn it was. |
| SemaphoreRing.Semaphores.constructor | clib/pthread_sem_sync.c:41-56 | All semaphores start at zero and all threads before their first round. |
| SemaphoreRing.Semaphores.First | clib/pthread_sem_sync.c:58-58 | The first post makes the starting step. |
| SemaphoreRing.Semaphores.SemWait | clib/pthread_sem_sync.c:32-32 | The wait of a thread that is not blocked makes its step. |
| SemaphoreRing.Semaphores.Printf | clib/pthread_sem_sync.c:33-33 | Printing makes its step. |
| SemaphoreRing.Semaphores.SemPost | clib/pthread_sem_sync.c:34-34 | The post to the next semaphore makes its step. |
| Flatten.FlattenRecursive | lintcode/tree_path.md:85-99 | Any tree becomes the chain, linked by right with every left null, of its nodes in preorder; the method ends. |
| Flatten.Splice | lintcode/tree_path.md:92-98 | The left chain is put between the root and the right chain. |
| Flatten.SegmentByIndex | lintcode/tree_path.md:85-99 | A chain is one exactly if it starts with the first node, every left is null and every right goes to the next node, the last one to where the chain leads. |
| Flatten.FlattenDFS | lintcode/tree_path.md:110-125 | The tree and the stacked trees become one chain of their nodes in preorder, and the stack is left empty. |
| Flatten.FlattenWithStack | lintcode/tree_path.md:105-108 | Any tree becomes the chain of its nodes in preorder. |
| Flatten.Round | lintcode/tree_path.md:137-147 | One round keeps: the finished chain followed by the preorders of the stacked subtrees is the preorder of the tree. |
| Flatten.FlattenIterative | lintcode/tree_path.md:131-148 | Any tree becomes the chain of its nodes in preorder; the loop ends. |
| PathSum.StaysOnSide | lintcode/tree_path.md:64-69 | A walk without repetition that does not visit the root stays on the side on which it starts. |
| PathSum.VertexInMemory | lintcode/tree_path.md:52-75 | The vertices paths visit are the nodes in memory, each reached from the root by the turns that name it, with its own value. |
| PathSum.PathBound | lintcode/tree_path.md:61-74 | No path of the tree, whatever its highest vertex, has a larger sum than the recurrence says. |
| PathSum.BestPath | lintcode/tree_path.md:61-74 | Some path has that sum. |
| PathSum.MaxPath | lintcode/tree_path.md:61-74 | The result is the best sum downwards from the root, and the running maximum takes in the best path of the tree. |
| PathSum.MaxPathSum | lintcode/tree_path.md:52-59 | The result is the largest sum over all paths that visit no vertex twice, and 0 for no tree. |
| Trees.BelowIs | lintcode/tree_traverse.md:83-112 | In memory the left and right links of every node of a tree go to the roots of its two subtrees, or are null. |
| Trees.PreOrder | lintcode/tree_traverse.md:8-20 | In preorder every node stands before all nodes of its subtrees, and those of the left one before those of the right one. |
| Trees.InOrder | lintcode/tree_traverse.md:47-70 | In inorder every node stands after all nodes of its left subtree and before all of its right one. |
| Trees.PostOrder | lintcode/tree_traverse.md:83-112 | In postorder every node stands after all nodes of its subtrees, and those of the left one before those of the right one. |
| Trees.PostDistinct | lintcode/tree_traverse.md:83-112 | Every node stands in the postorder once. |
| Postorder.TestTells | lintcode/tree_traverse.md:95-102 | The comparison with the node last visited is true exactly when the right subtree of the node on top has been visited. |
| Postorder.PostorderTraversal | lintcode/tree_traverse.md:83-112 | For any tree the loop ends and its output is, index by index, the values of the nodes in postorder. |
| BuildTree.InSplits | lintcode/tree_traverse.md:158-163 | The inorder splits at the only place that holds the root's value. |
| BuildTree.DoBuildTree | lintcode/tree_traverse.md:151-167 | From the windows that hold the two traversals of a tree with distinct values, a tree of new nodes is built whose own preorder and inorder hold those windows. |
| BuildTree.BuildTree | lintcode/tree_traverse.md:147-149 | From the preorder and the inorder of any tree with distinct values, that tree is rebuilt: the nodes in preorder hold the one input index by index, and the nodes in inorder the other. |
| BuildTree.TraversalsDetermine | lintcode/tree_traverse.md:147-167 | Two trees with distinct values and the same two traversals are the same. |
| EditDistance.DiagonalIsBest | lintcode/dynamic_planning.md:132-134 | On equal last characters no move beats the diagonal. |
| EditDistance.NoShorterScript | lintcode/dynamic_planning.md:112-143 | No script of insertions, deletions and replacements is shorter than the recurrence says. |
| EditDistance.ScriptWorks | lintcode/dynamic_planning.md:112-143 | A script of that length exists. |
| EditDistance.MinDistance | lintcode/dynamic_planning.md:120-141 | The result is the least length of a script from word1 to word2. |
| Subsequences.NoLongerCommon | lintcode/dynamic_planning.md:36-52 | No common subsequence is longer than the recurrence says. |
| Subsequences.LongestCommonSubsequence | lintcode/dynamic_planning.md:36-52 | The result is the length of a longest common subsequence. |
| Subsequences.WaysAreAll | lintcode/dynamic_planning.md:91-110 | The recurrence collects exactly the increasing places at which S holds T. |
| Subsequences.CountIsNumber | lintcode/dynamic_planning.md:91-110 | The recurrence counts them without counting any twice. |
| Subsequences.NumDistinct | lintcode/dynamic_planning.md:91-110 | The result is the number of increasing places at which S holds T. |
| Subsequences.NoLongerRising | lintcode/dynamic_planning.md:17-23 | No rising subsequence that ends at i is longer than the table entry says. |
| Subsequences.RisingByIndex | lintcode/dynamic_planning.md:7-23 | A rising subsequence is any places that go from left to right and whose numbers rise strictly. |
| Subsequences.LongestIncreasingSubsequence | lintcode/dynamic_planning.md:12-27 | The result is the length of a longest rising subsequence if and only if there is not exactly one number, where it is 0. |
| NextPermutation.Reverse | lintcode/permutation_and_combination.md:10-14 | The part between the bounds is reversed and the rest untouched. |
| NextPermutation.NextIsSuccessor | lintcode/permutation_and_combination.md:31-42 | Exchanging at the last rise and reversing the rest gives the immediate successor: no permutation lies strictly between. |
| NextPermutation.WithoutPivot | lintcode/permutation_and_combination.md:26-29 | Without a rise the input is the greatest permutation and its reverse the ascending one. |
| NextPermutation.NextPermutation | lintcode/permutation_and_combination.md:16-45 | The result is a permutation of the input, its immediate successor if there is one, and ascending if and only if there is none, duplicates included. |
| Combinations.FirstNumber | lintcode/permutation_and_combination.md:95-104 | The sums that begin with a candidate, at the first place of its value, are that candidate followed by the sums the recursive call makes. |
| Combinations.NextFirst | lintcode/permutation_and_combination.md:98-104 | One round adds exactly the sums with the next first number, each once. |
| Combinations.SkipRepeated | lintcode/permutation_and_combination.md:96-97 | Skipping a repeated candidate loses no sum. |
| Combinations.Search.Recursive | lintcode/permutation_and_combination.md:88-107 | The shared prefix is restored, and behind it exactly the ways to make the rest of the target are appended, each once; the recursion ends. |
| Combinations.CombinationSum | lintcode/permutation_and_combination.md:80-86 | For positive candidates every ordered list of candidates with the target as its sum is in the result exactly once, and nothing else. |
| Sorting.RankIsSortedPlace | lintcode/array.md:204-221 | What has rank k by counting is at place k of the sorted sequence. |
| Sorting.CountIsNumber | lintcode/array.md:204-221 | The count of the elements below a value, or not above it, is the number of their places. |
| Median.DropFirst | lintcode/array.md:219-219 | The elements findKth drops from the one sequence do not contain the k-th. |
| Median.Ranked | lintcode/array.md:204-221 | What has rank k in two sequences taken together is at place k of their sorted union. |
| Median.MiddlesHalve | lintcode/array.md:194-202 | At least half of the elements are not above the lower middle element, and at least half not below the upper one. |
| Median.FindKth | lintcode/array.md:204-221 | Stays in bounds, ends although the arguments change places, and returns an element of rank k in the two slices together. |
| Median.FindMedianSortedArrays | lintcode/array.md:194-202 | The result is the mean of the elements of ranks (n + 1) / 2 and n / 2 + 1, which are the middle ones of the sorted union, and at least half of all elements are on either side of it. |
| ThreeSum.SumTooSmall | lintcode/array.md:155-155 | Moving the lower pointer on a small sum loses no triple. |
| ThreeSum.SumTooLarge | lintcode/array.md:156-156 | Moving the upper pointer on a large sum loses no triple. |
| ThreeSum.SumFits | lintcode/array.md:157-157 | Moving both pointers on a match loses no triple but the one recorded. |
| ThreeSum.SkipDuplicate | lintcode/array.md:151-154 | Skipping a repeated second number loses no triple. |
| ThreeSum.IsNew | lintcode/array.md:157-157 | A recorded triple was not recorded before. |
| ThreeSum.TriplesAreDrawn | lintcode/array.md:140-162 | Zero-sum value triples drawn from distinct positions are exactly those at increasing places of the sorted numbers. |
| ThreeSum.Pairs | lintcode/array.md:149-158 | The inner loop adds exactly the triples with the given first number, each once. |
| ThreeSum.ThreeSum | lintcode/array.md:140-162 | Every zero-sum value triple drawn from distinct positions is listed exactly once, and nothing else; the numbers are left sorted. |
| QuickSelect.Partition | lintcode/array.md:16-26 | The window is permuted, nothing else changes, and the pivot ends up between what is not above it and what is not below it. |
| QuickSelect.PartitionSplits | lintcode/array.md:9-14 | Either part of a partitioned window holds what belongs there in the sorted order of the whole. |
| QuickSelect.Select | lintcode/array.md:8-14 | The loop ends, permutes its input and returns what sorting puts at the index. |
| QuickSelect.KthLargestElement | lintcode/array.md:5-15 | The n-th largest for 1 <= n <= size, -1 otherwise; the numbers are permuted. |
| QuickSelect.Median | lintcode/array.md:228-244 | The lower of the two middle elements of the sorted input; the numbers are permuted. |
| SubArrays.NextEnd | lintcode/array.md:96-97 | The best stretch that ends at the next number extends the best one before if that is positive. |
| SubArrays.BestOverCuts | lintcode/array.md:111-114 | The best over all cuts of the best before and the best after is the best of all pairs. |
| SubArrays.MaxTwoSubArrays | lintcode/array.md:85-117 | From two numbers on, the largest sum of two nonempty stretches that do not overlap. |
| RotatedSearch.LandsInBands | lintcode/array.md:168-169 | Halving for the second element ends in a window of two exactly for these sizes. |
| RotatedSearch.Instances | lintcode/array.md:167-189 | Two rotated arrays with an element that is not found. |
| RotatedSearch.Search | lintcode/array.md:167-189 | What is returned is an index of the target or -1, and it is right if and only if the target is not the second element of a proper rotation with a size from 3 * 2^m - 1 to 4 * 2^m - 2 for some m. |
| TwoSum.Instances | lintcode/array.md:122-135 | Three numbers of which one meets itself, although two others have the sum. |
| TwoSum.TwoSum | lintcode/array.md:122-135 | The answer is right if and only if no number that has no twin is half the target with no earlier number having a partner; otherwise it is that number's index twice. The first index is the first with a partner, the second its last partner. |

## Left out

- `clib/epoll_multi_instance.c`, all `main` and `test_` functions and printing: sockets, input and output, fixed examples.
- Real threads, locks, barriers and allocation: lock sections and the pieces between barriers are atomic steps over sequentially consistent memory, and allocation does not fail.
- `clib/heap.c` and `clib/hash.c`: simpler twins of the modelled files; `key % cap` in the latter indexes properly only for keys that are not negative.
- `clib/pthread_lock_cond_sem.c`, `clib/array_and_string.c`, `gostudy/`, `lintcode/recursive.md`: counters under a lock, fixed printing, reflection, and a repetition of flatten.
- PointerHeap.Heap.Destruct: the release of the heap structure itself is not modelled, nor is a NULL heap pointer, which all functions but heapAdd ignore.
- NextPower.NextPowerOfTwo: signed overflow is taken to wrap around, which C leaves undefined; it occurs for the least int and above 2^30.
- HashTable.Dict.constructor: the block of slots is one that can be allocated, so sizes above 2^59 are not modelled, for which the allocation fails or its byte count wraps around; keyDup, valDup and the destructors are taken as absent, and the 32-bit range of the memory total as sufficient.
- ThreadQueueCode.Queue.Push: a task that is pushed again while it is still queued would break the list; callers do not do this.
- ThreadQueue.EveryRunCompletes: that a signalled or scheduled thread does run eventually is the scheduler's part; the theorem speaks of runs in which nothing but a spurious wake-up is possible any more.
- Lru.LRU.Add: keys have ordinary equality; Go keys that differ from themselves, such as NaN, are not modelled.
- Median.FindMedianSortedArrays: the two sequences are not both empty, where the code reads outside them; the mean is exact, not rounded.
- ThreeSum.ThreeSum: fewer than two numbers make the loop bound wrap around and are not modelled.
- QuickSelect.Median: an empty input, of which the partition reads the first element, is not modelled.
- RotatedSearch.Search: repeated values, among which the comparison with the first element says nothing, are not modelled.
- QuickSelect.KthLargestElement: n = 0 with a nonempty input sends the window past the end and is not modelled.
- The lintcode models use unbounded integers; sums near the ends of the int range are not modelled as overflowing.
- Combinations.CombinationSum: candidates are positive; with others the recursion need not end.
- PathSum.MaxPathSum: the values are at least the least 32-bit int, which the running maximum starts from.
- The other tree traversals, depths, list functions and one-pass array functions of lintcode: simpler loops of the kinds modelled.
- The recursive mergeKLists, which links the wrong node and does not compile as it stands.
