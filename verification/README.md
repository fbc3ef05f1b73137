# Verified models of cpunchline-hub

A Dafny model of the data structures, the text formatter and the thread and message protocols of cpunchline-hub, with
proofs of what they promise over every input and every run. `dafny verify dfyconfig.toml` checks the whole project.

| file | models |
|---|---|
| `basics.dfy` | what several modules use: options, bytes, entries, quotients, remainders and places in a ring |
| `probing.dfy` | the probe order of the stb_ds hash index, and why it reaches every slot |
| `hash_index.dfy` | the stb_ds slot array: insertion, tombstones, rebuilding at another size |
| `hash_map.dfy` | the stb_ds map over it: lookup, put, swap-delete, growth, shrinking; whole runs |
| `safe_list.dfy` | the circular list whose nodes carry chains of iterators |
| `safe_list_walk.dfy` | traversals of it with callbacks that delete, add and traverse |
| `pointer_heap.dfy` | the pointer-linked complete binary heap |
| `bounded_queue.dfy` | `BoundedQueue` as a step machine over any number of threads |
| `broker.dfy` | the load-balancing broker with its clients and workers |
| `timer_cluster.dfy` | `TimerCluster`: timers shared by an ordered set and a map |
| `numerals.dfy` | the integer conversion of stb_sprintf |
| `sprintf_output.dfy` | the chunked output of stb_sprintf, the layout of a field, `vsnprintf` |
| `deque.dfy` | the growable ring deque and its amortised cost |
| `lru_cache.dfy` | `LRUCache` |
| `arena.dfy` | the region arena with marks |
| `ring_buffer.dfy` | the power-of-two ring buffer |
| `mem_pool.dfy` | `FixedMemPool` |

Structures that the code updates in place are classes with those fields; where a structure is made of pointers, a ghost
sequence says which objects it links and in which order, and the invariant ties every pointer to it. Their methods are
proved against functions on plain values, and the laws are proved about those functions. Protocols are step machines
whose steps are the code between two points where another thread or process can act.

The main results:

- Every run of put, get and delete on the stb_ds map answers as a finite map does, whatever the hash function, through
  growth, shrinking and tombstone rebuilds. All probe loops end, because the triangular bucket offsets are a
  permutation and an empty slot is always left.
- A traversal of the safe list, under any callback that deletes elements, adds new or deleted ones at either end and
  starts further traversals, does exactly what the callbacks ask for, ends at the first that asks to stop, never
  visits a deleted element and visits in list order. Of the elements that are there in the end it has visited, unless
  a callback stops it, exactly those that were not put in front during it or appended while it was at its last
  element.
- The heap keeps a complete tree in heap order under insertion and removal of any node; draining it yields a sorted
  permutation.
- `BoundedQueue` loses no wake-up, cannot deadlock and is first in, first out; what it has accepted and delivered is
  what its calls have answered, and they answer true exactly when there is room or an item. `PopAll` and its variants
  keep this exactly when the caller's deque is empty and, besides, at most one producer is asleep or the notified ones
  are enough to fill the queue; runs are given in which they strand a producer and in which they put an element into
  the queue that nobody pushed.
- The broker reads its frontend exactly when a worker is ready, every worker and client is at exactly one place,
  workers get requests in the order in which they became ready, and a silent system ends with every client answered; a
  client is answered exactly when its identity does not begin with the READY byte.
- Timers fire in order of expiry and id, single timers once per add. One that was added or reset and left alone is
  fired by a round exactly when it is first and its interval has passed since then or since it last fired; a deleted
  one never fires. A due timer that is left alone comes forward with every round exactly unless the clock stands at
  its expiry and the round fires a cyclic timer of interval 0 and smaller id; so an overdue one never starves, and one
  that is due while the clock stands still starves exactly behind such a timer.
- `%d` and `%u` print the canonical decimal numeral of every 64-bit value; the byte behind the conversion buffer is
  read exactly for a zero with the comma flag. In every field sign, zeros, digits and padding stand in their places,
  and every printed integer reads back. Commas stand exactly at every fourth place from the right of the digits; in
  filling zeros they do exactly when the field is left-justified, has the 0 flag, or has too few zeros for the next
  comma. `vsnprintf` leaves a prefix of the unbounded output whatever the chunks are.
- An operation on the deque keeps its indices and its array in order exactly when no wrapped 32-bit product fails an
  assertion or makes the array too small, and no shift strands the tail by shrinking to a full array; a resize copies
  the right elements exactly when head plus length does not wrap. A state that a run reaches is given for each case. A
  run that meets none of them refines a sequence; however long it is, it meets none, and copies at most two elements
  an operation, when its length stays below the points where products wrap.
- A key is in an LRU cache exactly when it was put, not removed, and never since its last use as many other keys as
  the capacity had been used after it and not removed. A smaller cache is always included in a larger one that sees
  the same operations.
- Rewinding an arena restores what it used at the mark, and every run on an arena leaves live blocks apart; a block is
  too small, or its region, exactly for the sizes within 31 of 2^64. The ring buffer is first in, first out although
  its counters wrap; the pool's free list is exactly the blocks not handed out, whatever users write.

## Model

| member | source | states |
|---|---|---|
| Probing.TrianglesDistinct | base/inc/stb/std_ds.h:1274-1276 | two different triangular numbers below the power-of-two bucket count differ modulo it |
| Probing.ProbeSlotInjective | base/inc/stb/std_ds.h:1246-1277 | the first n probes of a table of n slots, home bucket first and from the home slot on, hit n different slots |
| Probing.ProbeReaches | base/inc/stb/std_ds.h:1246-1277 | every slot is hit by one of the first n probes, so a probe loop that looks for a slot of some kind ends when there is one |
| Probing.NextRound | base/inc/stb/std_ds.h:1274-1276 | adding the growing step and masking leads to the position of the next round |
| Probing.ProbeOfEntry | base/inc/stb/std_ds.h:1249-1271 | the entries of a bucket, scanned from the home offset to the end and then from the start, are eight consecutive probes |
| HashTables.ThresholdsLeaveRoom | base/inc/stb/std_ds.h:904-935 | the thresholds for used slots and tombstones together stay below the slot count |
| HashTables.EmptySlotAhead | base/inc/stb/std_ds.h:1246-1277 | with an empty slot in the table, every probe path meets one |
| HashTables.SearchIsComplete | base/inc/stb/std_ds.h:1232-1279 | when every entry in use has no empty slot before it on its path, a search that stops at an empty slot has seen every entry with that hash |
| HashTables.Occupy | base/inc/stb/std_ds.h:1429-1448 | taking the first slot on a path that is not in use keeps every entry reachable |
| HashTables.Vacate | base/inc/stb/std_ds.h:1489-1500 | turning a slot into a tombstone keeps every other entry reachable |
| HashTables.LinkOneMore | base/inc/stb/std_ds.h:964-1008 | copying one slot extends the correspondence of slots and array positions by exactly that position |
| HashTables.HashIndex.constructor | base/inc/stb/std_ds.h:884-960 | a new table has only empty slots and satisfies the invariant |
| HashTables.HashIndex.ProbeForEmpty | base/inc/stb/std_ds.h:973-1003 | the rehash loop ends at the first empty slot on the path of a hash |
| HashTables.HashIndex.Insert | base/inc/stb/std_ds.h:968-1005 | an entry is put on its path with nothing empty before it; no other entry changes |
| HashTables.HashIndex.Take | base/inc/stb/std_ds.h:1429-1448 | put takes the empty slot or the tombstone it remembered; every entry stays reachable and both counters stay exact |
| HashTables.HashIndex.Bury | base/inc/stb/std_ds.h:1489-1500 | delete turns the slot into a tombstone, and both counters stay exact |
| HashTables.HashIndex.Redirect | base/inc/stb/std_ds.h:1508-1519 | the slot of a moved entry points to its new array position; nothing else changes |
| HashTables.Rebuild | base/inc/stb/std_ds.h:964-1011 | a table of double, equal or half size holds exactly the entries of the old one, each reachable, and no tombstones |
| HashMaps.ScanBucket | base/inc/stb/std_ds.h:1248-1272 | the two scans of a bucket find the key, or stop at the first empty slot in probe order, or report that neither is in the bucket |
| HashMaps.FindSlot | base/inc/stb/std_ds.h:1232-1279 | the search ends; a slot found refers to an entry of the key, and none is found only when no slot does |
| HashMaps.HashMap.GetIndex | base/inc/stb/std_ds.h:1281-1310 | the index of the entry with that key, or -1 exactly when there is none |
| HashMaps.HashMap.Get | base/inc/stb/std_ds.h:1281-1310 | the value last stored under the key, or the default |
| HashMaps.HashMap.EnsureTable | base/inc/stb/std_ds.h:1355-1376 | the table exists and is below its growth threshold before a put, with the same entries |
| HashMaps.HashMap.LocateForPut | base/inc/stb/std_ds.h:1378-1428 | put finds the key's own slot, or the first slot on its path that is not in use |
| HashMaps.HashMap.PutKey | base/inc/stb/std_ds.h:1337-1459 | after put the array has exactly one entry of the key, at the returned index, and all others as before |
| HashMaps.HashMap.Put | base/inc/stb/std_ds.h:1337-1459 | the map is the old one with the key bound to the value |
| HashMaps.HashMap.FillGap | base/inc/stb/std_ds.h:1504-1521 | the last entry takes the place of a deleted one and its slot follows it |
| HashMaps.HashMap.Compact | base/inc/stb/std_ds.h:1523-1531 | shrinking or rebuilding after a delete brings the counters back within the thresholds, so that a table above the least size is at least a quarter in use, and keeps the entries |
| HashMaps.HashMap.Delete | base/inc/stb/std_ds.h:1472-1538 | the map is the old one without the key, and the answer says whether it was there |
| HashMaps.LinkSwapDeleted | base/inc/stb/std_ds.h:1489-1521 | slots in use and array positions stay in bijection through swap-delete |
| HashMaps.MapSwapDeleted | base/inc/stb/std_ds.h:1504-1521 | swap-delete removes one key from the map and changes no other |
| HashMaps.GrownCapacity | base/inc/stb/std_ds.h:762-798 | the capacity that stbds_arrgrowf chooses is enough for what is asked, and not below the old one |
| HashMaps.Run | base/inc/stb/std_ds.h:1232-1538 | every run of put, get and delete from the empty map gives the answers of a finite map |
| SafeLists.SafeList.SetIterator | base/inc/dsa/safe_list.h:43-60 | the iterator becomes the first of the chain of the node after the given one; every pointer of ring and chains stays consistent |
| SafeLists.SafeList.DelIterator | base/inc/dsa/safe_list.h:62-68 | the iterator leaves its chain through its back pointer; nothing else changes |
| SafeLists.SafeList.ListDel | base/inc/dsa/list.h:63-80 | unlinking a node leaves the other nodes linked in their order |
| SafeLists.SafeList.ListAdd | base/inc/dsa/list.h:42-60 | linking a node between two neighbours puts it between them in the ring, all other links as they were |
| SafeLists.SafeList.Add | base/inc/dsa/safe_list.h:100-104 | the node is appended, without iterators |
| SafeLists.SafeList.AddFirst | base/inc/dsa/safe_list.h:106-110 | the node comes just behind the head, without iterators |
| SafeLists.SafeList.HandOver | base/inc/dsa/safe_list.h:123-138 | the chain of a deleted node is spliced before the chain of the next node, every back pointer set |
| SafeLists.SafeList.Del | base/inc/dsa/safe_list.h:112-139 | the node leaves the ring, its iterators are handed to the next node, all others stay where they are |
| SafeListWalks.RestAfterDel | base/inc/dsa/safe_list.h:112-139 | what an iterator has still to visit after a deletion is what it had to visit, without the deleted node |
| SafeListWalks.EvolvesTogether | base/inc/dsa/safe_list.h:78-98 | what two stretches of deletions, insertions and nested traversals do to the list and to every iterator composes |
| SafeListWalks.AppendEvolves | base/inc/dsa/safe_list.h:100-104 | an appended node is to be visited by every iterator, except those that hang on the head |
| SafeListWalks.PrependEvolves | base/inc/dsa/safe_list.h:106-110 | a node put in front is to be visited by no iterator |
| SafeListWalks.MoveIterator | base/inc/dsa/safe_list.h:70-76 | an iterator moves on to the chain of the following node |
| SafeListWalks.Do | base/inc/dsa/safe_list.h:78-139 | what is logged, and so happens to the list, is what the act of a callback asks for: exactly the element at the position is deleted, one new or the named deleted node comes in at that end, or the list is walked |
| SafeListWalks.Perform | base/inc/dsa/safe_list.h:91-91 | a callback's acts happen one after the other; they leave the list consistent and every other iterator with the rest it had, minus what was deleted, plus what was appended before it came to hang on the head |
| SafeListWalks.ForEach | base/inc/dsa/safe_list.h:78-98 | after each visit exactly what the callback asks for happens; the walk is stopped exactly by a callback that asks for it, and no earlier one did; only elements that are in the list at that moment are visited, in list order with appended ones behind, and none twice if none is added again; when no callback stops the walk, an element of the final list has been visited since it was added exactly when it was not put in front during the walk or appended while nothing but the element being visited was left |
| SafeListWalks.VisitsInOrder | base/inc/dsa/safe_list.h:78-98 | a walk that always visits the first of what is left visits a subsequence of the list followed by the appended elements |
| SafeListWalks.VisitsOnce | base/inc/dsa/safe_list.h:78-98 | and none of them twice, if none is added again |
| SafeListWalks.WalkIsComplete | base/inc/dsa/safe_list.h:78-110 | once nothing is left, an element of the final list has been visited since it was added exactly when it was not put in front or appended while nothing was left |
| SafeListWalks.VisitedExactlyWhen | base/inc/dsa/safe_list.h:78-110 | if no element is added again, that is exactly when it has been visited at all |
| PointerHeaps.BuildPath | base/inc/dsa/heap.h:106-120 | the path bits built from the node count, read lowest first, are the turns from the root to that place |
| PointerHeaps.TurnAt | base/inc/dsa/heap.h:106-120 | the lowest path bit is the turn that leads from one place to the next on the way from the root, and dropping it leaves the path from there |
| PointerHeaps.Heap.Walk | base/inc/dsa/heap.h:113-120 | the walk along the bits ends at the parent of the last place |
| PointerHeaps.SiftUpStep | base/inc/dsa/heap.h:131-138 | exchanging a node with its parent leaves heap order broken at most at the parent's place |
| PointerHeaps.SiftDownStep | base/inc/dsa/heap.h:196-207 | exchanging a node with its smaller child leaves heap order broken at most below |
| PointerHeaps.RootIsLeast | base/inc/dsa/heap.h:100-139 | in a heap-ordered tree no node is less than the root |
| PointerHeaps.Heap.Swap | base/inc/dsa/heap.h:59-98 | all parent, child and root pointers are as if the two nodes had changed places |
| PointerHeaps.Heap.Replace | base/inc/dsa/heap.h:36-57 | one node takes over all links of another |
| PointerHeaps.Heap.Insert | base/inc/dsa/heap.h:100-139 | the tree is complete, heap ordered, and holds exactly one node more |
| PointerHeaps.Heap.DetachLast | base/inc/dsa/heap.h:148-180 | the node found along the path bits is the last one, and it is cut off |
| PointerHeaps.Heap.Remove | base/inc/dsa/heap.h:141-213 | removing any member leaves a complete heap-ordered tree of exactly the other nodes |
| PointerHeaps.Heap.Dequeue | base/inc/dsa/heap.h:215-218 | exactly the root is removed |
| PointerHeaps.TopIsLeast | base/inc/dsa/heap.h:215-218 | the root of a heap is least among all its nodes |
| PointerHeaps.Drain | base/inc/dsa/heap.h:141-218 | repeated dequeue yields all nodes, each once, in order |
| BoundedQueues.AppendKeepsInv | base/inc/hpp/ThreadQueue.hpp:356-388 | a push keeps: a sleeping un-notified consumer means no more items than notified consumers, and the mirror for producers |
| BoundedQueues.TakeKeepsInv | base/inc/hpp/ThreadQueue.hpp:240-294 | a pop keeps the same |
| BoundedQueues.NextKeepsInv | base/inc/hpp/ThreadQueue.hpp:240-388 | a step of any operation keeps the invariant exactly when it does not take all with a deque that is not empty, or while two or more producers sleep and the notified ones cannot fill the queue |
| BoundedQueues.RunKeepsInv | base/inc/hpp/ThreadQueue.hpp:240-388 | the invariant holds in every run of such steps by any number of threads, with any choice of the thread that notify_one wakes, spurious wake-ups and timeouts |
| BoundedQueues.RunIsFifo | base/inc/hpp/ThreadQueue.hpp:240-388 | what was popped, followed by what is queued, is what was pushed, in order, and never more than the capacity |
| BoundedQueues.AnsweredExactlyWhen | base/inc/hpp/ThreadQueue.hpp:240-388 | a push answers true exactly when there is room and a pop exactly when there is an item, with the front one or all; otherwise a try answers false, a timed call that has expired answers false, and the others wait |
| BoundedQueues.AnswersAreTrue | base/inc/hpp/ThreadQueue.hpp:240-388 | a push that answers true appends exactly one element, a pop that does takes exactly what it answers, and any other step leaves the queue as it was |
| BoundedQueues.RunAnswers | base/inc/hpp/ThreadQueue.hpp:240-388 | in every run what was accepted are the values of the push calls that answered true, in order, and what was delivered is what the pop calls took |
| BoundedQueues.NoLostItem | base/inc/hpp/ThreadQueue.hpp:240-294 | while an item is queued and a consumer waits, some consumer is on its way to the mutex |
| BoundedQueues.NoLostSlot | base/inc/hpp/ThreadQueue.hpp:356-388 | while a slot is free and a producer waits, some producer is on its way to the mutex |
| BoundedQueues.NoDeadlock | base/inc/hpp/ThreadQueue.hpp:240-388 | producers and consumers are never both asleep with no wake-up pending |
| BoundedQueues.PopAllKeepsInvExactlyWhen | base/inc/hpp/ThreadQueue.hpp:296-347 | taking all, which swaps in the caller's deque and notifies one producer, keeps the invariant exactly when that deque is empty and at most one producer is asleep before the call or the notified producers are enough to fill the queue |
| BoundedQueues.PopAllInjects | base/inc/hpp/ThreadQueue.hpp:335-347 | a run after which tryPopAll with a deque that still holds an element leaves it in the queue, though nobody pushed it |
| BoundedQueues.FullWithSleepersReached | base/inc/hpp/ThreadQueue.hpp:356-371 | a run leads to a full queue with two sleeping producers, where the next row starts |
| BoundedQueues.PopAllLosesWakeUp | base/inc/hpp/ThreadQueue.hpp:335-347 | a run in which after tryPopAll a producer sleeps although there is room and nobody will wake it |
| Brokers.Broker.HandleFrontend | application/czmq_study/czmq_study.c:300-318 | the request goes to the longest waiting worker, which leaves the ready list, behind its identity and a delimiter; the last ready worker ends the reader |
| Brokers.Broker.HandleBackend | application/czmq_study/czmq_study.c:321-347 | the worker is queued, the first one enables the reader, and the message goes on unless it looks like READY |
| Brokers.StepIsSafe | application/czmq_study/czmq_study.c:300-347 | no step that can happen pops an empty ready list or reads a frame that is not there |
| Brokers.NextKeepsInv | application/czmq_study/czmq_study.c:211-347 | every step of client, worker or broker keeps: the reader is registered once exactly when a worker is ready, every client and every worker is at exactly one place, messages have their shapes |
| Brokers.RunKeepsInv | application/czmq_study/czmq_study.c:211-347 | in every run that invariant holds, and a client has sent one request more than it has received replies exactly while it waits |
| Brokers.RunExtends | application/czmq_study/czmq_study.c:300-347 | in every run whatever is enabled can be carried out |
| Brokers.WorkersTakeTurns | application/czmq_study/czmq_study.c:300-347 | in every run the workers that were ready, followed by those heard from, in order, are those sent a request, in order, followed by those ready now |
| Brokers.ReadyWorkerIsServed | application/czmq_study/czmq_study.c:300-347 | a ready worker gets the request that comes after as many as there are workers ahead of it |
| Brokers.StepCosts | application/czmq_study/czmq_study.c:211-347 | every step but a new request brings the system closer to rest |
| Brokers.SilentRunEnds | application/czmq_study/czmq_study.c:211-347 | without new requests at most a known number of steps follows |
| Brokers.QuietMeansServed | application/czmq_study/czmq_study.c:211-347 | when nothing but new requests can happen, every client has its answer, except those whose identity begins with the READY byte |
| Brokers.NeverAnswered | application/czmq_study/czmq_study.c:338-343 | a client whose identity begins with the READY byte is never answered |
| Brokers.AnsweredExactlyWhen | application/czmq_study/czmq_study.c:338-343 | a client can be answered exactly when its identity does not begin with the READY byte |
| TimerClusters.TimerCluster.LowerBound | base/inc/hpp/TimerCluster.hpp:142-150 | the place of a timer under the comparison by expiry and id |
| TimerClusters.TimerCluster.AddTimer | base/inc/hpp/TimerCluster.hpp:68-88 | a timer is added exactly when its id is new, and is due its interval of milliseconds from now; set and map agree and the set is ordered |
| TimerClusters.TimerCluster.DelTimer | base/inc/hpp/TimerCluster.hpp:90-109 | exactly the timer of that id, of whatever kind, goes from both |
| TimerClusters.TimerCluster.Reschedule | base/inc/hpp/TimerCluster.hpp:128-132 | taking a timer out, changing it in place and putting it back keeps the order and the agreement |
| TimerClusters.TimerCluster.ResetTimer | base/inc/hpp/TimerCluster.hpp:111-139 | the timer of that id, and no other, has the new interval and is due that many milliseconds from now |
| TimerClusters.TimerCluster.Process | base/inc/hpp/TimerCluster.hpp:176-195 | the earliest timer by expiry and id fires if it is due, and no other; it is renewed or removed by its kind |
| TimerClusters.TimerCluster.Run | base/inc/hpp/TimerCluster.hpp:68-195 | every run of calls and rounds fires what the specification fires, at the same times |
| TimerClusters.FiredIs | base/inc/hpp/TimerCluster.hpp:176-184 | a timer fires exactly when it is the first by expiry and id and is due |
| TimerClusters.CycleIsSpaced | base/inc/hpp/TimerCluster.hpp:186-190 | the k-th firing of a cyclic timer left alone is not before its expiry plus k intervals |
| TimerClusters.NthFiring | base/inc/hpp/TimerCluster.hpp:68-195 | the n-th firing after an add is at least n intervals after it |
| TimerClusters.CallsKeepTheirWord | base/inc/hpp/TimerCluster.hpp:68-139 | a call that answers true has added, deleted or reset its timer, with the interval in milliseconds; one that answers false has changed nothing |
| TimerClusters.OthersStay | base/inc/hpp/TimerCluster.hpp:68-195 | no event changes a timer that it is not about and does not fire |
| TimerClusters.DeletedIsSilent | base/inc/hpp/TimerCluster.hpp:90-109 | after a deletion the timer does not fire in any run that does not add it again, and all others are as before |
| TimerClusters.LeftAloneIs | base/inc/hpp/TimerCluster.hpp:186-190 | a timer left alone is as it was until it fires, and a cyclic one is due one interval after its last firing |
| TimerClusters.FiresExactlyWhen | base/inc/hpp/TimerCluster.hpp:68-195 | a timer added or reset and left alone since is fired by a round exactly when it is first and its interval has passed since the call or, if cyclic, since it last fired |
| TimerClusters.FiresInTime | base/inc/hpp/TimerCluster.hpp:68-195 | once that is overdue, it fires after at most as many rounds as there are timers ahead of it |
| TimerClusters.SinglesBalance | base/inc/hpp/TimerCluster.hpp:191-195 | every single timer added has fired once, been deleted, or is still there |
| TimerClusters.NoStarvation | base/inc/hpp/TimerCluster.hpp:68-195 | whatever is added, reset or deleted in between, a due timer that is left alone fires after at most as many rounds that do not stall it as there are timers ahead of it, counting those that calls put ahead of it |
| TimerClusters.OverdueFires | base/inc/hpp/TimerCluster.hpp:68-195 | an overdue one fires after at most as many rounds as there were timers ahead of it |
| TimerClusters.TickAdvances | base/inc/hpp/TimerCluster.hpp:176-195 | a round that does not fire a due timer brings it forward exactly unless the clock stands at its expiry and the first timer is cyclic with interval 0 and a smaller id |
| TimerClusters.CallsStayBehind | base/inc/hpp/TimerCluster.hpp:68-139 | a call on another timer puts none ahead of a due one exactly unless the clock stands at its expiry and the call makes a timer of smaller id, not ahead before, due at once |
| TimerClusters.StarvesExactlyWhen | base/inc/hpp/TimerCluster.hpp:176-195 | while the clock stands still at its expiry, a timer is not fired by any number of rounds exactly when a cyclic timer of interval 0 and smaller id is due as well |
| TimerClusters.StuckClockStarves | base/inc/hpp/TimerCluster.hpp:176-195 | two timers of which one starves so |
| Numerals.DecimalIsCanonical | base/inc/stb/stb_sprintf.h:1056-1144 | the decimal numeral has no leading zeros and reads back as its number |
| Numerals.CanonicalIsDecimal | base/inc/stb/stb_sprintf.h:1056-1144 | it is the only digit string without leading zeros that reads as this number |
| Numerals.ChunkContinues | base/inc/stb/stb_sprintf.h:1094-1100 | the eight digits cut off by a division by 10^8 are the next eight digits of the value |
| Numerals.PutPairs | base/inc/stb/stb_sprintf.h:1101-1107 | the pair loop writes the digits of the chunk, with at most one zero too many in front |
| Numerals.PutDigits | base/inc/stb/stb_sprintf.h:1108-1117 | the digit loop writes the digits of the chunk with a comma before every third that is followed by another |
| Numerals.PadZeros | base/inc/stb/stb_sprintf.h:1123-1131 | an inner chunk is filled to eight digits, commas continued |
| Numerals.Finish | base/inc/stb/stb_sprintf.h:1118-1141 | the surplus zero goes and zero prints as one digit, whatever the byte behind the buffer is; that byte is read exactly for a grouped zero |
| Numerals.EmptyExactlyWhen | base/inc/stb/stb_sprintf.h:1118-1119 | after the last chunk nothing has been written exactly when the value is 0 and commas are asked for |
| Numerals.GroupedZero | base/inc/stb/stb_sprintf.h:1108-1119 | %'d of 0 is such a case |
| Numerals.Convert | base/inc/stb/stb_sprintf.h:1088-1141 | the conversion of every 64-bit value is its numeral, plain or grouped, written inside the 512-byte buffer; the byte behind the buffer is read exactly for a grouped zero, and does not matter |
| Numerals.PlainNumeral | base/inc/stb/stb_sprintf.h:1056-1144 | without the comma flag the numeral is the canonical one |
| Numerals.CommaPlaces | base/inc/stb/stb_sprintf.h:1108-1131 | with it, a character is a comma exactly at every fourth place from the right |
| Numerals.NumeralReadsBack | base/inc/stb/stb_sprintf.h:1056-1144 | removing the commas and reading gives the value; no leading comma, no leading zero |
| Numerals.SignedReadsBack | base/inc/stb/stb_sprintf.h:1059-1077 | sign and digits read back as the value for every 32- and 64-bit argument, the least one too |
| SprintfOutput.Output.Write | base/inc/stb/stb_sprintf.h:398-400 | a byte goes behind the pending ones, in the caller's buffer or the scratch buffer |
| SprintfOutput.Output.Flush | base/inc/stb/stb_sprintf.h:1393-1419 | what fits of the pending bytes becomes final in the caller's buffer; the rest is only counted; bytes beyond stay as they were |
| SprintfOutput.Output.Check | base/inc/stb/stb_sprintf.h:364-378 | the working buffer is flushed before it would reach 512 bytes |
| SprintfOutput.Output.PutRun | base/inc/stb/stb_sprintf.h:1252-1269 | the chunked loops write every byte once, in order, with at most 512 pending |
| SprintfOutput.StopsAreSeen | base/inc/stb/stb_sprintf.h:404-413 | the four-byte test never overlooks a percent sign or the end |
| SprintfOutput.Output.CopyLiteral | base/inc/stb/stb_sprintf.h:391-432 | exactly the bytes up to the next percent sign or the end are written, whatever the alignment and the fill |
| SprintfOutput.Output.PutZeros | base/inc/stb/stb_sprintf.h:1207-1237 | the leading zeros, with a comma exactly where the digits' commas continue |
| SprintfOutput.Output.Measure | base/inc/stb/stb_sprintf.h:1146-1167 | how many spaces and leading zeros a field gets |
| SprintfOutput.Output.PutField | base/inc/stb/stb_sprintf.h:1146-1330 | the text of the field, whose places the next rows give, is appended to the output |
| SprintfOutput.FieldPlaces | base/inc/stb/stb_sprintf.h:1146-1330 | padding is on the left, or on the right of a left-justified field; between stand sign or prefix, zeros up to the precision, digits, trailing zeros and tail, in this order; only right-justified with the 0 flag there may be more zeros, and then no spaces |
| SprintfOutput.FieldReadsBack | base/inc/stb/stb_sprintf.h:1056-1330 | the field of any number with any sign, flags, width and precision, spaces and commas apart, reads back |
| SprintfOutput.IntegerReadsBack | base/inc/stb/stb_sprintf.h:1056-1330 | so does every 32- and 64-bit value printed with %d |
| SprintfOutput.Output.Finish | base/inc/stb/stb_sprintf.h:1346-1354 | the final flush and the terminator |
| SprintfOutput.Vsnprintf | base/inc/stb/stb_sprintf.h:1430-1458 | the buffer holds the first min(count - 1, n) characters of the output and a terminator, nothing beyond is touched, and the result is n |
| SprintfOutput.RenderedConcat | base/inc/stb/stb_sprintf.h:380-1330 | the output of two stretches of a format is that of the first followed by that of the second |
| SprintfOutput.CountOnly | base/inc/stb/stb_sprintf.h:1421-1439 | without a buffer the result is the length of the output |
| SprintfOutput.TerminatorFits | base/inc/stb/stb_sprintf.h:1450-1454 | the terminator is inside the buffer exactly when the count is not zero |
| SprintfOutput.WidthExactlyWhen | base/inc/stb/stb_sprintf.h:1147-1167 | a field has the width it asks for exactly when zeros do not fill both the width and the precision |
| SprintfOutput.NarrowField | base/inc/stb/stb_sprintf.h:1155-1161 | %08.5d of 12 is five characters wide |
| SprintfOutput.CommasContinue | base/inc/stb/stb_sprintf.h:1155-1237 | zeros and digits together have commas at every group exactly when the field is left-justified or has the 0 flag, or its zeros do not complete a group and its comma |
| SprintfOutput.LeadingComma | base/inc/stb/stb_sprintf.h:1207-1237 | a field whose commas continue begins with a comma exactly when its length is a multiple of a group and its comma |
| SprintfOutput.IntegerCommas | base/inc/stb/stb_sprintf.h:1142-1237 | for every integer field with the comma flag these are every fourth place from the right, under exactly that condition |
| SprintfOutput.IntegerBody | base/inc/stb/stb_sprintf.h:1108-1144 | the digits alone have them under no condition |
| SprintfOutput.BareZeros | base/inc/stb/stb_sprintf.h:1162-1164 | %'.12d of 1234567 has three zeros without the comma that is due |
| Deques.FitsExactlyWhen | base/inc/dsa/deque.h:90-183 | for all 32-bit fields and every element size: no assertion fails, the array has room for its capacity, which is the minimum doubled some times, and head and tail stay in range and in step, exactly when doubling does not wrap, the shrink test does not wrap for a deque more than half full, the size passed to malloc does not wrap, and no shift shrinks to a full array |
| Deques.AnsweredExactlyWhen | base/inc/dsa/deque.h:129-183 | an operation that works fails exactly when it needs memory and gets none, and then changes nothing; otherwise an add stores, and a take takes exactly when there is something |
| Deques.StrandedPushEscapes | base/inc/dsa/deque.h:112-160 | a new deque with a minimum of one gets there by push, push and pop; after the shift a push is handed an index outside the array |
| Deques.WrappedTestAborts | base/inc/dsa/deque.h:94-146 | pushes alone lead to 858993461 of 2^30 places in use, where a pop fails the assertion of the resize |
| Deques.WrappedDoublingAborts | base/inc/dsa/deque.h:94-137 | pushes alone fill 2^31 places, where the next push or unshift fails it |
| Deques.WrappedProductOverruns | base/inc/dsa/deque.h:96-137 | the first push on a deque of 2^28 elements of 16 bytes asks for 0 bytes |
| Deques.FirstPartExactlyWhen | base/inc/dsa/deque.h:101-102 | the first copy ends at the end of the elements or of the array exactly when head plus length does not wrap |
| Deques.WrappedSumMisreads | base/inc/dsa/deque.h:101-103 | a run from DEQ_INIT leads to a state in which it does wrap when a pop resizes |
| Deques.CopyParts | base/inc/dsa/deque.h:99-106 | the two copies bring the elements into order at the start of the new array |
| Deques.Deque.Resize | base/inc/dsa/deque.h:90-116 | the new array holds the same sequence from its start; as many elements are copied as there are |
| Deques.Deque.Push | base/inc/dsa/deque.h:231-238 | the sequence is extended at its end, or unchanged when memory is refused |
| Deques.Deque.Unshift | base/inc/dsa/deque.h:246-253 | the sequence is extended at its front, or unchanged |
| Deques.Deque.Pop | base/inc/dsa/deque.h:270-277 | the last element is taken; the answer tells an empty deque from refused memory |
| Deques.Deque.Shift | base/inc/dsa/deque.h:285-292 | the first element is taken |
| Deques.Deque.First | base/inc/dsa/deque.h:300-310 | the first element, or none |
| Deques.Deque.Last | base/inc/dsa/deque.h:319-330 | the last element, or none |
| Deques.Amortised | base/inc/dsa/deque.h:136-151 | with shrinking at a fifth and a minimum of at least two, an operation costs at most two copies after savings exactly when the wrapped test does not shrink a deque above a fifth |
| Deques.WrappedTestShrinksEarly | base/inc/dsa/deque.h:146-146 | a run from DEQ_INIT leads to a state in which it does |
| Deques.RunIsCheap | base/inc/dsa/deque.h:90-183 | all resizes of a run in which no call shrinks early together copy at most two elements an operation and what had been saved |
| Deques.LowRunIsThrifty | base/inc/dsa/deque.h:136-151 | no call does, however many there are, when they never bring the length above 858993460 |
| Deques.NewRunIsCheap | base/inc/dsa/deque.h:79-183 | from DEQ_INIT such a run of any length copies at most two elements an operation |
| Deques.LowRunsWork | base/inc/dsa/deque.h:90-183 | on a deque with a minimum of at least two, or one that never shrinks, a run of any number of calls that keeps the length below the points where products wrap meets no failing case, whatever memory there is |
| Deques.Deque.Run | base/inc/dsa/deque.h:90-183 | any run that meets no failing case gives the answers of a plain sequence across growing and shrinking, and copies exactly as many elements as the specification says |
| LruCaches.LruCache.Get | base/inc/hpp/LRUCache.hpp:94-124 | the value of the key, which becomes the most recent; list and hash map name the same nodes |
| LruCaches.LruCache.Put | base/inc/hpp/LRUCache.hpp:134-156 | the key is bound and most recent; a full cache loses exactly its last entry, which is reported, and any other loses none |
| LruCaches.LruCache.Remove | base/inc/hpp/LRUCache.hpp:163-181 | exactly the entry of the key goes, and it is reported to the eviction callback |
| LruCaches.LruCache.SetCapacity | base/inc/hpp/LRUCache.hpp:244-259 | the most recent entries up to the new capacity stay; the others are reported, least recent first |
| LruCaches.LruCache.MoveToFront | base/inc/hpp/LRUCache.hpp:317-323 | the node is first, the others keep their order |
| LruCaches.LruCache.EvictLru | base/inc/hpp/LRUCache.hpp:328-345 | the last node goes from list and map |
| LruCaches.Run | base/inc/hpp/LRUCache.hpp:94-181 | every run of operations gets the answers of the specification, evicted entries included, and leaves its entries |
| LruCaches.ApplyIncluded | base/inc/hpp/LRUCache.hpp:94-181 | one operation on both keeps the smaller cache's list a subsequence of the larger one's, and the larger one at least as roomy |
| LruCaches.RunIncluded | base/inc/hpp/LRUCache.hpp:94-181 | so does every run |
| LruCaches.HitsAreShared | base/inc/hpp/LRUCache.hpp:94-124 | what the smaller cache answers, the larger answers with the same value |
| LruCaches.RunByRecency | base/inc/hpp/LRUCache.hpp:94-181 | after every run the list is ordered by last use and every value is the last one put |
| LruCaches.CachedWhileAlive | base/inc/hpp/LRUCache.hpp:94-181 | a key is cached exactly when it was put, not removed since, and at every moment since its last use fewer than capacity other keys had been put or hit after it and not removed; these are the keys in front of it |
| LruCaches.RetainedExactlyWhen | base/inc/hpp/LRUCache.hpp:94-181 | asking for a key finds the value last put under it exactly then, and otherwise nothing |
| LruCaches.AliveWithoutRemovals | base/inc/hpp/LRUCache.hpp:94-156 | without removals that is: it was put, and fewer than capacity other keys have been put or hit since its last use |
| LruCaches.RemovalMakesRoom | base/inc/hpp/LRUCache.hpp:134-181 | with removals a key may stay although as many other keys as the capacity have been put since |
| Arenas.Arena.Alloc | base/inc/stb/arena.h:306-338 | the block is cut off the first region from the end on with room for it, or off a new one |
| Arenas.PlacedExactlyWhen | base/inc/stb/arena.h:306-338 | a region is added exactly when none from the end on has room, of the default capacity or just large enough; otherwise the block goes to the first that has, behind what is used there |
| Arenas.BlockHoldsExactlyWhen | base/inc/stb/arena.h:308-308 | a block has room for the bytes asked for exactly when adding seven to their number does not wrap |
| Arenas.RegionHoldsExactlyWhen | base/inc/stb/arena.h:163-173 | a new region has room for its capacity exactly when the size is not between 31 and 8 below 2^64 |
| Arenas.WrappedSizes | base/inc/stb/arena.h:163-308 | a size of either kind |
| Arenas.Arena.Realloc | base/inc/stb/arena.h:340-352 | a larger block has the old bytes, and no byte outside the copy changes; a smaller one stays in place |
| Arenas.Arena.Snapshot | base/inc/stb/arena.h:413-429 | the mark is the end region and its count |
| Arenas.Arena.Reset | base/inc/stb/arena.h:431-439 | all regions are empty and kept |
| Arenas.Arena.Rewind | base/inc/stb/arena.h:441-456 | the marked region has its old count, later ones are empty, earlier ones as they were |
| Arenas.Arena.Trim | base/inc/stb/arena.h:471-481 | exactly the regions after the end go |
| Arenas.NewBlockIsApart | base/inc/stb/arena.h:306-338 | a new block is inside its region and apart from every block in a used part |
| Arenas.RewindKeepsInv | base/inc/stb/arena.h:441-456 | rewinding to the latest mark uses exactly what was used when it was taken; only empty regions after the end may differ |
| Arenas.TrimKeepsInv | base/inc/stb/arena.h:471-481 | a trim keeps every mark and every live block good |
| Arenas.RunIsSafe | base/inc/stb/arena.h:306-481 | in every run of allocations, nested marks, trims, and resets outside the marks, live blocks are in used ranges and disjoint, used ranges are within the capacities, and regions after the end are empty |
| Arenas.Run | base/inc/stb/arena.h:306-481 | every such run on an arena leaves its regions, the marks and the blocks of its user as the specification says |
| Arenas.RunNew | base/inc/stb/arena.h:306-481 | and so does every run on a new one |
| Arenas.ScopeRestores | base/inc/stb/arena.h:413-456 | snapshot, any balanced commands and the rewind leave the same used ranges, live blocks and marks |
| RingBuffers.RoundDown | base/src/dsa/ringbuffer.c:7-15 | the largest power of two not above n exactly when n is neither 0 nor at least 2^31; otherwise 0 |
| RingBuffers.SmearCovers | base/src/dsa/ringbuffer.c:9-13 | each shift doubles the distance over which a set bit reaches down |
| RingBuffers.RingBuffer.constructor | base/src/dsa/ringbuffer.c:17-23 | an empty buffer whose size is the largest power of two that fits |
| RingBuffers.RingBuffer.LenIs | base/src/dsa/ringbuffer.c:26-29 | the difference of the wrapped counters is the number of items |
| RingBuffers.RingBuffer.CopyIn | base/src/dsa/ringbuffer.c:55-72 | the two-part copy stores the items behind those there and overwrites none |
| RingBuffers.RingBuffer.In | base/src/dsa/ringbuffer.c:74-84 | as many items as there is room for are appended |
| RingBuffers.RingBuffer.Peek | base/src/dsa/ringbuffer.c:86-113 | the first items, in order, and nothing changes |
| RingBuffers.RingBuffer.Out | base/src/dsa/ringbuffer.c:115-120 | the first items are taken |
| RingBuffers.RunIsFifo | base/src/dsa/ringbuffer.c:74-120 | what was taken, followed by what is left, is what was accepted, in order |
| RingBuffers.Run | base/src/dsa/ringbuffer.c:55-120 | any run, however often the counters wrap, hands out what the specification does |
| MemPools.BytesRoundTrip | base/inc/hpp/ObjectPool.hpp:156-166 | an index stored in four bytes is read back |
| MemPools.FixedMemPool.constructor | base/inc/hpp/ObjectPool.hpp:36-45 | every block is in the free list |
| MemPools.FixedMemPool.Allocate | base/inc/hpp/ObjectPool.hpp:56-67 | a block that is not live, or none exactly when all are |
| MemPools.FixedMemPool.Free | base/inc/hpp/ObjectPool.hpp:71-78 | the block is free again and no other changes |
| MemPools.FixedMemPool.Write | base/inc/hpp/ObjectPool.hpp:56-78 | whatever its owner writes into a block leaves the free list intact |
| MemPools.FixedMemPool.ListEnds | base/inc/hpp/ObjectPool.hpp:36-98 | following the links visits each block that is not handed out once, and ends after MaxBlocks - used of them |

## Left out

- HashMaps.Run: the hash is any function of the key; the concrete hash functions, string keys, string arenas and statistics are not modelled.
- HashMaps.FindSlot: buckets are one flat slot array and masking with slot_count - 1 is a remainder; the scan loop of get and put is one method.
- SafeListWalks.ForEach: callbacks name what they delete by its position, and what they add again by its place among the deleted nodes; a node has one list.
- BoundedQueues.RunKeepsInv: Quit, which stores its flag without the mutex, and Clear are not steps.
- Brokers.RunKeepsInv: interrupted waits, shutdown and lost connections are not steps; a message sent stays at its socket until it is received.
- TimerClusters.TimerCluster.Process: callbacks, the thread pool and the waiting between rounds are not modelled; a round is the code under the lock.
- SprintfOutput.Vsnprintf: parsing of flags, width and precision, the other conversions, the metric suffixes and the 32-bit overflow of the length are not modelled; a call is a sequence of literals and laid-out fields.
- Numerals.Convert: floating point, hexadecimal, octal and binary conversions are not modelled.
- Deques.Deque.Push: the methods on the array are for operations that meet none of the failing cases; what the code does in such a case is modelled on the fields alone. deq_reset_ is not modelled.
- RingBuffers.RingBuffer.In: items are elements of an array; the scaling of offsets by the item size is not modelled, and masking is a remainder by the size.
- Arenas.Arena.Trim: freeing memory is only the end of the chain; arena_free, string and formatting helpers are not modelled.
- Arenas.RunIsSafe: a reset is a step only when no mark is outstanding, since it makes marks meaningless, and an allocation only when the request for a region would not wrap; a realloc is not a step.
- Arenas.Arena.Realloc: for sizes whose block would be too small for the bytes to copy the code writes behind the block; this is not modelled.
- The statistics, clear, remove_if, contains and for_each of the LRU cache: they only read, or repeat what remove does.
- MemPools.FixedMemPool.Allocate: storage has one row per block, so address arithmetic is not modelled.
- PointerHeaps.Heap.Insert: the comparison is any weak order on the nodes' data; comparisons that are none are not covered.
- ThreadPool.hpp, SyncContextPool.hpp and the typed object pools: counters are read outside locks or only wrap the pool modelled here.
- The network, database and TLS studies: input and output around foreign libraries.
- avl, vlist, rbtree, base64, crc, md5 and sha1: only headers are present.
