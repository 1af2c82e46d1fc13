# Verified models of the p2p node

This project models the concurrent data structures, the mempool, the gossip protocol and the wire
format of the Go node, and proves their main properties with Dafny 4.11.  `dafny verify
dfyconfig.toml` checks everything.

How the parts are modelled:

* **Concurrent code** is a step system.  Every atomic load, store, compare-and-swap and every
  `sync.Map` call is one step of one thread, a program counter with the thread's locals says where it
  is in the Go code, and a run is any sequence of turns.  This covers the lock-free queue
  (`LockFreeQueue`, `QueueLinearizability`, `QueueProgress`), the peer manager (`PeerManagerSteps`,
  `PeerManagerOvershoot`), the lock-free hash map (`HashMapSteps`, `HashMapRuns`, `HashMapLinearizability`,
  `HashMapReaders`, `HashMapValues`, `HashMapProgress`), the seen cache with its sweep (`SeenCache`)
  and the writers of a connection (`WriterSteps`).
* **Code run by one caller at a time**, by itself or under a lock, is a class with the fields of the
  Go struct: `PeerManager`, `HashMap` and `SkipQueue` with real linked nodes, `HeapQueue`, `Mempool`,
  `BroadcastManager`, `Connection`.  Ghost fields hold what the linked nodes stand for.
* **The wire format**: an encoder is a method that fills a buffer at a moving offset and is proved to
  write the bytes a layout function describes; a decoder is a method proved to agree with a parse
  function.  Lemmas then say that parsing is exactly the inverse of the layout, in both directions and
  whatever bytes follow, and `WireFormat` says byte by byte, without the encoders' own functions, where
  each field stands.
* CRC-32, SHA-256, FNV-1a, random levels, shuffles, chunk sizes and clocks are parameters or
  nondeterministic choices.

Results that a reader of the Go code might not expect:

* `Peek`, `IsEmpty` and the empty `Dequeue` of the queue answer from loads they never re-check, and
  still every run linearizes, for any number of producers and consumers.
* T concurrent `AddPeer` calls can exceed a positive limit by T - 1 and by no more, for every T.  The
  total limit is kept in every run exactly when it is zero, or T = 1, or both direction limits, each
  with its own excess, stay within it; with the node's defaults (50, 25 and 25) only T = 1 will do.
* `Put` and `Delete` of the hash map linearize as operations on a set of keys, for any number of
  threads, although deletion is only a flag and a search may run over nodes that change under it.
* `HashMap.Get` can miss a stored key, because the first node inserted into a bucket stays its entry.
  Beside concurrent writers that is also the only reason for missing a key that was live throughout.
* A full mempool compares with the last heap slot, and so turns away a transaction that outranks one
  it keeps; the rule is right exactly when the last slot is of least priority.
* A transaction removed and added again is handed out twice by `GetPending`, in the place of another.
  The highest live priorities are handed out exactly when against every surplus heap entry as many
  live transactions as asked for rank at least as high.
* N removals without a rebuild let the mempool grow N beyond its capacity, and no further.
* While priorities fit 64 bits, the lead of one transaction over another is constant exactly when both
  were received at the same phase of a second; otherwise it moves by one, back and forth.
* `DecodeString` panics on any bytes with the length field 65534 or 65535, `DecodeDisconnectPayload`
  already with 65533 if that many bytes follow, `DecodeBytes` on the last four 32-bit lengths.
* A message with a payload of more than 10 * 2^20 - 13 bytes is valid for the codec but refused by
  `ReadMessage`.
* Every own step of a queue operation is paid for by operations that took effect: at most 13 plus 12
  for each of them.

Where the code and its comments differ the models follow the code: the queue is safe for any number
of consumers, although its comment speaks of one; the hash map never unlinks a node, although the
comment on `Delete` says that a later traversal will; the mempool compares a new transaction with the
last heap slot, which its comment takes for the lowest.

## Model

| member | source | states |
|---|---|---|
| LockFreeQueue.InitInv | pkg/ds/lockfree/queue.go:101-113 | a new queue is one dummy node that both pointers share, and satisfies the invariant |
| LockFreeQueue.StepKeepsInv | pkg/ds/lockfree/queue.go:141-340 | every atomic step of every operation keeps: one acyclic chain, head not past tail, tail last or next to last, what each thread has loaded is on the chain, an unlinked node is private; head and tail only move forward and the chain is only extended |
| LockFreeQueue.StepRefinesFifo | pkg/ds/lockfree/queue.go:156-312 | the link appends its value to the queue, the head swing removes and hands out the front, every other step changes nothing abstractly |
| LockFreeQueue.ContentsMove | pkg/ds/lockfree/queue.go:40-90 | what the pointer walk from head finds changes only with the chain or with head |
| LockFreeQueue.LastIffNilNext | pkg/ds/lockfree/queue.go:164-190 | a nil next pointer marks exactly the last node of the chain |
| QueueLinearizability.ReachableInv | pkg/ds/lockfree/queue.go:141-340 | the invariant holds in every reachable state of any number of threads |
| QueueLinearizability.NeverCrashes | pkg/ds/lockfree/queue.go:262-299 | next is never nil when its value is read |
| QueueLinearizability.Linearizable | pkg/ds/lockfree/queue.go:141-340 | every run has one history of its operations that a plain FIFO sequence replays with the same answers and the same final contents, that lists no call twice, lists every returned call, and puts a call that returned before another began in front of it; told by counting: the k-th value taken out is the k-th put in, a look gives the next one, IsEmpty says whether as many were taken out as put in, and what was put in is what was taken out followed by the final contents |
| QueueLinearizability.Linearize | pkg/ds/lockfree/queue.go:141-340 | the history can be built moment by moment, each operation placed inside its call |
| QueueLinearizability.LookWasExactInside | pkg/ds/lockfree/queue.go:320-340 | the answers of Peek and IsEmpty and an empty Dequeue were exact at a moment after the call and no later than the return, without a re-check |
| QueueLinearizability.LookWasExact | pkg/ds/lockfree/queue.go:262-340 | the same at the step that returns, from what the thread observed |
| QueueLinearizability.FifoAnswers | pkg/ds/lockfree/queue.go:141-340 | in a history that replays, every answer is what counting the values put in and taken out before it says |
| QueueLinearizability.NothingLostOrReordered | pkg/ds/lockfree/queue.go:141-312 | the values put in are the values taken out, in order, followed by what is left |
| QueueLinearizability.IsEmptyWasRight | pkg/ds/lockfree/queue.go:334-340 | a returned IsEmpty said whether the queue was empty at a moment inside its call |
| QueueLinearizability.PeekWasRight | pkg/ds/lockfree/queue.go:320-332 | a returned Peek gave the front, or nothing of an empty queue, of a moment inside its call |
| QueueLinearizability.NothingWasThere | pkg/ds/lockfree/queue.go:262-312 | a Dequeue that got nothing had an empty queue at a moment inside its call |
| QueueLinearizability.OnlyForward | pkg/ds/lockfree/queue.go:164-299 | between any two moments the chain is only extended and head and tail move only forward along it |
| QueueProgress.FailureIsPaidFor | pkg/ds/lockfree/queue.go:156-311 | a loop round fails only if its loads have gone stale or if the thread itself helped the tail |
| QueueProgress.FailuresBounded | pkg/ds/lockfree/queue.go:156-311 | the failed rounds of one operation never exceed the links, tail swings and head moves of all threads meanwhile |
| QueueProgress.OwnStepsBounded | pkg/ds/lockfree/queue.go:156-340 | lock-freedom as a number: at most 7 own steps plus 6 for every pointer change made by anyone, and at most 13 plus 12 for every value linked or taken out meanwhile |
| QueueProgress.MovesArePaidFor | pkg/ds/lockfree/queue.go:164-299 | pointer changes, tail swings included, are at most one more than twice the operations that took effect |
| PeerManagerSequential.PeerManager.constructor | pkg/peer/manager.go:109-113 | a new manager is empty and consistent |
| PeerManagerSequential.PeerManager.AddPeer | pkg/peer/manager.go:134-194 | accepts exactly when there is room in total and in the direction and neither identity nor address is taken; says which check failed; a refused peer leaves both maps as they were |
| PeerManagerSequential.PeerManager.Store | pkg/peer/manager.go:162-174 | claims the identity and then the address, and gives the identity back when the address is taken |
| PeerManagerSequential.PeerManager.RemovePeer | pkg/peer/manager.go:202-232 | removes the peer from both maps and nothing else |
| PeerManagerSequential.RemovalIsExact | pkg/peer/manager.go:202-232 | the address entries dropped are exactly those of the removed identity |
| PeerManagerSequential.AddThenRemove | pkg/peer/manager.go:134-232 | a removal undoes a successful addition: same maps, same counters |
| PeerManagerSteps.StepKeepsInv | pkg/peer/manager.go:134-232 | every atomic step keeps the ownership of map entries and the counters exact up to the updates in flight |
| PeerManagerSteps.DeletionsHitOwnEntry | pkg/peer/manager.go:172-213 | in any interleaving under the node's calling discipline every deletion, rollback included, hits the caller's own entry |
| PeerManagerSteps.QuiescentAgreement | pkg/node/node.go:534-609 | with no call in flight both maps describe exactly the live peers and total = inbound + outbound = map size |
| PeerManagerSteps.RefusalHadReason | pkg/peer/manager.go:134-175 | a peer is refused only because, at a step of its own call, a limit was reached or its identity or its address was somebody else's |
| PeerManagerSteps.CallsFinish | pkg/peer/manager.go:134-232 | an addition returns after at most six steps of its own, its removal after at most four more |
| PeerManagerSteps.OvershootBounded | pkg/peer/manager.go:139-158 | with at most T additions at a time no counter exceeds a positive limit by T or more, and no other limit at all |
| PeerManagerSteps.TotalBoundedBySides | pkg/peer/manager.go:139-187 | nor does the total exceed what both directions can hold, each with its own excess |
| PeerManagerOvershoot.GroupsGetIn | pkg/peer/manager.go:134-232 | peers that collide in nothing, in any directions, that come in groups of at most T which each find room for one, all get in, the whole of each group |
| PeerManagerOvershoot.LargestTotal | pkg/peer/manager.go:134-232 | for any limits and any T: a total that no run passes and that some run reaches |
| PeerManagerOvershoot.TotalKeptIff | pkg/peer/manager.go:139-158 | for any limits and any T: the total limit holds in every run if and only if it is zero, or T = 1, or what both directions can hold is within it |
| PeerManagerOvershoot.LargestFacing | pkg/peer/manager.go:145-226 | the same for the counter of a direction, where removals that are out of the total but not yet out of the direction make room |
| PeerManagerOvershoot.DirectionKeptIff | pkg/peer/manager.go:145-226 | for any limits and any T: a direction's limit holds in every run if and only if nobody can get in at all or T = 1 |
| HashMapSteps.StepKeepsStructure | pkg/ds/lockfree/hashmap.go:201-356 | every step of any Put and Delete keeps the list sorted by hash with distinct keys, bucket entries listed in their bucket, unlinked nodes private |
| HashMapSteps.LinkKeepsStructure | pkg/ds/lockfree/hashmap.go:236-251 | the insertion compare-and-swap keeps all of this although the search before it raced with others |
| HashMapRuns.Reachable | pkg/ds/lockfree/hashmap.go:201-288 | in every reachable state: that structure, and count plus links and revivals not yet counted minus deletions not yet subtracted is the number of undeleted nodes |
| HashMapRuns.QuiescentCount | pkg/ds/lockfree/hashmap.go:297-299 | with no call in flight Len is the number of undeleted nodes |
| HashMapRuns.NeverUnlinked | pkg/ds/lockfree/hashmap.go:201-348 | a linked node stays linked, and the order of two linked nodes never changes |
| HashMapRuns.AnswersWereExact | pkg/ds/lockfree/hashmap.go:201-288 | a finished Put found or made its key live inside its call; a successful Delete took a live key away itself; an unsuccessful one found it absent at some moment of its call |
| HashMapLinearizability.Linearizable | pkg/ds/lockfree/hashmap.go:201-288 | every run of Put and Delete has one history that a plain set of keys replays with the same answers and the same final keys, that lists only calls really made and none twice, lists every returned call, and puts a call that returned before another began in front of it |
| HashMapLinearizability.HistoryIsRight | pkg/ds/lockfree/hashmap.go:201-288 | listing operations at the step that settles them, a link, revival, mark, flag load or the load that proves a miss, gives that history |
| HashMapLinearizability.EffectIsRight | pkg/ds/lockfree/hashmap.go:201-288 | such a step does to the live keys what the operation should, with its answer, and no other step changes them |
| HashMapReaders.HitWasRight | pkg/ds/lockfree/hashmap.go:145-288 | beside any run of Put and Delete: a key that Get finds was live at one of the moments at which it looked, and the value was brought by a Put of that key called before |
| HashMapReaders.MissHadReason | pkg/ds/lockfree/hashmap.go:145-288 | a key that Get misses was not live at one of the moments at which it looked, or the bucket's entry it began with stands behind the key's node |
| HashMapReaders.BehindIsMissed | pkg/ds/lockfree/hashmap.go:145-288 | begun behind the key's node, no Get finds the key |
| HashMapReaders.ValuesWritten | pkg/ds/lockfree/hashmap.go:201-260 | in every reachable state every node's value was brought by a Put of its key |
| HashMapValues.ReturnedPutHolds | pkg/ds/lockfree/hashmap.go:201-260 | once a Put has returned, and as long as no other Put of its key was called or under way since its call, the key's node holds its value |
| HashMapValues.HitAfterPut | pkg/ds/lockfree/hashmap.go:145-260 | a Get that looks only then, and hits, yields that value |
| HashMapValues.HitIsCurrent | pkg/ds/lockfree/hashmap.go:145-260 | the value of any Get comes from a store, by a Put of the key, made after the call of every Put of the key that had returned when the Get began, so never from one that had been overwritten by then |
| HashMapValues.ValueIsLastStored | pkg/ds/lockfree/hashmap.go:201-260 | a node's value is that of the last store to it |
| HashMapProgress.FinishesAlone | pkg/ds/lockfree/hashmap.go:201-348 | whatever the others have done before, a Put or Delete left alone returns within as many steps as the list is long and nine more |
| HashMapProgress.ReaderFinishes | pkg/ds/lockfree/hashmap.go:145-188 | beside any writers a Get has its answer after as many looks as there are linked nodes and four more |
| HashMapProgress.QuiescentBuckets | pkg/ds/lockfree/hashmap.go:248-356 | with no call in flight the bucket of every linked node has an entry |
| BitOps.NextPowerOf2IsLeast | pkg/ds/lockfree/hashmap.go:382-393 | for 1 <= n <= 2^31 the result of the shift-and-or steps is the least power of two not below n |
| BitOps.NextPowerOf2Wraps | pkg/ds/lockfree/hashmap.go:382-393 | above 2^31 the 32-bit result wraps to zero |
| BitOps.MaskIsRemainder | pkg/ds/lockfree/hashmap.go:130-132 | masking with a power of two minus one is the remainder |
| HashCells.LiveIsContents | pkg/ds/lockfree/hashmap.go:306-321 | the undeleted nodes of a sorted list are exactly the entries of the map, each once |
| HashCells.InsertSorted | pkg/ds/lockfree/hashmap.go:328-348 | a new key linked where its search stopped keeps the list sorted with distinct keys |
| HashMaps.HashMap.constructor | pkg/ds/lockfree/hashmap.go:98-116 | an empty map whose buckets, all nil, are at least as many as asked for (64 for zero) and less than twice that; above 2^31 there are none |
| HashMaps.HashMap.BucketIsRemainder | pkg/ds/lockfree/hashmap.go:130-132 | the bucket index is the low half of the hash modulo the bucket count, so it is in range |
| HashMaps.HashMap.FindPosition | pkg/ds/lockfree/hashmap.go:328-348 | the search stops at the key's node or in front of the first larger hash, with the node before it |
| HashMaps.HashMap.Put | pkg/ds/lockfree/hashmap.go:201-260 | the map becomes the old map with the key set; bucket entries already there stay; a new key fills its empty bucket |
| HashMaps.HashMap.MaybeUpdateBucket | pkg/ds/lockfree/hashmap.go:351-356 | only a nil entry is replaced |
| HashMaps.HashMap.Delete | pkg/ds/lockfree/hashmap.go:267-288 | the map loses the key, the answer is whether it was there, and no node is unlinked |
| HashMaps.HashMap.Len | pkg/ds/lockfree/hashmap.go:297-299 | the size of the map |
| HashMaps.HashMap.Get | pkg/ds/lockfree/hashmap.go:145-188 | never a wrong value; a stored key is found exactly when its bucket's entry is nil or not positioned behind the key's node |
| HashMaps.SecondSmallerKeyIsMissed | pkg/ds/lockfree/hashmap.go:145-260 | in any map, of two new keys in one bucket that is still empty, the one with the smaller hash put second is missed by Get |
| HashMaps.HashMap.Range | pkg/ds/lockfree/hashmap.go:306-321 | the callback sees the undeleted entries in list order up to and including the first it refuses |
| HashMaps.HashMap.Clear | pkg/ds/lockfree/hashmap.go:359-375 | the map is empty, every bucket nil, and the nodes stay linked |
| SkipLevels.SuccInserted | pkg/ds/lockfree/priority_queue.go:142-188 | a node linked only in lower levels is invisible to a higher one |
| SkipLevels.SuccRaised | pkg/ds/lockfree/priority_queue.go:170-188 | linking a node one level higher changes only its predecessor's successor there |
| Priorities.InsertAt | pkg/ds/lockfree/priority_queue.go:325-349 | inserting before the first item that is not larger is inserting at that position |
| Priorities.InsertKeeps | pkg/ds/lockfree/priority_queue.go:142-205 | the specified insertion keeps descending order and adds exactly the item |
| SkipLists.SkipQueue.constructor | pkg/ds/lockfree/priority_queue.go:87-100 | an empty, well-formed skip list |
| SkipLists.SkipQueue.LevelsNest | pkg/ds/lockfree/priority_queue.go:61-78 | following the next pointers from the head: the bottom level meets every node, each level a sublist of the one below, each in descending priority |
| SkipLists.SkipQueue.FindPosition | pkg/ds/lockfree/priority_queue.go:325-349 | at every level in use, the last node of larger priority and what follows it; nil above |
| SkipLists.SkipQueue.Push | pkg/ds/lockfree/priority_queue.go:142-205 | the contents become the sorted list with the item in front of its equals, for every random level, also one above the current maximum; the node is linked in every level in use up to its own, and the maximum rises to its level |
| SkipLists.SkipQueue.Pop | pkg/ds/lockfree/priority_queue.go:217-283 | hands out and removes the first item, or reports an empty queue |
| SkipLists.SkipQueue.Peek | pkg/ds/lockfree/priority_queue.go:286-308 | the first item, if any |
| SkipLists.SkipQueue.Len | pkg/ds/lockfree/priority_queue.go:311-313 | the number of items |
| SkipLists.SkipQueue.Clear | pkg/ds/lockfree/priority_queue.go:352-368 | empty contents in a list that is still well-formed |
| BinaryHeap.Up | pkg/ds/sync/priority_queue.go:155-181 | container/heap's up restores heap order and permutes |
| BinaryHeap.Down | pkg/ds/sync/priority_queue.go:155-181 | down restores heap order below, or reports that it did not move; it permutes and leaves the rest of the slice alone |
| BinaryHeap.RootIsLargest | pkg/ds/sync/priority_queue.go:162-164 | no element outranks the root of a heap |
| BinaryHeap.Init | pkg/mempool/mempool.go:193-202 | Init makes any slice a heap of the same elements |
| BinaryHeap.Push | pkg/ds/sync/priority_queue.go:61-69 | a heap of the old elements and the new one, which stays last when it does not outrank its parent |
| BinaryHeap.Pop | pkg/ds/sync/priority_queue.go:81-91 | the root, which nothing outranks, and a heap of the rest |
| BinaryHeap.Remove | pkg/mempool/mempool.go:301-301 | the element at the index, and a heap of the rest |
| HeapQueues.HeapQueue.Push | pkg/ds/sync/priority_queue.go:61-69 | adds exactly the item |
| HeapQueues.HeapQueue.Pop | pkg/ds/sync/priority_queue.go:81-91 | takes out an item that no other outranks; nothing exactly when empty |
| HeapQueues.HeapQueue.Peek | pkg/ds/sync/priority_queue.go:97-106 | an item that no other outranks; nothing exactly when empty |
| PriorityQueues.RunSkipList | pkg/ds/lockfree/priority_queue.go:142-368 | for every sequence of calls the skip list answers as the sorted list does |
| PriorityQueues.RunHeap | pkg/ds/sync/priority_queue.go:61-181 | for every sequence of calls the heap reports the priorities and lengths of the sorted list |
| PriorityQueues.QueuesAgree | pkg/ds/sync/priority_queue.go:61-126 | so the two queues cannot be told apart by priorities, emptiness and length |
| PriorityQueues.AnswersTell | pkg/ds/sync/priority_queue.go:61-126 | a pop or peek reports a priority of the list that no item exceeds, or that there is none, and every call the length |
| Transactions.BonusIsShared | pkg/mempool/tx.go:293-305 | with receipts at one phase of the second the priority is a fixed key plus a bonus that all transactions share |
| Transactions.PriorityFits | pkg/mempool/tx.go:293-305 | the gas price, and one more for every 1,000,000,000 nanoseconds of waiting |
| Transactions.OrderIsTimeless | pkg/mempool/tx.go:293-305 | the difference of two priorities does not depend on the clock |
| Transactions.PhasesDecide | pkg/mempool/tx.go:293-305 | the lead of one transaction over another is the same at all times if and only if they were received at one phase of the second; their order is if and only if they were, or the earlier neither ties with the later at its receipt nor trails it by one |
| Transactions.LeadMovesByOne | pkg/mempool/tx.go:293-305 | whatever the phases, between any two moments a lead moves by at most one |
| Transactions.WrapDecides | pkg/mempool/tx.go:293-305 | past 64 bits: what is worth more stays ahead when both worths have wrapped equally often, and, when it is worth less than 2^64 more, only then |
| Mempools.Mempool.constructor | pkg/mempool/mempool.go:116-132 | an empty pool |
| Mempools.Mempool.Tick | pkg/mempool/tx.go:293-305 | the heap stays in order as time passes |
| Mempools.RootBlursByOne | pkg/mempool/tx.go:293-305 | without any condition on the receipts, the root of a heap in order at one moment is at any other outranked by at most one |
| Mempools.Mempool.Add | pkg/mempool/mempool.go:222-273 | says which check failed, each with its condition in figures; accepts exactly the sound, new transactions for which there is room or that outrank the last heap slot; a refusal changes nothing; a full pool evicts an entry of least priority, strictly below the new one, which frees a slot exactly when its hash is live; without stale entries the maximum size is never exceeded |
| Mempools.Mempool.RemoveLowest | pkg/mempool/mempool.go:277-302 | the scan finds an entry of least priority and removes it from heap and map |
| Mempools.LastSlotRuleIff | pkg/mempool/mempool.go:251-264 | comparing with the last slot admits exactly what outranks some entry if and only if the last slot is of least priority |
| Mempools.RefusedAboveAnother | pkg/mempool/mempool.go:222-273 | three additions and a fourth: the full pool refuses the fourth and keeps one that it outranks |
| Mempools.Mempool.Remove | pkg/mempool/mempool.go:309-323 | the map loses the hash, the heap is left alone |
| Mempools.Mempool.RemoveBatch | pkg/mempool/mempool.go:329-347 | the map loses exactly the listed hashes; past the threshold the heap is rebuilt without stale entries, otherwise left alone |
| Mempools.Mempool.RemoveExpired | pkg/mempool/mempool.go:166-189 | exactly the transactions within their lifetime stay; the heap is rebuilt when anything went |
| Mempools.Mempool.RebuildHeap | pkg/mempool/mempool.go:193-202 | map and heap hold the same transactions again, whatever order the map yields |
| Mempools.Mempool.PopHighestPriority | pkg/mempool/mempool.go:436-452 | skips stale entries, returns one that no live transaction outranks, removes exactly its hash; nil only from an empty pool |
| Mempools.Mempool.GetPending | pkg/mempool/mempool.go:399-425 | all of them for a limit of zero or less or above their number, and otherwise as many as the limit says: entries of live hashes in non-increasing priority, outranked by no live transaction left out; without stale entries the live transactions themselves, none twice; in every case they have the highest live priorities if and only if every surplus entry is matched, and are the live transactions themselves, none twice, if every surplus entry is outranked, and only if every one is matched; when all entries tie, which ones is what the order of the slice says; terminates although stale entries take the loop counter back |
| Mempools.ReaddedHidesAnother | pkg/mempool/mempool.go:309-425 | a transaction removed and added again before a rebuild is handed out twice while another live one is not |
| Mempools.LayoutDecides | pkg/mempool/mempool.go:222-425 | two pools with the same transactions and the same entries, all tied: one hands out both transactions, the other one of them twice |
| Handouts.RanksRightIff | pkg/mempool/mempool.go:399-425 | for all pools: the k-th priority handed out is the k-th highest live one, for all k, if and only if against every surplus entry as many live transactions as asked for rank at least as high |
| Handouts.LiveOnceHalves | pkg/mempool/mempool.go:399-425 | for all pools: live transactions, none twice, when that many rank strictly above every surplus entry; never when a surplus entry has fewer at its rank or above; a tie with the last one handed out is left to the heap's layout |
| Mempools.SyncedHasNoSurplus | pkg/mempool/mempool.go:193-202 | a pool without stale entries has no surplus entries |
| Mempools.SyncedIsExact | pkg/mempool/mempool.go:193-202 | a heap that covers the pool and has its size is exactly the live transactions |
| MempoolRuns.RunPool | pkg/mempool/mempool.go:166-452 | over any sequence of calls with time passing: the heap's entries exceed neither the live transactions nor the capacity by more than the hashes named in removals; with none named there are no stale entries and the capacity is kept |
| MempoolRuns.Overfill | pkg/mempool/mempool.go:222-323 | that bound is attained for every capacity and every number of removals |
| SeenCache.StepKeepsInv | pkg/node/broadcast.go:170-322 | every step of MarkSeen and of the sweep keeps count plus uncounted stores minus undeducted deletions equal to the cache size |
| SeenCache.Reachable | pkg/node/broadcast.go:170-322 | so at every moment of every run |
| SeenCache.OneCallerPerEntry | pkg/node/broadcast.go:294-322 | per hash, callers told that it is new, with those about to be told, are as many as entries ever stored |
| SeenCache.NewAgainOnlyAfterTTL | pkg/node/broadcast.go:170-189 | a second entry for a hash is stored only more than the lifetime after the timestamp of any earlier one |
| SeenCache.RefusedWasSeen | pkg/node/broadcast.go:294-322 | a caller told that the hash is not new found an entry at that moment |
| SeenCache.MarkFinishes | pkg/node/broadcast.go:294-322 | a call has its answer after at most three steps of its own |
| SeenCache.StampIsCallTime | pkg/node/broadcast.go:294-322 | the timestamp stored is the clock of the moment of the call |
| SeenCache.SweepForgets | pkg/node/broadcast.go:170-189 | what a sweep has visited is gone, or within its lifetime, or was stored again since |
| SeenCache.SweepBegan | pkg/node/broadcast.go:170-189 | a sweep judges by the clock of the moment at which it began |
| SeenCache.SweepCanEnd | pkg/node/broadcast.go:170-189 | from any moment of a sweep at most two steps end it, no clock tick or call needed, and all it deleted is then deducted |
| SeenCache.SweepCanForget | pkg/node/broadcast.go:170-189 | a sweep that visits one expired entry drops exactly that entry and lowers the counter by one |
| SeenCache.QuiescentCount | pkg/node/broadcast.go:537-541 | outside calls and sweeps the counter is the cache size |
| BroadcastManagers.BroadcastManager.MarkSeen | pkg/node/broadcast.go:294-322 | true exactly for a hash without an entry, and the first timestamp stays |
| BroadcastManagers.BroadcastManager.Cleanup | pkg/node/broadcast.go:170-189 | forgets exactly the entries older than the lifetime |
| BroadcastManagers.BroadcastManager.SelectGossipTargets | pkg/node/broadcast.go:434-459 | as many targets as there are peers not excluded, or as the fanout if those are more; none excluded, none more often than listed |
| BroadcastManagers.BroadcastManager.GossipBroadcast | pkg/node/broadcast.go:389-411 | sends only a new message, to that many targets, and counts those reached |
| BroadcastManagers.BroadcastManager.RelayIfNew | pkg/node/broadcast.go:498-524 | passes a message on exactly when it is new, to as many peers other than its sender as there are, at most the fanout |
| BroadcastManagers.BroadcastManager.Broadcast | pkg/node/broadcast.go:340-372 | a new message goes to exactly the connected peers not excluded, in order; the result counts the successful writes |
| Gossip.SendsBounded | pkg/node/broadcast.go:389-524 | at most nodes times the largest fanout messages are ever sent |
| Gossip.EachSends | pkg/node/broadcast.go:389-524 | the origin and every node to which the message is new send as many copies as the fanout or as they have other neighbours, to neighbours only and none back; a node that has seen it sends none |
| Gossip.NewAtMostOnce | pkg/node/broadcast.go:294-524 | to each node the message is new at most once, and never to the origin |
| Gossip.Terminates | pkg/node/broadcast.go:498-524 | no run makes more than nodes times the largest fanout deliveries |
| Gossip.FullCoverage | pkg/node/broadcast.go:434-524 | when every fanout is at least the degree, at quiescence every node connected to the origin has seen the message |
| Bytes.RoundTrip64 | pkg/protocol/codec.go:210-237 | reading a big-endian 64-bit integer undoes writing it |
| Strings.EncodeString | pkg/protocol/codec.go:182-188 | the buffer holds the 16-bit length and the bytes |
| Strings.DecodeString | pkg/protocol/codec.go:196-207 | for any bytes, the wrapped 16-bit sums decide as the parse function says |
| Strings.StringInverts | pkg/protocol/codec.go:182-207 | any bytes yield a string exactly when they start with its encoding and it has at most 65533 bytes, and panic exactly when the length field is 65534 or 65535 |
| Strings.StringRoundTrip | pkg/protocol/codec.go:182-207 | a string comes back exactly when it has at most 65533 bytes; with 65534 or 65535 the decoder panics |
| Strings.EncodeBytes | pkg/protocol/codec.go:243-248 | the buffer holds the 32-bit length and the bytes |
| Strings.DecodeBytes | pkg/protocol/codec.go:251-264 | for any bytes, the wrapped 32-bit sums decide as the parse function says |
| Strings.BytesInvert | pkg/protocol/codec.go:243-264 | any bytes yield a byte slice exactly when they start with its encoding and it is below the wrap, and panic exactly when the length field is one of the last four |
| Strings.BytesRoundTrip | pkg/protocol/codec.go:243-264 | a byte slice comes back exactly below the length where the 32-bit sum wraps |
| Readers.Reader.Read | pkg/node/node.go:901-908 | copies as much as fits and advances; the network kind copies any part of it |
| Readers.Reader.ReadFull | pkg/transport/connection.go:176-194 | fills the buffer exactly when enough bytes are left, however they are cut up |
| Messages.Encode | pkg/protocol/message.go:229-249 | the buffer is header and payload |
| Messages.Encoder.Encode | pkg/protocol/codec.go:41-70 | writes the same bytes in two parts |
| Messages.Decode | pkg/protocol/codec.go:107-167 | reads exactly one message however the bytes are cut up, or reports which check failed |
| Messages.DecodeInverts | pkg/protocol/codec.go:107-167 | a message is decoded exactly when it is valid and the bytes start with its encoding |
| Frames.FirstFrameInverts | pkg/transport/connection.go:212-243 | data is read exactly when it has 1 to 10 * 2^20 bytes and the bytes start with its frame |
| Frames.CutFrame | pkg/transport/connection.go:237-240 | a frame cut short yields nothing |
| Connections.Connection.WriteMessage | pkg/transport/connection.go:298-333 | sends one whole frame and leaves nothing buffered; a closed connection sends nothing |
| Connections.Connection.ReadMessage | pkg/transport/connection.go:212-243 | reads the first frame and consumes exactly it, or reports why not |
| Connections.Connection.Close | pkg/transport/connection.go:351-364 | closing twice is harmless, what was buffered is flushed |
| Connections.ReadLoop | pkg/node/node.go:561-594 | handles every frame that decodes, in order, until one cannot be read |
| Connections.HandledAre | pkg/node/node.go:561-594 | from the frames of sendable messages and a cut frame it handles exactly the messages |
| Connections.HandledOfFrames | pkg/node/node.go:561-594 | a frame that does not decode is passed over: of any readable frames, what decodes is handled, in order |
| Connections.LargestAreRefused | pkg/transport/connection.go:228-231 | a valid message is refused by the reader exactly when its payload exceeds 10 * 2^20 - 13 bytes |
| WriterSteps.WholeFrames | pkg/transport/connection.go:298-333 | under any interleaving of writers and any failure the wire carries whole frames in lock order and at most one partial frame |
| WriterSteps.FailureHasCause | pkg/transport/connection.go:298-333 | a call fails, or the connection breaks, only if some write failed |
| WriterSteps.WritersAdvance | pkg/transport/connection.go:298-333 | while no write fails, a writer that has had as many turns as its frame has bytes has completed it |
| WriterSteps.EveryCallCanFinish | pkg/transport/connection.go:298-333 | as long as nothing has failed, some continuation without a failing write completes every call, so that all messages are read |
| WriterSteps.EndToEnd | pkg/transport/connection.go:212-333 | concurrent writers, any chunking: the read loop handles exactly the messages whose writing completed, each once, in lock order |
| Handshakes.Encode | pkg/protocol/handshake.go:62-93 | the buffer filled at the moving offset is the layout |
| Handshakes.Decode | pkg/protocol/handshake.go:96-132 | reads the fields off the layout, or fails when data is missing |
| Handshakes.ParseInverts | pkg/protocol/handshake.go:62-132 | a handshake is decoded exactly when the bytes start with its encoding and the user agent fits 16 bits |
| Handshakes.HandshakeRoundTrip | pkg/protocol/handshake.go:62-132 | it comes back exactly when the user agent has at most 65535 bytes |
| HandshakeAcks.EncodeAck | pkg/protocol/handshake.go:164-211 | the buffer is the layout |
| HandshakeAcks.DecodeAck | pkg/protocol/handshake.go:214-277 | all of its separate length checks together are the layout's |
| HandshakeAcks.ParseAckInverts | pkg/protocol/handshake.go:164-277 | the inverse in both directions, except that any first byte but 1 reads as a refusal |
| HandshakeAcks.AckRoundTrip | pkg/protocol/handshake.go:164-277 | it comes back exactly when reason and user agent have at most 65535 bytes |
| DisconnectPayloads.EncodeDisconnect | pkg/protocol/handlers.go:120-132 | the buffer is the layout |
| DisconnectPayloads.DecodeDisconnect | pkg/protocol/handlers.go:135-151 | for any bytes, the length check in ints and the wrapped slice bound decide as the parse function says |
| DisconnectPayloads.DisconnectInverts | pkg/protocol/handlers.go:120-151 | any bytes yield a notice exactly when they start with its encoding and its text has at most 65532 bytes, and panic exactly when the length field is 65533 or more and that many bytes follow |
| DisconnectPayloads.DisconnectRoundTrip | pkg/protocol/handlers.go:120-151 | it comes back exactly when the text has at most 65532 bytes; with 65533 to 65535 the decoder panics |
| PeerLists.EncodePeer | pkg/protocol/handlers.go:223-242 | the buffer is the layout |
| PeerLists.DecodePeer | pkg/protocol/handlers.go:245-276 | reads one peer and reports how many bytes it took |
| PeerLists.ParsePeerInverts | pkg/protocol/handlers.go:223-276 | a peer is decoded exactly when its address has 4 or 16 bytes and the bytes start with its encoding |
| PeerLists.EncodePeers | pkg/protocol/handlers.go:284-309 | the buffer is the count and the peers one after the other |
| PeerLists.DecodePeers | pkg/protocol/handlers.go:312-336 | reads as many peers as the count says, or fails at the first bad one |
| PeerLists.ParsePeersInverts | pkg/protocol/handlers.go:284-336 | the inverse in both directions, for at most 65535 peers with 4- or 16-byte addresses |
| PeerLists.PeersRoundTrip | pkg/protocol/handlers.go:284-336 | a list comes back exactly under that condition |
| Inventories.EncodeInv | pkg/protocol/handlers.go:395-411 | the buffer is the count and the items |
| Inventories.DecodeInv | pkg/protocol/handlers.go:414-439 | reads as many items as the count says |
| Inventories.ParseInvInverts | pkg/protocol/handlers.go:363-439 | the inverse in both directions, for at most 65535 items |
| Inventories.InvRoundTrip | pkg/protocol/handlers.go:395-439 | an inventory comes back exactly with at most 65535 items |
| TxCodec.Encode | pkg/mempool/tx.go:316-359 | the buffer filled at the moving offset is the layout |
| TxCodec.Decode | pkg/mempool/tx.go:362-415 | reads the fields off the layout and recomputes the hash |
| TxCodec.ComputeHash | pkg/mempool/tx.go:175-211 | hashes the fields in order through one eight-byte buffer |
| TxCodec.ParseInverts | pkg/mempool/tx.go:316-415 | a transaction is decoded exactly when it is canonical and the bytes start with its encoding |
| TxCodec.TxRoundTrip | pkg/mempool/tx.go:316-415 | it comes back, rehashed and unstamped, exactly when its data length fits 32 bits |
| TxCodec.PreimageDetermines | pkg/mempool/tx.go:175-211 | although the data length is not hashed, equal preimages mean equal fields |
| TxCodec.PreimageIsEncoding | pkg/mempool/tx.go:175-211 | what is hashed is the encoding without its four bytes of data length |
| WireFormat.MessageBytes | pkg/protocol/message.go:229-249 | 50 32 50 31, the type, the length and the checksum most significant byte first, then the payload |
| WireFormat.MessageErrors | pkg/protocol/codec.go:107-167 | which of the five checks fails, each with its condition in bytes |
| WireFormat.FrameBytes | pkg/transport/connection.go:298-333 | four bytes of length, then the data |
| WireFormat.FrameErrors | pkg/transport/connection.go:212-243 | which check of a frame fails, each with its condition in bytes |
| WireFormat.StringBytes | pkg/protocol/codec.go:182-248 | a length of two or of four bytes, then the bytes |
| WireFormat.HandshakeBytes | pkg/protocol/handshake.go:62-93 | every field at its offset |
| WireFormat.AckBytes | pkg/protocol/handshake.go:164-211 | verdict, reason, then the fields of a handshake |
| WireFormat.DisconnectBytes | pkg/protocol/handlers.go:120-132 | every field at its offset |
| WireFormat.PeerBytes | pkg/protocol/handlers.go:223-242 | every field at its offset |
| WireFormat.PeersBytes | pkg/protocol/handlers.go:284-309 | two bytes of count, then the peers in order |
| WireFormat.InventoryBytes | pkg/protocol/handlers.go:395-411 | two bytes of count, then item i at byte 2 + 33 i |
| WireFormat.TxBytes | pkg/mempool/tx.go:316-359 | every field at its offset |

## Left out

- Skip list under concurrency: a failed compare-and-swap at pkg/ds/lockfree/priority_queue.go:234 leaves a marked first node linked and later Pop calls spin on it, so only the sequential list is modelled.
- HashMapLinearizability.Linearizable: says nothing about values, because a revived node is visible before its new value is stored (pkg/ds/lockfree/hashmap.go:215-216), so that a Get can see the value from before the deletion; HashMapValues says what holds of values in every run.
- Hash map Range and Clear under concurrency: Clear resets the counter non-atomically; they are modelled for one caller.  Get beside writers is modelled without Clear.
- Mempools.Mempool.Tick: assumes that no priority of a pooled transaction passes 64 bits; WrapDecides says what happens otherwise.
- Mempools.Mempool.Add: requires the clock at one phase of the second (a clock that stands still, or whole seconds), because receipts at different phases reorder the heap (PhasesDecide says exactly when).  RootBlursByOne bounds the disorder that the clock alone brings; what heap operations make of it at other phases is not modelled.  The clock is read once per call, and the waiting time in seconds is exact instead of a float64.
- Mempool transactions are values: the model does not capture that map and heap share one object, or a caller that passes the same object to Add twice.
- PeekHighestPriority, GetByAddress, GetNonce and statistics: with a stale root the first is not a maximum, the others add only easy members.
- BroadcastManagers.BroadcastManager.SelectGossipTargets: the fanout is a natural number; the source's slice expression panics on a negative one.
- Gossip: delivery is reliable and no cache is swept meanwhile.
- SeenCache: one sweep at a time, as the single cleanup goroutine runs it; the soft-limit log line is not modelled.
- PeerManagerSteps: peers are added once and removed after their addition returned, as startPeer and readLoop do; event handlers are not modelled.
- Queue values are opaque integers, and nodes are never reclaimed, which the garbage collector guarantees.
- Connection.Close flushes the buffered writer without taking writeMu, so it can race a writer; it is modelled for one caller, and the writers' runs contain no Close.
- WriterSteps.EndToEnd: raw Connection.Write calls on the same connection are not modelled.
- Sockets, dialing, deadlines, tickers, logging, sync.Pool buffers, discovery, configuration checks, string printers and peer getters.
- Ping, Pong and GetPeers payloads and the message type numbers: fixed-size fields that add nothing to the layouts proved.
