# Verified model of the buffer pool and its replacement policies

The repository compares page replacement policies on request traces. A buffer pool owns a fixed array of
frames; a policy decides which page gives up its frame on a miss. This project models the pool, the LRU, 2Q,
LRU-K and ARC policies with the intrusive lists, the updatable heap and the recency pool they are built
from, the trace runner with its statistics, and the window and reuse-gap counters of the locality script,
and proves what they keep, step by step and over whole traces.

`dafny verify dfyconfig.toml` checks the whole project.

## How it is organised

* **Machines as values.** `LruSpec`, `TwoQSpec`, `LruKSpec` and `ArcSpec` describe each policy as a step
  function on sequences and maps of page numbers. They are the reference: the theorems about traces
  (stack inclusion, histories, recency order, scan bounds, what the store remembers) are inductions over
  these steps, in the same modules and in `LruKTheorems`, `ArcTheorems` and `RecencyTheorems`.
  The rules that decide which page leaves, where a page goes, how ARC's threshold moves and which accesses
  LRU-K counts are also stated on the lists and arrays alone, without the step functions: `MissLaw`, `FillLaw` and
  `HitLaw` of `TwoQSpec`; `ReplacementLaw`, `ColdMissLaw`, `HitLaw` and `ThresholdLaw` of `ArcTheorems`; `HitLaw`,
  `EvictionLaw` and `MissLaw` of `LruKTheorems`.
* **Classes as coded.** `Lists`, `Heaps`, `RecencyPools`, `Queues`, `LruPolicies`, `TwoQPolicies`,
  `LruKPolicies` and `ArcPolicies` follow the C++ classes: nodes with `prev` and `next` pointers that
  methods relink, a heap array with back-indices, a hash map from keys to nodes, state tags in the nodes.
  Every `Get` and `Touch` is proved to take exactly one step of its machine, and to place the page in the
  frame it returns. Ghost fields hold the abstract values; `Valid()` ties them to the pointers.
* **The pool and the runner.** `Policies` is the template parameter (one of the four policies), `BufPools`
  the pool with its lookup table, `Runners` the statistics. `Machines` puts the four machines behind one
  step function with one contract (`AccessStep`), from which `TraceLaws` derives the laws of the counters for
  every policy at once; `LruRun`, `TwoQRun`, `LruKRun` and `ArcRun` identify these runs with those of the
  policies' own theorems, so a theorem about a machine's trace holds of what `Runners.RunTrace` computes.

## Where the code differs from what one might expect

* ARC erases the record of the requested page before it calls `replace`, so the tie clause there never
  decides (`ArcTheorems.TieClauseIsDead`). The rule is: take from cold exactly when cold is longer than the
  threshold. The specification keeps the clause, as the code does.
* `LRUKPolicy::touch` changes the key of a node that is in the heap and then calls `update` with the pointer
  that is already stored there, so `update` compares a node with itself and always sifts down. This is right
  because a touch never lowers a key (`AccessTimes.TouchRaises`), which in turn needs the invariant about the
  timestamps in frames and in the recency pool (`LruKSpec.Inv`). `Heaps.UpdatableHeap.Update` covers every change
  of the key: order is lost exactly when a key lowered in place comes before its parent's
  (`Heaps.LoweredKeyIsLost` is an instance).
* `update` with a value that is new to the heap restores heap order, but makes no callback for a value that
  stays where it was put, so that value's `heap_id` can be wrong afterwards (`Heaps.StaleHeapId` is an instance).
  `Heaps.UpdatableHeap.Update` says exactly when the back-indices are right, in terms of the state before: when
  `heap_id` already was the slot, or the new key comes before the parent's or after a child's.
* A 2Q pool of one frame reaches the failing assertion in `evict_one` (`TwoQSpec.CapacityOneGetsStuck`).
  `TwoQSpec.VictimExists` says in which full states a victim exists, and `TwoQSpec.SurvivesIff` says on
  exactly which traces the assertion never fails: all of them from two frames on; with one frame only those
  that request one page, or, without a store, request every page again before the next one.
* Without a store, 2Q promotes a cold page when it is touched, so cold can fall below the threshold again.
  `TwoQSpec.ColdStep` says which single accesses take it there, and `TwoQSpec.ColdStaysIff` that it stays at the
  threshold over every continuation exactly when there is a store.
* `LRUPolicy::touch` and the recency pool unlink nodes without telling the list, so `size_` drifts upwards
  there. `Lists.List.Valid` only says that it is an upper bound. How far it drifts is part of the classes' own
  `Valid`: by one for each touch in `LruPolicies.LruPolicy`, and by one for each key that `insert` finds or `take`
  removes in `RecencyPools.RecencyPool`. 2Q and ARC keep it exact, and their `Valid` says so.
* 2Q and LRU-K evict before they look up the requested page, so the victim can push the record of that very
  page out of the store; the specifications look it up in the state after the eviction.
* The handle's `page_id` hides the policy metadata's. The pool clears only its own on eviction; both are
  modelled (`handleId` and `pageId`) and proved to agree on every resident frame.

## Model

| member | source | states |
|---|---|---|
| Lists.ListNode.UpdateLatest | include/lru2_policy.hh:32-38 | the shift loop drops the oldest number and appends the newest |
| Lists.ListNode.PushFront | include/list.hh:15-24 | relinks so that the list reads other followed by its old nodes; no other list is disturbed |
| Lists.ListNode.PushBack | include/list.hh:25-34 | the same at the back |
| Lists.ListNode.PopBack | include/list.hh:35-43 | the list loses its last node, which comes back detached; no other list is disturbed |
| Lists.ListNode.Release | include/list.hh:44-49 | a node in the middle leaves; order of the others kept; the size counter is not told |
| Lists.List.Empty | include/list.hh:62-66 | the counter's answer is exact when the counter is, and otherwise errs on one side; the assertion holds |
| Lists.List.PushFront | include/list.hh:69-73 | list and counter grow by the node |
| Lists.List.PushBack | include/list.hh:74-78 | the same at the back |
| Lists.List.PopBack | include/list.hh:79-84 | list and counter shrink, never below empty |
| Lists.List.ReleaseCallback | include/list.hh:85-89 | the counter catches up after a node released itself |
| HeapOrder.Parent | include/heap.hh:31-33 | the parent index is smaller, and its two children are 2p+1 and 2p+2 |
| HeapOrder.RootIsLeast | include/heap.hh:38-38 | in an ordered heap no key is below the root's |
| HeapOrder.SiftUpStep | include/heap.hh:46-50 | swapping with the parent moves the one possible disorder up and keeps the rest bridged |
| HeapOrder.SiftDownStep | include/heap.hh:63-76 | swapping with the least child moves the one possible disorder down |
| HeapOrder.Candidate | include/heap.hh:64-71 | the two comparisons select a least child below the current node, or prove there is none |
| HeapOrder.DropLast | include/heap.hh:58-61 | after the swap with the last slot only the root can be out of order |
| Heaps.UpdatableHeap.Push | include/heap.hh:40-52 | adds the element; heap order and heap_id back-indices hold for every slot |
| Heaps.UpdatableHeap.Climb | include/heap.hh:46-51 | the sift-up loop with its partial callbacks restores order and back-indices, and terminates |
| Heaps.UpdatableHeap.SiftDown | include/heap.hh:62-76 | the sift-down loop restores order and back-indices, and terminates |
| Heaps.UpdatableHeap.Pop | include/heap.hh:54-78 | removes and returns an element no other is below |
| Heaps.UpdatableHeap.Update | include/heap.hh:80-112 | order is restored after a key was raised in place, and after a slot received a new element of any key, and lost exactly when a key lowered in place comes before its parent's; back-indices are right iff the value's was, or the new key is out of order in its slot |
| Heaps.StaleHeapId | include/heap.hh:80-112 | an input after which a heap_id is wrong |
| Heaps.LoweredKeyIsLost | include/heap.hh:82-95 | an input after which heap order is lost |
| HeapOrder.Lowered | include/heap.hh:82-95 | a lowered key is never after a child, and keeps the order iff it does not come before its parent's |
| HeapOrder.Raised | include/heap.hh:91-111 | a raised key can only be out of order with its children |
| Heaps.UpdatableHeap.KeyOverwritten | include/lru2_policy.hh:128-129 | what still holds of the heap after touch has overwritten a key and before update runs |
| AccessTimes.LessTransitive | include/lru2_policy.hh:66-72 | MetaCmp orders the arrays: "not below" is transitive |
| AccessTimes.LessTotal | include/lru2_policy.hh:66-72 | two arrays are comparable unless they are equal |
| AccessTimes.TouchRaises | include/lru2_policy.hh:121-129 | a touch strictly raises a sorted key whose entries are below the sequence number |
| AccessTimes.ShiftedSorted | include/lru2_policy.hh:32-38 | a touch keeps the array sorted |
| RecencyPools.RecencyPool.constructor | include/recency_pool.hh:34-43 | an empty pool: every node carries the sentinel |
| RecencyPools.RecencyPool.Insert | include/recency_pool.hh:45-63 | remove, put in front and truncate to the capacity, on keys and on values; unused nodes stay a suffix of the list, the new value is kept and every other one unchanged, and the counter drifts iff the key was there |
| RecencyPools.RecencyPool.RecycleLast | include/recency_pool.hh:111-115 | a used last node means that the map is full (the assertion of the void pool), and its key is the oldest |
| RecencyPools.RecencyPool.Contains | include/recency_pool.hh:64-64 | membership among the remembered keys |
| RecencyPools.RecencyPool.Take | include/recency_pool.hh:65-78 | returns the remembered value and forgets exactly that key; the counter drifts by one |
| LruSpec.RecentByLastAccess | include/lru_policy.hh:35-62 | move-to-front lists exactly the requested pages, once each, by decreasing last access |
| LruSpec.ResidentsAreMostRecent | include/lru_policy.hh:35-62 | after every trace the residents are the c most recently used distinct pages |
| LruSpec.Inclusion | include/lru_policy.hh:35-62 | the residents at a smaller capacity are a prefix of those at a larger one |
| LruSpec.HitsMonotone | include/runner.hh:26-53 | the hit count never drops as the capacity grows |
| LruSpec.ResidentIffFewSince | include/lru_policy.hh:35-62 | a page is resident iff fewer than c distinct pages were accessed since its last access |
| LruSpec.HitsAreShortDistances | include/lru_policy.hh:35-62 | the hits are exactly the accesses whose stack distance is below the capacity |
| LruPolicies.LruPolicy.RegisterMetadata | include/lru_policy.hh:28-32 | one more free frame, residents unchanged, and the assertion holds |
| LruPolicies.LruPolicy.EvictOne | include/lru_policy.hh:57-62 | frees the frame of the least recently used page |
| LruPolicies.LruPolicy.Get | include/lru_policy.hh:35-46 | one step of the LRU machine; a page is evicted iff the pool was full, and it is the least recently used |
| LruPolicies.LruPolicy.Touch | include/lru_policy.hh:49-53 | moves the page to the front; the counter grows by one while the length does not, so that it exceeds it by the number of touches |
| Queues.Queues.PopCold | include/2q_policy.hh:112-115 | takes the least recently used cold frame; tags, page numbers, placement and exact counters agree |
| Queues.Queues.ReleaseCold | include/arc_policy.hh:243-248 | takes a frame out of the middle of cold with both halves of the release protocol |
| TwoQSpec.ColdThres | include/2q_policy.hh:48-54 | the threshold is a quarter of the capacity, rounded up |
| TwoQSpec.MissLaw | include/2q_policy.hh:64-129 | a miss in a full pool takes the oldest page of cold when cold is longer than a quarter of the pool, rounded up, and of hot otherwise; all others stay, the page that left is the newest in the store, and the requested one heads hot iff the store then remembers it |
| TwoQSpec.FillLaw | include/2q_policy.hh:72-83 | with a free frame no page leaves |
| TwoQSpec.HitLaw | include/2q_policy.hh:87-105 | a hit moves its page to the front of hot, except that with a store a cold page stays where it is |
| TwoQSpec.VictimExists | include/2q_policy.hh:111-119 | exactly when a full pool has a victim |
| TwoQSpec.CapacityOneGetsStuck | include/2q_policy.hh:116-116 | with one frame the assertion fails on the second distinct page |
| TwoQSpec.NeverStuck | include/2q_policy.hh:111-119 | with two frames or more no trace reaches the failing assertion |
| TwoQSpec.SurvivesIff | include/2q_policy.hh:111-119 | the exact set of traces on which the assertion holds, for every capacity and store |
| TwoQSpec.AccessKeepsInv | include/2q_policy.hh:64-129 | every access keeps cold and hot disjoint and within the capacity, and the store bounded |
| TwoQSpec.StoreHoldsRecentlyEvicted | include/recency_pool.hh:101-120 | after every trace the store is the most recent distinct evicted pages |
| TwoQSpec.MissGoesHotIffRecentlyEvicted | include/2q_policy.hh:64-86 | a missed page enters hot iff it is among those, counting the eviction of this very miss |
| TwoQSpec.HotByLastAccess | include/2q_policy.hh:64-105 | in every run hot lists its pages by decreasing last access |
| TwoQSpec.ColdByLastAccess | include/2q_policy.hh:64-105 | without a store so does cold |
| TwoQSpec.ColdByLastEntry | include/2q_policy.hh:64-105 | with or without one, cold is a queue by entry into the pool |
| TwoQSpec.ScanBound | include/2q_policy.hh:64-129 | any run of never-requested pages removes at most max(0, cold_thres + 1 - cold size) pages from hot, oldest first |
| TwoQSpec.ColdStep | include/2q_policy.hh:64-129 | from the threshold on, exactly which accesses take cold below it |
| TwoQSpec.ColdNeverFallsBack | include/2q_policy.hh:96-104 | with a store, cold stays at or above the threshold once it is there |
| TwoQSpec.Drains | include/2q_policy.hh:98-103 | without a store, touching each cold page once empties cold |
| TwoQSpec.ColdStaysIff | include/2q_policy.hh:96-104 | no continuation takes cold below the threshold iff there is a store |
| TwoQSpec.ColdDrainsWithoutStore | include/2q_policy.hh:98-103 | an instance: a full pool of two frames, and the touches that empty its cold list |
| TwoQPolicies.TwoQPolicy.constructor | include/2q_policy.hh:48-54 | an empty pool with c <= 4 * threshold < c + 4, a quarter of the capacity, rounded up |
| TwoQPolicies.TwoQPolicy.RegisterMetadata | include/2q_policy.hh:56-60 | one more free frame, nothing else changes |
| TwoQPolicies.TwoQPolicy.PickVictim | include/2q_policy.hh:111-119 | takes the oldest page of cold when cold is longer than a quarter of the capacity, rounded up, and of hot otherwise; the assertion holds |
| TwoQPolicies.TwoQPolicy.EvictOne | include/2q_policy.hh:109-129 | one eviction of the machine by that rule, including what the store forgets |
| TwoQPolicies.TwoQPolicy.Get | include/2q_policy.hh:64-86 | one step of the machine; evicts iff no frame was free; free, cold and hot keep partitioning the frames |
| TwoQPolicies.TwoQPolicy.Touch | include/2q_policy.hh:87-105 | one step of the machine, with and without a store |
| LruKSpec.VictimUnique | include/lru2_policy.hh:139-141 | in every reachable state the least array belongs to one resident only |
| LruKSpec.EvictKeepsArrays | include/lru2_policy.hh:139-148 | an eviction moves the victim's array to the store and changes no other |
| LruKSpec.TouchedKey | include/lru2_policy.hh:121-129 | the array that touch shifts is sorted, has K entries and ends below the sequence number |
| LruKSpec.AdmitKeepsInv | include/lru2_policy.hh:107-112 | after the record is taken over, only the entering page may have an empty array |
| LruKSpec.TouchKeepsInv | include/lru2_policy.hh:121-137 | a touch, inside the grace period or not, restores the invariant |
| LruKSpec.AccessKeepsInv | include/lru2_policy.hh:98-148 | for every K >= 2 and grace all arrays in frames and records stay sorted, below the sequence number and apart |
| LruKTheorems.HitLaw | include/lru2_policy.hh:121-137 | a hit outside the grace period shifts the array by one and uses up one number; one within it changes nothing |
| LruKTheorems.EvictionLaw | include/lru2_policy.hh:139-148 | a miss evicts iff the pool is full, the one page whose array comes before all others, and saves that array |
| LruKTheorems.MissLaw | include/lru2_policy.hh:100-115 | the requested page goes on from the array saved for it, if it still is after the eviction, or from zeros; no other array changes |
| LruKTheorems.ArraysAreHistories | include/lru2_policy.hh:98-148 | for every K >= 2 and grace, every array is the numbers of the last K accesses that counted since the page last entered without a record |
| LruKTheorems.CountsWithoutGrace | include/lru2_policy.hh:121-137 | without grace every access counts, and its number is its position in the trace |
| RecencyTheorems.StoredIff | include/recency_pool.hh:45-78 | a record is kept iff at every moment since it was inserted fewer than capacity newer ones were in use |
| LruKTheorems.StoreOfEvents | include/lru2_policy.hh:100-148 | in every run the store is what the evictions and entries alone make of it |
| LruKTheorems.KnownIff | include/lru2_policy.hh:100-115 | a missed page finds its record iff, ever since it left, fewer than capacity pages that left later were out, this miss's own eviction included |
| LruKTheorems.VictimRule | include/lru2_policy.hh:139-148 | the victim's padded history is the least one; no resident has fewer accesses (of K), nor as few with an older oldest one |
| LruKPolicies.LruKPolicy.constructor | include/lru2_policy.hh:84-89 | an empty pool at sequence number 1 |
| LruKPolicies.LruKPolicy.RegisterMetadata | include/lru2_policy.hh:116-120 | one more cleared free frame |
| LruKPolicies.LruKPolicy.RaiseKey | include/lru2_policy.hh:128-129 | overwriting the key in place and calling update with the same pointer keeps the heap valid |
| LruKPolicies.LruKPolicy.TouchExcept | include/lru2_policy.hh:121-137 | touch as get calls it, on a page that may not have been accessed yet |
| LruKPolicies.LruKPolicy.Touch | include/lru2_policy.hh:121-137 | one step of the machine on a resident page |
| LruKPolicies.LruKPolicy.TakeRecord | include/lru2_policy.hh:107-110 | finds and removes the record of the page, or does nothing |
| LruKPolicies.LruKPolicy.EvictOne | include/lru2_policy.hh:139-148 | one eviction of the machine: the heap's root is its unique victim, and its frame ends up free and cleared |
| LruKPolicies.LruKPolicy.Get | include/lru2_policy.hh:100-115 | one step of the machine; evicts iff the pool was full |
| ArcSpec.PreparedCanReplace | include/arc_policy.hh:97-134 | whenever get calls replace the pool is full and the list it pops is not empty |
| ArcSpec.PreparedDistinct | include/arc_policy.hh:157-238 | before the page enters, the four lists hold distinct pages and not that one |
| ArcSpec.GetSizes | include/arc_policy.hh:157-238 | threshold <= c, cold side <= c, directory <= 2c, and history only in a full pool |
| ArcSpec.AccessKeepsInv | include/arc_policy.hh:157-252 | every access keeps the invariant |
| ArcTheorems.ReplacementLaw | include/arc_policy.hh:97-134 | on a miss in a full pool cold gives up its oldest page, to the head of its history, iff it is longer than the threshold, and hot does otherwise; all other pages stay |
| ArcTheorems.ColdMissLaw | include/arc_policy.hh:211-237 | with a free frame no page leaves; when every frame is cold the oldest leaves without a record |
| ArcTheorems.HitLaw | include/arc_policy.hh:240-252 | a hit takes its page to the front of hot and changes neither the histories nor the threshold |
| ArcTheorems.ThresholdLaw | include/arc_policy.hh:160-198 | a hit in a history moves the threshold by the quotient of the two sizes, at least by one, within 0 and c; no other access moves it |
| ArcTheorems.TieClauseIsDead | include/arc_policy.hh:104-111 | when get calls replace, cold gives up a page iff it is longer than the threshold |
| ArcTheorems.SidesByLastAccess | include/arc_policy.hh:97-134 | in every run cold then cold history, and hot then hot history, strictly decrease in last access |
| ArcTheorems.SidesByFrequency | include/arc_policy.hh:240-252 | the cold side was requested once since it entered the directory, the hot side at least twice |
| ArcTheorems.DirectoryWasRequested | include/arc_policy.hh:157-238 | the directory holds requested pages only |
| ArcTheorems.ForgottenWasLongAgo | include/arc_policy.hh:200-237 | a requested page outside the directory was followed by at least c distinct others |
| ArcTheorems.DirectoryHoldsLru | include/arc_policy.hh:157-252 | the directory always contains the residents of LRU on as many frames, so each hit of LRU is a hit or a history hit |
| ArcTheorems.ScanBound | include/arc_policy.hh:200-237 | a run of never-requested pages keeps the threshold and removes at most max(0, thres + 1 - cold size) pages from hot, oldest first |
| ArcPolicies.ArcPolicy.constructor | include/arc_policy.hh:137-147 | empty lists, c free history nodes, c <= 4 * threshold < c + 4, a quarter of c rounded up |
| ArcPolicies.ArcPolicy.RegisterMetadata | include/arc_policy.hh:149-153 | one more free frame, nothing else changes |
| ArcPolicies.ArcPolicy.IsHotRecord | include/arc_policy.hh:107-111 | the map and the node's tag together decide membership in the hot history |
| ArcPolicies.ArcPolicy.CheckCondition | include/arc_policy.hh:100-112 | the lambda decides the machine's rule, tie clause included |
| ArcPolicies.ArcPolicy.VictimUnrecorded | include/arc_policy.hh:117-119 | the page that replace demotes has no record, so emplace really inserts |
| ArcPolicies.ArcPolicy.Replace | include/arc_policy.hh:97-134 | demotes the oldest page of cold iff cold is longer than the threshold, or as long and the page has a hot record, and that of hot otherwise; uses one free history node, and returns the frame |
| ArcPolicies.ArcPolicy.RaiseThreshold | include/arc_policy.hh:169-172 | raises by the quotient of the histories' sizes, at least by one, up to the capacity; the divisor is not zero |
| ArcPolicies.ArcPolicy.LowerThreshold | include/arc_policy.hh:184-187 | lowers by the quotient the other way round, at least by one, down to zero; the divisor is not zero |
| ArcPolicies.ArcPolicy.TakeRecord | include/arc_policy.hh:160-191 | a history hit drops the record, moves the threshold by that rule in the direction of the record's list, and frees the node |
| ArcPolicies.ArcPolicy.DropColdRecord | include/arc_policy.hh:202-204 | the oldest cold record and its map entry go; its node is free again |
| ArcPolicies.ArcPolicy.DropHotRecord | include/arc_policy.hh:222-226 | the same for hot when the directory is full |
| ArcPolicies.ArcPolicy.GetRecorded | include/arc_policy.hh:160-198 | the history-hit branches take one step of the machine |
| ArcPolicies.ArcPolicy.GetColdSideFull | include/arc_policy.hh:200-210 | the branch for a full cold side takes one step of the machine |
| ArcPolicies.ArcPolicy.GetAllCold | include/arc_policy.hh:211-217 | the branch for an all-cold pool does, and leaves no record |
| ArcPolicies.ArcPolicy.GetDirectoryFull | include/arc_policy.hh:218-232 | the branch for a full directory does |
| ArcPolicies.ArcPolicy.GetFree | include/arc_policy.hh:233-237 | the branch that takes a free frame does, and a free frame exists |
| ArcPolicies.ArcPolicy.Get | include/arc_policy.hh:157-238 | every get is one step of the machine; history nodes in use and free still add up to c; evicts iff the pool was full |
| ArcPolicies.ArcPolicy.Touch | include/arc_policy.hh:240-252 | every touch is one step of the machine, and leaves threshold and histories alone |
| Machines.AccessStep | include/eviction_policy.hh:14-22 | each policy serves the page, keeps all others but one exactly when full, and keeps its invariant |
| Policies.Start | include/arc_policy.hh:136-147 | a new machine is empty, and ARC's threshold starts at a quarter of c, rounded up |
| Policies.New | include/bufpool.hh:80-83 | each policy's constructor gives the start state of its machine |
| Policies.PageIdAgrees | include/bufpool.hh:19-26 | a policy's own page_id is right in every frame in use |
| Policies.Get | include/eviction_policy.hh:18-18 | the contract of get that the pool relies on, met by all four policies |
| Policies.Touch | include/eviction_policy.hh:19-19 | the contract of touch, met by all four policies |
| BufPools.BufPool.constructor | include/bufpool.hh:80-91 | all frames registered and unlabelled, table empty |
| BufPools.BufPool.EvictCallback | include/bufpool.hh:72-77 | removes exactly the table entry of the evicted frame and clears its label |
| BufPools.BufPool.LookupIsInverse | include/bufpool.hh:66-77 | the table is the exact inverse of the valid frame labels, injective, and its keys are the machine's residents |
| BufPools.BufPool.GetPage | include/bufpool.hh:112-128 | one step of the machine; both assertions hold; the callback runs iff a miss meets a full pool; every other page that stays resident keeps its frame, and a hit moves none |
| Runners.RunStatistics.Record | include/stats.hh:20-32 | the four counters after one more result |
| Runners.RunStatistics.HitRate | include/stats.hh:34-40 | between 0 and 1, and hits over accesses |
| Runners.BufPoolRunner.Access | include/runner.hh:26-33 | the reported flags are those of the machine, and the eviction flag is raised iff the policy called back |
| Runners.SpanLoader.Get | include/loader.hh:29-34 | delivers the trace entry by entry |
| TraceLaws.StaysIff | include/runner.hh:45-53 | a page stays resident over a trace iff it is resident after each of its prefixes |
| Runners.RunLoader | include/runner.hh:36-44 | statistics and final state of a whole loader, evictions equal to callbacks; a page resident throughout keeps its frame |
| Runners.RunTrace | include/runner.hh:45-53 | statistics and final state of a whole trace, evictions equal to callbacks; a page resident throughout keeps its frame |
| TraceLaws.Conservation | include/stats.hh:20-32 | hits + misses = accesses, and fetched pages are resident or evicted, from any state of any policy |
| TraceLaws.FreshPool | include/runner.hh:26-53 | residents = min(misses, capacity), evictions = max(0, misses - capacity) |
| TraceLaws.CompulsoryMisses | include/runner.hh:26-53 | at least one miss for each distinct page |
| TraceLaws.FittingTrace | include/runner.hh:26-53 | a trace with at most capacity distinct pages has exactly that many misses and no eviction |
| TraceLaws.FittingTraceMissesOnce | include/runner.hh:26-53 | such a trace misses a page at its first request and at no other |
| TraceLaws.LruRun | include/runner.hh:45-53 | the pool's LRU runs and hits are those of the stack theorems |
| TraceLaws.TwoQRun | include/runner.hh:45-53 | the pool's 2Q runs are those of the 2Q theorems |
| TraceLaws.LruKRun | include/runner.hh:45-53 | the pool's LRU-K runs are those of the LRU-K theorems |
| TraceLaws.ArcRun | include/runner.hh:45-53 | the pool's ARC runs are those of the ARC theorems |
| Locality.WindowTracker.Flush | scripts/analyze_locality.cc:42-52 | writes one row and starts the next window, unless there is nothing to write |
| Locality.WindowTracker.Observe | scripts/analyze_locality.cc:54-60 | the loop terminates and the written rows keep tiling the accesses with exact distinct counts |
| Locality.WindowTracker.Finish | scripts/analyze_locality.cc:62-62 | the rows tile the whole trace, all full except possibly a nonempty last one |
| Locality.ReusesCounted | scripts/analyze_locality.cc:222-226 | the reuses with a selected gap are the accesses with a previous access to the same page and that many accesses in between |
| Locality.ReusesAndUniquePages | scripts/analyze_locality.cc:209-228 | reuses + distinct pages = accesses |
| Locality.TotalIsReuses | scripts/analyze_locality.cc:222-226 | the histogram below c adds up to the reuses with a gap below c |
| Locality.HitsCoverHistogram | scripts/analyze_locality.cc:209-236 | LRU with c frames hits at least as often as the histogram counts gaps below c |
| Locality.RunnerHitsCoverHistogram | scripts/analyze_locality.cc:209-236 | the same for the statistics of the trace runner |
| Locality.CountReuse | scripts/analyze_locality.cc:222-229 | last_seen, the histogram, with the exact number of accesses at each gap, and the reuse count after one more access |
| Locality.Analyze | scripts/analyze_locality.cc:209-247 | after the loop: exact last accesses, for each gap the exact number of accesses at it, reuses + distinct pages = accesses, all windows tiled |

## Left out

* `include/fifo_policy.hh` and `include/random_policy.hh`: easy instances of the same contract.
* `FileLoader` (`include/loader.hh`), the trace generators (`include/traces.hh`), configuration, table printing and
  the programs under `src/`: system calls, random numbers, formatting.
* The statistics that `scripts/analyze_locality.cc` prints with floating point (fractions, quantiles), its argument parsing, and
  its reading of the file in chunks; the loop here runs over the trace as one sequence.
* Floating-point set-up: 2Q's cold threshold and ARC's initial threshold are a quarter of the capacity rounded up,
  as `ceil` gives; the recency pool takes any positive capacity instead of 0.3 times the pool's.
* Integer width: sequence numbers and sizes are unbounded, so the wrap-around of `seqnum_`, at which the code
  aborts, and of a drifting list size do not occur.
* `LRUKMetadata<1>`: its scalar `last_access` has no `.back()`, so `touch` does not compile for it; K is at least 2.
* Move constructors, and the constructors that take a policy: a pool here builds its own policy.
* `PageHandle`, `data_` and `release`: no page is ever pinned, and every `release` of a policy does nothing.
* Unordered containers are maps and sets; their iteration order is never used by the modelled code.
* `ListNode` carries the fields of all structures derived from it, since a node must be castable to its derived structure.
* `RecencyPools.RecencyPool` is both `RecencyPool<V>` and `RecencyPool<void>`; the latter stores the empty array.
  A null store is the null reference, and capacity 0 in the machines.
* `Queues` is the part that 2Q's frames, ARC's frames and ARC's history nodes have in common.
* The template parameter of the pool is a closed choice of four policies, `Policies.Policy`.
- BufPools.BufPool.EvictCallback: it runs when `get` has returned rather than inside it; the callback and the rest of `get` write to different fields.
- LruPolicies.LruPolicy.Get: the page number is ghost, because the code ignores it.
- Locality.WindowTracker.Observe: observed accesses are numbered consecutively from 0, as the script's loop does.
