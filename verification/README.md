# Verified models of the Composite component libraries

This project models the data structures and protocols at the core of the Composite component
system and proves what they are for. Each module follows one source file, or one layer of it.

| modules | what they model |
|---|---|
| `Heaps` | the array heap with back-references into its entries |
| `Graphs`, `CutTheory`, `MinCuts` | the Stoer-Wagner minimum cut of the members of a protection domain |
| `Domains`, `PdEdges`, `Mpd`, `Policy`, `MpdState` | mutable protection domains: cached pd-edges and running cost, merge, split, budget loops |
| `CcvTrie`, `CcvCache` | the radix-tree cache with a byte budget and eviction of the oldest put |
| `LongLong` | double-word multiplication and division from half-word digits, for any even half-word base |
| `Ring`, `Parlib`, `Lock` | step systems for the single-producer ring, fork and join with wake-ups, and the one-word lock |
| `Ertrie` | the embedded radix trie and its key-value operations, for any depth and node widths |
| `Captbl` | capabilities of several sizes packed into cache lines |
| `Words`, `PopCounts`, `Bitmaps`, `Slabs` | word tricks, the population count, bitmaps and the slab allocator |
| `Ezxml`, `EzxmlLaws` | escaping and decoding of XML character data, and what they mean character by character |
| `Wrappers`, `Arith` | an option type; facts about products and remainders |

Verify with `dafny verify dfyconfig.toml`.

## How the model reads the source

* Records linked by pointers are values in maps and sequences, indexed by an identifier in place of
  the address; circular lists are sequences. Arrays that an algorithm permutes in place (the heaps)
  are arrays. `Ertrie` keeps addresses and a store.
* The heap takes its comparator as an argument because keys change in place between calls.
* Loops that walk a list from its head visit the newest element first, as insertion at the head does.
* In the step systems a step is one access to shared memory. Memory is sequentially consistent, and
  ghost-like history fields (`log`, `out`, `sent`, `ran`, `arrived`) influence no step.
* In the cache the field `freed` lists the calls of free functions. The `History` record names the
  map in the tree, the entries in the order they were put, and what became of every value.

## Assumptions

* Protection domains: invocation counts are not negative and their sum stays below `MAX_LONG`; the
  heaps have room for all edges and components.
* Cache: values are not null; fewer than 2^28 puts happen while the cache is not empty, so an age
  fits its field. A signature may be any natural number, not only 64 bits.
* Ring: counters do not wrap. Division: the high word is below a divisor with its top bit set.
* Asynchronous invocation: waiting and sending behave as a counting semaphore
  (src/kernel/include/ipi.h:115-118).
* XML: `long` has 32 bits and `strtol` clips at its ends.
* Slab allocator: objects of 32 to 4032 bytes; freed addresses were handed out before.

## Results that are not plain confirmations

* The cache agrees with a finite map exactly as long as live signatures differ in their low 54 bits
  (`CcvTrie.PutFoundIff`, `CcvTrie.PutLostExample`, `CcvCache.Cache.Put`): the walks look at ten
  levels, so a leaf below depth 9 is never reached, although the put reports success. Exactly the
  signatures with those low bits are lost (`CcvTrie.PutShadows`).
* `kvt_add` asserts at its end that the value was stored. The value is stored exactly if the
  identifier was absent and memory suffices for the nodes its path lacks (`Ertrie.KvTrie.Add`);
  `Ertrie.AddWithoutMemory` is an addition that is not.
* Normalizing line endings stays within the string exactly if the string does not end in a carriage
  return, or has a carriage return before a line feed somewhere: each shortening leaves its old
  terminator behind, and the step over the new one lands on it (`Ezxml.NormalizeEol`,
  `Ezxml.OverrunExamples`).
* Decoding keeps its buffer exactly if no entity needs room, or the first that does comes before any
  reference whose low byte is zero: the copy made for it ends at the NUL that the reference wrote
  (`Ezxml.EzxmlDecode`, `Ezxml.BreaksExample`). Escaped strings meet neither exception
  (`Ezxml.RoundTrip`).
* Attribute values come back from escaping and decoding exactly if they hold no vertical tab and no
  form feed (`Ezxml.RoundTrip`, `Ezxml.VerticalTabExample`).
* A dequeue that returns false has not always seen an empty ring: `ck_ring_trydequeue_spmc` also
  returns false when it loses its one compare-and-swap. It does so exactly if the head it loaded is
  no longer the head (`Ring.FalseIsHonest`, `Ring.LostRaceExample`); the retrying and the
  single-consumer dequeue return false only on an empty ring.
* A budget is met exactly if it is not negative (`Policy.RemoveOverheadToLimit`).

## Model

| member | source | states |
|---|---|---|
| Heaps.Heap.constructor | src/components/lib/heap.c:145-160 | an empty heap with room for `max_sz` entries in slots 1 and up |
| Heaps.Heap.Swap | src/components/lib/heap.c:25-35 | two slots change places and both recorded indices follow; the set of entries stays |
| Heaps.Heap.SwapUp | src/components/lib/heap.c:73-91 | if order fails only around one entry, moving it up leaves the order broken at most between the slot where it ends, which is returned, and the children of that slot; the entries stay the same and the recorded indices exact |
| Heaps.Heap.SwapDown | src/components/lib/heap.c:42-71 | if order fails only between one entry and its descendants, moving it down restores the order with the same entries and exact recorded indices |
| Heaps.Heap.Heapify | src/components/lib/heap.c:94-98 | repairs a heap in which one entry may be out of place in either direction |
| Heaps.Heap.Add | src/components/lib/heap.c:168-185 | fails and changes nothing exactly when full; otherwise the entries gain exactly the new one and the heap is ordered |
| Heaps.Heap.Adjust | src/components/lib/heap.c:212-219 | after an arbitrary change of one key, order holds again for the new keys, with the same entries |
| Heaps.Heap.Highest | src/components/lib/heap.c:187-203 | nothing, with nothing changed, exactly when the heap is empty; otherwise a maximum under the comparator, and exactly it is removed, its recorded index becoming 0 |
| Heaps.Heap.Peek | src/components/lib/heap.c:205-210 | nothing exactly when the heap is empty, otherwise a maximum; the heap does not change |
| Heaps.Heap.Remove | src/components/lib/heap.c:221-243 | removes exactly the entry at the given index, whose recorded index becomes 0, and keeps the order |
| Heaps.KeyChange | src/components/lib/heap.c:212-219 | changing one key leaves order broken at most around that entry |
| Heaps.RootIsMax | src/components/lib/heap.c:187-210 | in heap order the first slot is at least every other |
| CutTheory.NearSideBound | src/components/include/mpd_policy.h:806-861 | along a most-connected-first order, the edges from what was taken to a later group on the other side of any cut weigh at most that cut restricted to the prefix (the heart of the Stoer-Wagner argument) |
| CutTheory.CutOfPhase | src/components/include/mpd_policy.h:806-861 | for a most-connected-first order of any partition, the weight between the last group and all others is minimal among cuts that separate the last two groups |
| MinCuts.ComponentGrpWeight | src/components/include/mpd_policy.h:681-708 | the weight between one component and a group, both directions |
| MinCuts.GrpToGrpWeight | src/components/include/mpd_policy.h:710-735 | the weight between two groups, both directions |
| MinCuts.PhaseQueue.ComponentAdjustHeap | src/components/include/mpd_policy.h:745-775 | every queued group gains exactly its weight to the component, and the queue stays a heap |
| MinCuts.PhaseQueue.GrpAdjustHeap | src/components/include/mpd_policy.h:777-788 | every queued group gains exactly its weight to the group |
| MinCuts.PhaseQueue.StartPhase | src/components/include/mpd_policy.h:815-834 | all groups but the first are queued, each with its weight to the first |
| MinCuts.PhaseQueue.Absorb | src/components/include/mpd_policy.h:849-853 | a most connected queued group is taken, and every queued weight again equals the weight to all groups taken so far |
| MinCuts.PhaseQueue.Phase | src/components/include/mpd_policy.h:806-861 | over any grouping: the returned amount is the weight between the last group and the rest, and no cut separating the last two groups is lighter; or there is one group left |
| MinCuts.PhaseCut | src/components/include/mpd_policy.h:806-861 | the cut-of-the-phase bound for the order in which a phase takes the groups |
| MinCuts.AppendLists | src/components/include/mpd_policy.h:883-906 | the group lists are joined and every member of the second gets the first as master |
| MinCuts.Prepare | src/components/include/mpd_policy.h:908-929 | every member starts as its own group |
| MinCuts.ContractLosesNone | src/components/include/mpd_policy.h:935-997 | merging the last two groups of a phase loses no cut lighter than the best found so far |
| MinCuts.FindMinCut | src/components/include/mpd_policy.h:935-997 | terminates with a non-empty proper subset of the members, the weight that crosses it, and no other non-empty proper subset is crossed by less |
| Domains.CostIsCrossing | src/components/include/mpd_policy.h:1174-1190 | the running cost is the sum of invocations over edges between different domains |
| Domains.PdEdgeWeight | src/components/include/mpd_policy.h:268-275 | the weight of a pd-edge is the weight between the members of its two domains |
| Domains.MergeDelta | src/components/include/mpd_policy.h:585-610 | putting two domains together lowers the crossing cost by exactly the weight between them |
| Domains.SplitDelta | src/components/include/mpd_policy.h:629-667 | taking a part out of a domain raises the crossing cost by exactly the cut of that part |
| PdEdges.SetWeight | src/components/include/mpd_policy.h:268-275 | weight and running cost move together and the pd-edge heap is reordered |
| PdEdges.SetInv | src/components/include/mpd_policy.h:283-297 | only the invocation count of the edge changes; master, tallies and cost agree again |
| PdEdges.CreatePdEdge | src/components/include/mpd_policy.h:333-355 | a new, empty pd-edge joins the heap |
| PdEdges.FindEdge | src/components/include/mpd_policy.h:395-426 | returns the one pd-edge of an unordered pair of domains; if the pair has one nothing changes, and otherwise an empty one is all that is new |
| PdEdges.AddEdge | src/components/include/mpd_policy.h:532-543 | a crossing edge gets the pd-edge of its domains as master; one pd-edge per pair, exact weights and counts are kept |
| PdEdges.RemoveEdge | src/components/include/mpd_policy.h:462-483 | an edge leaves its pd-edge, which is freed when it was the last; all tallies stay exact |
| PdEdges.FreePdEdge | src/components/include/mpd_policy.h:299-331 | an unused pd-edge disappears from the heap and from both domains |
| PdEdges.RemoveComponentEdges | src/components/include/mpd_policy.h:489-515 | all edges of a component that is leaving its domain lose their masters; invocation counts stay |
| PdEdges.AddComponentEdges | src/components/include/mpd_policy.h:545-581 | all edges of a component that enters a domain and now cross get masters |
| PdEdges.AppendEdge | src/components/include/mpd_policy.h:428-460 | a new edge between two domains is added and accounted |
| Mpd.RemComponent | src/components/include/mpd_policy.h:489-530 | a component leaves; its domain is freed exactly when it becomes empty |
| Mpd.AddComponent | src/components/include/mpd_policy.h:545-581 | a component joins the domain right after the head of its ring |
| Mpd.InsertedPlace | src/components/include/mpd_policy.h:557-562 | in the ring the component stands right after the head, and without it the ring is the old one |
| Mpd.FreePd | src/components/include/mpd_policy.h:357-389 | the freed domain leaves the heap of domains |
| Mpd.MoveAll | src/components/include/mpd_policy.h:585-610 | exactly the given components change domain; the source domain is freed exactly when all of it moved |
| Policy.RefreshCut | src/components/include/mpd_policy.h:935-997 | the recorded cut of a domain becomes a minimum cut of its members, and of a single member the largest `long` and no group; the domain is on the heap exactly if it can be split; nothing else changes |
| Policy.Merge | src/components/include/mpd_policy.h:585-610 | every member of the second domain moves to the first, one domain fewer; afterwards the recorded cut of the first is a minimum cut, even if others are stale, and no other domain has changed |
| Policy.Split | src/components/include/mpd_policy.h:629-667 | the recorded cut of a domain moves to a new domain; afterwards the recorded cuts of both are minimum cuts, even if others are stale, and no other domain has changed |
| Policy.MergeCost | src/components/include/mpd_policy.h:585-610 | a merge across a pd-edge lowers the cost by exactly its weight |
| Policy.SplitCost | src/components/include/mpd_policy.h:629-667 | a split raises the cost by exactly the crossing weight of the part moved |
| Policy.DecreaseOverhead | src/components/include/mpd_policy.h:1124-1134 | lowers the cost by exactly the largest pd-edge weight, puts the members of the two domains it joins into one, whose cut is recomputed, and changes no other placement, domain or edge |
| Policy.IncreaseIsolation | src/components/include/mpd_policy.h:1112-1122 | makes the smallest recorded cut a domain of its own and changes no other placement, domain or edge; with up-to-date cuts the cost rises by exactly that cut, with stale cuts by exactly what the part now crosses |
| Policy.RecomputeMinCuts | src/components/include/mpd_policy.h:1162-1171 | all recorded cuts are minimum cuts for the current weights, and nothing but recorded cuts changes |
| Policy.MergesCoarser | src/components/include/mpd_policy.h:1241-1246 | any run of the merge loop keeps components that share a domain together, and all components and edges |
| Policy.SplitsFiner | src/components/include/mpd_policy.h:1216-1219 | any run of the split loop keeps components in different domains apart, and all components and edges |
| Policy.RemoveOverheadToLimit | src/components/include/mpd_policy.h:1241-1246 | terminates after a run of merges, each across a heaviest pd-edge and made only because the cost was still above the limit; within the budget exactly if the limit is not negative, and otherwise with no pd-edge left and cost 0; components that shared a domain still do |
| Policy.SplitWithinLimit | src/components/include/mpd_policy.h:1216-1219 | terminates after a run of splits, each along a cheapest recorded cut that stays below the budget; leaves no split that would stay below it; components in different domains stay apart |
| Policy.CustomizeOverheadToLimit | src/components/include/mpd_policy.h:1195-1219 | the first two loops: such a run of merges, all cuts recomputed, and such a run of splits; within budget exactly if that is possible, up-to-date cuts, no affordable split left; components and edges stay |
| MpdState.Consistent | src/components/include/mpd_policy.h:1174-1190 | in every reachable state: cost equals crossing invocations, an edge has a master exactly if it crosses, one pd-edge per pair, exact weights and positive edge counts |
| MpdState.Manager.constructor | src/components/include/mpd_policy.h:1082-1103 | empty state with all heaps allocated |
| MpdState.Manager.TryCreateComponent | src/components/include/mpd_policy.h:1005-1015 | a known id changes nothing; an unknown one is the only member of a new domain that has no recorded cut and is off the heap, one domain more, and every other component, domain, edge and the cost stay |
| MpdState.Manager.AddEdge | src/components/include/mpd_policy.h:428-460 | cost grows by the weight of the new crossing edge |
| MpdState.Manager.EdgeSetInv | src/components/include/mpd_policy.h:283-297 | one invocation count changes and the state stays consistent |
| MpdState.Manager.RemoveToLimit | src/components/include/mpd_policy.h:1241-1246 | from every valid state: the run of merges across heaviest pd-edges that stops as soon as the cost is at most the limit, which it reaches exactly if it is not negative; below that all pd-edges are merged away |
| MpdState.Manager.CustomizeToLimit | src/components/include/mpd_policy.h:1195-1219 | from every valid state: merges only while the cost is above the budget, then splits only while the cheapest stays below it; within budget exactly if it is not negative, and no affordable split left |
| MpdState.Manager.RemoveOneBoundary | src/components/include/mpd_policy.h:1248-1253 | either no boundary is left and the cost is 0, or the domains of the heaviest pd-edge are one and the cost is down by exactly its weight |
| CcvTrie.FindIsLookup | src/components/lib/libccv/ccv_cache.c:106-160 | in a tree that holds a map, the walk for a signature ends within ten levels and finds exactly what the map has |
| CcvTrie.PutShape | src/components/lib/libccv/ccv_cache.c:232-308 | a put turns a tree for a map into a tree for the updated map, through leaf splits, chains, insertion by rank and the full flag |
| CcvTrie.PutFoundIff | src/components/lib/libccv/ccv_cache.c:215-308 | a put is found again if and only if no other signature in the tree shares the nine low digits |
| CcvTrie.ApartIsLow54 | src/components/lib/libccv/ccv_cache.c:106-143 | sharing the nine low digits is agreeing on the low 54 bits |
| CcvTrie.PutLost | src/components/lib/libccv/ccv_cache.c:215-308 | otherwise neither the new nor the old signature is found any more |
| CcvTrie.PutFinds | src/components/lib/libccv/ccv_cache.c:215-308 | the other signatures: every one with the nine low digits of the new one is lost, and every other is found, or not, as before |
| CcvTrie.PutShadows | src/components/lib/libccv/ccv_cache.c:215-308 | after such a put exactly the entries whose signatures differ from the new one in the low 54 bits are found, each with its value |
| CcvTrie.PutLostExample | src/components/lib/libccv/ccv_cache.c:215-308 | signature 2^54 put next to signature 0 |
| CcvTrie.Separated | src/components/lib/libccv/ccv_cache.c:106-143 | signatures in a well-shaped tree differ in the nine low digits |
| CcvTrie.OutShape | src/components/lib/libccv/ccv_cache.c:344-427 | a removal turns a tree for a map into a tree for the map without that signature, also when a sibling collapses onto the uncle |
| CcvTrie.AgeIsMin | src/components/lib/libccv/ccv_cache.c:51-104 | the age of a branch is the age of the oldest entry below it |
| CcvTrie.AgeInAged | src/components/lib/libccv/ccv_cache.c:51-104 | recomputing ages along one path repairs a tree whose ages are right off that path |
| CcvTrie.PutAged | src/components/lib/libccv/ccv_cache.c:275-304 | inserting the youngest entry needs no change of any age |
| CcvTrie.RankAdd | src/components/lib/libccv/ccv_cache.c:45-48 | adding a digit to a bitmap shifts the ranks of exactly the larger digits |
| CcvCache.SeekNode | src/components/lib/libccv/ccv_cache.c:106-143 | the loop finds the node the walk is defined to end at |
| CcvCache.Aging | src/components/lib/libccv/ccv_cache.c:51-104 | the walk down and back up recomputes exactly the ages on the path |
| CcvCache.OldestSign | src/components/lib/libccv/ccv_cache.c:163-207 | following the smallest age leads to the entry that was put longest ago |
| CcvCache.RemoveLeaf | src/components/lib/libccv/ccv_cache.c:344-427 | found exactly if present; the two writes of the code leave a tree for the smaller map with right ages |
| CcvCache.WriteEntry | src/components/lib/libccv/ccv_cache.c:232-308 | reports what it replaced; the result holds the updated map if no other signature agrees on the low 54 bits, else exactly the entries with other low 54 bits are still found |
| CcvCache.GraftOut | src/components/lib/libccv/ccv_cache.c:344-418 | overwriting the parent, or the uncle found on the way, is the recursive removal |
| CcvCache.EvictOldest | src/components/lib/libccv/ccv_cache.c:163-207 | exactly the first entry of the put order is removed and its free function called once |
| CcvCache.Depleted | src/components/lib/libccv/ccv_cache.c:209-213 | terminates after evicting the fewest oldest entries that bring the size down to the limit; exactly those are freed, oldest first |
| CcvCache.MakeRoom | src/components/lib/libccv/ccv_cache.c:218-221 | entries are evicted only if the budget would be exceeded, and then the fewest oldest |
| CcvCache.PutWithin | src/components/lib/libccv/ccv_cache.c:215-308 | the steps of a put that fits: evictions, the write, and the free of what it replaced; the age goes on counting, or starts at 1 in an empty cache |
| CcvCache.Cache.constructor | src/components/lib/libccv/ccv_cache.c:9-24 | an empty cache |
| CcvCache.Cache.Get | src/components/lib/libccv/ccv_cache.c:145-160 | returns exactly the last value put for the signature and not removed or evicted since |
| CcvCache.Cache.Out | src/components/lib/libccv/ccv_cache.c:344-427 | hands out the entry if present and removes only it, freeing nothing; otherwise changes nothing |
| CcvCache.Cache.Delete | src/components/lib/libccv/ccv_cache.c:429-440 | frees exactly the entry and returns 0, or returns -1 and changes nothing; nothing is handed out |
| CcvCache.Cache.Put | src/components/lib/libccv/ccv_cache.c:215-308 | too large: -1 and no change; else the fewest oldest entries are evicted and freed in order, then a replaced value is freed and nothing else, the new entry is the youngest, sizes stay within the budget, and every value ever put is live, freed once or handed out; if another entry shares the low 54 bits it returns 0, the new and that entry are lost, and every other entry is still found with its value |
| LongLong.Correct | src/components/lib/dietlibc-0.29/longlong.h:1251-1258 | at most two corrections, and the wrap test after adding the divisor decides the second one rightly |
| LongLong.DivDigit | src/components/lib/dietlibc-0.29/longlong.h:1247-1258 | one half-word digit of the quotient is exact |
| LongLong.ProductFits | src/components/lib/dietlibc-0.29/longlong.h:1249-1249 | the product of the estimated digit and the low half of the divisor fits in a word |
| LongLong.UdivQrnnd | src/components/lib/dietlibc-0.29/longlong.h:1240-1275 | for any even half-word base, normalized divisor and high word below it: quotient times divisor plus remainder is the double word, remainder below the divisor |
| LongLong.UmulPpmm | src/components/lib/dietlibc-0.29/longlong.h:1207-1229 | the two result words are the exact double-word product, carry included |
| Ring.InitialInv | src/components/include/ck_ring_cos.h:466-477 | the initial state has the invariant |
| Ring.StepKeepsInv | src/components/include/ck_ring_cos.h:309-464 | every step of the producer and of any consumer keeps the invariant |
| Ring.RunDelivers | src/components/include/ck_ring_cos.h:309-464 | in every run what was handed out is a prefix of what was published, in the order of successful compare-and-swaps, each item once, with the value enqueued |
| Ring.RunPublishes | src/components/include/ck_ring_cos.h:309-331 | in every run the items of successful enqueues are published, in their order, and nothing else |
| Ring.SoloDelivers | src/components/include/ck_ring_cos.h:400-464 | on a ring with an item, a dequeue that runs on its own is handed the front item: the retrying one from any point, however stale its snapshot, the other from its start |
| Ring.StepRefinesQueue | src/components/include/ck_ring_cos.h:309-464 | every step is an enqueue, a dequeue or nothing on the bounded FIFO queue between the counters |
| Ring.FalseIsHonest | src/components/include/ck_ring_cos.h:337-464 | a dequeue returns false exactly if its head snapshot is the tail it loads, and then the ring is empty, or if it is the variant that does not retry and its compare-and-swap finds the head moved on, and then the item it was after has been handed to another consumer |
| Ring.FullIsHonest | src/components/include/ck_ring_cos.h:309-331 | an enqueue returns false exactly if the ring held all it can when the head was loaded |
| Ring.LostRace | src/components/include/ck_ring_cos.h:400-417 | whenever the ring holds an item and two consumers are idle, a race is possible in which the dequeue that does not retry returns false to one of them and every later item is still in the ring |
| Ring.LostRaceExample | src/components/include/ck_ring_cos.h:400-417 | such a run from the empty ring: false is returned while the ring holds an item |
| Ring.SlotNotOverwritten | src/components/include/ck_ring_cos.h:400-464 | the value read before a successful compare-and-swap is still the one in the slot, and the one published |
| Lock.StepKeepsInv | src/components/include/cos_synchronization.h:50-116 | every step of any thread keeps the invariant of the lock word |
| Lock.StepWord | src/components/include/cos_synchronization.h:50-116 | a step leaves the word alone, takes it from free to the stepper, frees it if it is the stepper's, or sets the contested flag; when each of these happens is in the rows below |
| Lock.FreeIsTaken | src/components/include/cos_synchronization.h:50-92 | while the word is free, a thread on any way into the lock gets it by its own steps, four from outside |
| Lock.HeldIsContested | src/components/interface/lock/cos_synchronization.c:28-67 | while another thread holds it, a thread that wants it sets the contested flag and sleeps by its own steps, six at most |
| Lock.BlocksContested | src/components/interface/lock/cos_synchronization.c:28-67 | a thread goes to sleep only on a contested word that is not its own |
| Lock.TakeReturns | src/components/include/cos_synchronization.h:50-92 | a take returns without the lock exactly if a call to the lock component fails, and then changes nothing |
| Lock.OwnerReleases | src/components/include/cos_synchronization.h:94-116 | the owner frees the word by its own steps, whatever the lock component returns |
| Lock.FreedWithWake | src/components/interface/lock/cos_synchronization.c:70-85 | only the owner frees the word, and with a wake-up exactly if it was contested |
| Lock.RunIsSafe | src/components/interface/lock/cos_synchronization.c:28-85 | in every run: at most one owner, the word is free or the owner's with or without the contention flag, no modelled assertion fails, and the compare-and-swap of a contested release cannot fail |
| Lock.InitialInv | src/components/include/cos_synchronization.h:50-116 | a free lock has the invariant |
| Parlib.StepKeepsInv | src/components/interface/par_mgr/parlib.c:165-205 | every step of the master and the workers keeps the invariant, over any number of rounds |
| Parlib.RunIsSafe | src/components/interface/par_mgr/parlib.c:165-205 | in every run: a worker never sleeps on work without a wake-up pending or about to be sent; it runs what it was sent, in order; between rounds no work and no barrier wake-up is left over (what it is sent: `Parlib.RunSends`) |
| Parlib.RunSends | src/components/include/parlib.h:140-204 | in every run each worker is sent exactly the invocations that were forked, in order |
| Parlib.RunRunsForked | src/components/interface/par_mgr/parlib.c:165-205 | from the start, each worker has run a prefix of what was forked, short of it by one at most, and exactly that in the serial part |
| Parlib.WakesIdle | src/components/include/parlib.h:198-203 | a wake-up is sent exactly to a worker that may sleep and has not yet come round to its next invocation; any other polls its ring again before it can sleep |
| Parlib.JoinIsComplete | src/components/include/parlib.h:236-257 | the master leaves the barrier only after all workers of the round have arrived |
| Parlib.OneBarrierWakeup | src/components/interface/par_mgr/parlib.c:194-204 | a barrier wake-up is sent only when the master waits and all have arrived, and by one worker only |
| Parlib.NeverStuck | src/components/include/parlib.h:178-257 | inside a parallel section the master, or a worker that still owes an invocation or the barrier wake-up, can always take a step other than spinning |
| Parlib.StepGetsOn | src/components/interface/par_mgr/parlib.c:165-205 | spinning on an empty ring changes nothing, and every other step of a section strictly lowers a rank of the master's position, the rings, the pending wake-ups and the workers' positions |
| Parlib.SectionEnds | src/components/include/parlib.h:178-257 | so under every schedule a section takes at most that many steps besides spinning |
| Parlib.SectionCompletes | src/components/include/parlib.h:236-257 | from every reachable state some run, no longer than the rank, leads back to the serial part |
| Parlib.InitialInv | src/components/include/parlib.h:131-134 | the initial state has the invariant |
| Ertrie.IndicesDetermine | src/components/include/ertrie.h:182-198 | the indices of an identifier at all levels determine it among the identifiers below the maximum |
| Ertrie.MaxIdIs | src/components/include/ertrie.h:129-136 | the number of identifiers is the product of the widths of all levels |
| Ertrie.SharedPath | src/components/include/ertrie.h:182-198 | identifiers that differ only in the last index share every other |
| Ertrie.DistinctSlots | src/components/include/ertrie.h:182-198 | distinct identifiers are stored in distinct leaf slots |
| Ertrie.LinkKeeps | src/components/include/ertrie.h:269-279 | hooking in a new node changes no lookup |
| Ertrie.WriteKeeps | src/components/include/ertrie.h:280-287 | writing the leaf slot of one identifier changes no other lookup |
| Ertrie.InitNode | src/components/include/ertrie.h:143-161 | a new node has every slot empty |
| Ertrie.LookupIn | src/components/include/ertrie.h:217-243 | the loop returns the value stored under the identifier, or nothing |
| Ertrie.ExpandPath | src/components/include/ertrie.h:257-279 | succeeds if and only if memory suffices for the nodes the path lacks, and then takes exactly that much; no lookup changes either way |
| Ertrie.BlankMissing | src/components/include/ertrie.h:143-161 | below a new node a path lacks every node |
| Ertrie.ReachedMissing | src/components/include/ertrie.h:257-279 | a path lacks no node exactly if a lookup walks to its end |
| Ertrie.SetLeaf | src/components/include/ertrie.h:282-287 | sets the leaf unless that would overwrite one value by another |
| Ertrie.KvTrie.constructor | src/components/include/ertrie.h:163-180 | an empty trie |
| Ertrie.KvTrie.Lookup | src/components/include/ertrie.h:217-243 | the value of the identifier |
| Ertrie.KvTrie.Expand | src/components/include/ertrie.h:257-289 | -1 exactly if memory is short of the nodes the path lacks, and then the identifier had no value; 1 exactly if a value is in the way; no other identifier changes; memory falls by the nodes made |
| Ertrie.KvTrie.Add | src/components/include/kvtrie.h:92-106 | 1 exactly if the identifier is present, -1 exactly if it is absent and memory is short of the nodes its path lacks; it has the new value exactly if 0 is returned, else what it had; no other identifier changes |
| Ertrie.AddWithoutMemory | src/components/include/kvtrie.h:92-106 | two levels and no memory: -1, and the value is not found |
| Ertrie.KvTrie.Del | src/components/include/kvtrie.h:114-126 | the identifier is absent afterwards and no other changes |
| Captbl.GetLeafCovers | src/components/include/captbl.h:148-172 | lookup of a slot gives exactly the live capability whose extent covers it |
| Captbl.ExtentsDisjoint | src/components/include/captbl.h:148-172 | live capabilities in a line do not overlap |
| Captbl.HeaderInvalid | src/components/include/captbl.h:186-200 | invalid exactly if the size differs or a bit lies outside the mask of the size |
| Captbl.KindExtents | src/components/include/captbl.h:57-70 | threads and returns take one slot, invocations and asynchronous ends two, and no other kind can be added |
| Captbl.MaxIdIsTrie | src/components/include/captbl.h:24-28 | the identifiers are those of a trie of two levels with 512 leaves of 128 slots |
| Captbl.FitsMeans | src/components/include/captbl.h:233-246 | there is room exactly if the line is writable, the slot is a multiple of the size, the sizes agree and no live capability covers the slots |
| Captbl.AddToLine | src/components/include/captbl.h:231-250 | succeeds exactly if there is room; a failure leaves the line as it is and returns `-EPERM` for a read-only line, `-EEXIST` if the slot or the size of the line is taken, and `-EINVAL` otherwise |
| Captbl.AddedMeans | src/components/include/captbl.h:241-250 | the new capability covers its slots, all other slots resolve as before |
| Captbl.RemovedMeans | src/components/include/captbl.h:281-284 | its slots are free, all other slots resolve as before, an empty line is 64 bytes again |
| Captbl.Table.InitLeaf | src/components/include/captbl.h:126-146 | a new leaf is writable and has room for a capability of any size at every multiple of that size; other lines and every lookup stay |
| Captbl.Table.Lookup | src/components/include/captbl.h:206-211 | the live capability that covers the identifier, or nothing |
| Captbl.Table.Add | src/components/include/captbl.h:219-258 | exactly when it succeeds, and the error code of every failure; then exactly the slots of the new capability resolve to it, its slot has the given kind, and all other kinds, lines and flags stay; a failure changes nothing |
| Captbl.Table.Del | src/components/include/captbl.h:260-291 | succeeds exactly for the first slot of a live, writable capability, with the error code of every failure; then exactly its slots stop resolving and all other lines and flags stay; a failure changes nothing |
| Words.LogIsLeast | src/components/include/bitmap.h:78-99 | the logarithm of the isolated bit is the index of the least bit set |
| PopCounts.OnesCounts | src/components/include/bitmap.h:17-27 | for every word the count is the number of bits set |
| Words.LogMask | src/components/include/bitmap.h:85-99 | the logarithm, computed by smearing and counting ones, is exact on powers of two |
| Bitmaps.HasWithBit | src/components/include/bitmap.h:118-144 | setting a bit sets that bit and no other |
| Bitmaps.HasWithoutBit | src/components/include/bitmap.h:131-162 | clearing a bit clears that bit and no other |
| Bitmaps.Set | src/components/include/bitmap.h:137-144 | afterwards a bit is set exactly if it is the given one or was set before |
| Bitmaps.Unset | src/components/include/bitmap.h:155-162 | afterwards a bit is set exactly if it is not the given one and was set before |
| Bitmaps.One | src/components/include/bitmap.h:166-177 | the least bit set in the first words, or -1 if there is none |
| Slabs.FreeDiffers | src/components/include/cslab.h:125-129 | two bitmaps that differ in one bit differ by one in the number of free objects |
| Slabs.UnlinkMeans | src/components/include/cslab.h:83-92 | removal from the free list removes exactly that page |
| Slabs.UnlinkAt | src/components/include/cslab.h:83-92 | the other pages keep their order |
| Slabs.RelinkMeans | src/components/include/cslab.h:94-104 | addition to the free list makes the page its head, puts the old head last and keeps the others in place |
| Slabs.ObjectInPage | src/components/include/cslab.h:78-81 | an object lies inside its page and past the header, and its address determines page and index |
| Slabs.ObjectsDisjoint | src/components/include/cslab.h:168-174 | distinct objects do not overlap |
| Slabs.FreshReady | src/components/include/cslab.h:141-149 | a new page has all objects free and is the only one in the list |
| Slabs.TakeFrom | src/components/include/cslab.h:168-182 | takes the least free object of the page; the free count matches the bitmap and the page leaves the list exactly when that was its last free object |
| Slabs.Allocator.constructor | src/components/include/cslab.h:194-198 | an allocator without pages |
| Slabs.Allocator.Alloc | src/components/include/cslab.h:151-182 | fails only without a free object and without a new page; otherwise the object is the first free one of the page at the head of the list, or of the new page if the list is empty; exactly that object is live in addition, the pages held are the old ones and the new one if it was asked for, and no other page changes |
| Slabs.Allocator.Free | src/components/include/cslab.h:106-139 | exactly the given object stops being live; its page is given back exactly if it was the last, joins the list exactly if it was full, and no other page changes |
| Ezxml.AmpEncode | src/components/lib/ezxml/ezxml.c:667-688 | the loop appends the escaped string, up to a NUL |
| Ezxml.NormalizeEol | src/components/lib/ezxml/ezxml.c:163-168 | within the bytes of the string every carriage return, alone or before a line feed, becomes one line feed; the scan leaves those bytes exactly if the string ends in a carriage return and contains no carriage return followed by a line feed |
| Ezxml.OverrunExamples | src/components/lib/ezxml/ezxml.c:163-168 | a lone carriage return at the end leaves the string; after a shortened line ending it does not |
| Ezxml.EolLength | src/components/lib/ezxml/ezxml.c:163-168 | normalizing makes no string longer, and keeps the length exactly if there is no carriage return before a line feed |
| Ezxml.EzxmlDecode | src/components/lib/ezxml/ezxml.c:158-218 | ends on every string; leaves the string exactly if normalization does; loses its buffer exactly if a reference to a NUL byte comes before the first entity that needs room, and there is such an entity; otherwise gives the decoded string, up to its first NUL (what that is: the `EzxmlLaws` rows) |
| Ezxml.DecodeBuffer | src/components/lib/ezxml/ezxml.c:170-208 | the loop rewrites the buffer into what its tokens decode to, and meets a copy that was cut short exactly under that condition (what tokens decode to: the `EzxmlLaws` rows) |
| Ezxml.BreaksExample | src/components/lib/ezxml/ezxml.c:170-208 | a reference to -256 and then `&lt;` lose the buffer |
| Ezxml.LookUpEntity | src/components/lib/ezxml/ezxml.c:191-195 | the loop finds the first entity whose name comes next |
| Ezxml.BytesAreUtf8 | src/components/lib/ezxml/ezxml.c:179-187 | a reference from 0x80 to 0x7FFFFFFF becomes a UTF-8 sequence that denotes its number |
| Ezxml.BytesFit | src/components/lib/ezxml/ezxml.c:173-187 | the bytes of a reference are no more than its characters before the semicolon, so writing them in place reaches no further |
| Ezxml.DecodeEncode | src/components/lib/ezxml/ezxml.c:667-688 | decoding undoes escaping whatever follows, so a decoded ampersand is never read again |
| Ezxml.RoundTrip | src/components/lib/ezxml/ezxml.c:158-218 | for every NUL-free string the escaped form is decoded without leaving the string or losing the buffer, line-ending normalization does nothing to it, and decoding gives the string back exactly if it is text or has no vertical tab and no form feed |
| Ezxml.DefaultStandard | src/components/lib/ezxml/ezxml.c:836-837 | the entities every document starts with replace each name that escaping uses by a reference to its character |
| Ezxml.EscapeAndDecode | src/components/lib/ezxml/ezxml.c:667-688 | the two loops in turn, with the default entities: never out of the string nor with a lost buffer, and with the string itself exactly if it is text or has no vertical tab and no form feed |
| Ezxml.VerticalTabExample | src/components/lib/ezxml/ezxml.c:158-218 | an attribute value that is a vertical tab does not come back |
| Ezxml.PlainReplaced | src/components/lib/ezxml/ezxml.c:189-205 | replacing an entity by a character reference leaves fewer ampersands that are not character references, so decoding ends |
| EzxmlLaws.DigitTable | src/components/lib/ezxml/ezxml.c:175-176 | each digit value has exactly its lower- and upper-case character |
| EzxmlLaws.DigitsValue | src/components/lib/ezxml/ezxml.c:175-176 | digits are read up to the first character that is none, and their value is positional |
| EzxmlLaws.StrtolValue | src/components/lib/ezxml/ezxml.c:175-176 | white space and a sign are skipped, and the value is the signed positional value of the digits |
| EzxmlLaws.PrefixedValue | src/components/lib/ezxml/ezxml.c:175-176 | a second `0x` before hexadecimal digits is skipped |
| EzxmlLaws.ReferenceValue | src/components/lib/ezxml/ezxml.c:174-177 | a character reference, decimal or hexadecimal, has the signed positional value of its digits clipped to 32 bits and ends at its semicolon; it is none exactly if the value is zero |
| EzxmlLaws.NoSemicolon | src/components/lib/ezxml/ezxml.c:174-177 | digits without a semicolon right behind them are no reference |
| EzxmlLaws.NoDigits | src/components/lib/ezxml/ezxml.c:174-177 | without digits there is no reference |
| EzxmlLaws.NumeralReference | src/components/lib/ezxml/ezxml.c:174-177 | every number below 2^31, written in decimal or hexadecimal, is read back as itself |
| EzxmlLaws.DecodeDigits | src/components/lib/ezxml/ezxml.c:174-188 | a reference of digits is decoded to the bytes of their positional value, and decoding goes on behind the semicolon |
| EzxmlLaws.DecodeEntity | src/components/lib/ezxml/ezxml.c:189-205 | a known entity is decoded as its text would be in its place |
| EzxmlLaws.GrowsMeans | src/components/lib/ezxml/ezxml.c:189-205 | an entity needs room exactly if its text makes the string longer |
| EzxmlLaws.DecodeOther | src/components/lib/ezxml/ezxml.c:170-208 | an ampersand that starts neither a reference nor a known entity, and any other character, stays, but white space in an attribute value becomes a space |
| EzxmlLaws.DecodePlain | src/components/lib/ezxml/ezxml.c:170-208 | without ampersands text stays as it is, and an attribute value changes in its white space only |
| EzxmlLaws.EolSplit | src/components/lib/ezxml/ezxml.c:163-168 | normalizing a string cut anywhere but inside a pair is normalizing its parts |
| EzxmlLaws.EolEndings | src/components/lib/ezxml/ezxml.c:163-168 | each of the three line endings becomes one line feed, and a string without carriage returns stays |
| EzxmlLaws.EolHasNoReturn | src/components/lib/ezxml/ezxml.c:163-168 | no carriage return is left |
| EzxmlLaws.EncodeHides | src/components/lib/ezxml/ezxml.c:667-688 | the escaped string holds no angle bracket and no carriage return, and as an attribute value no quote, line feed or tab |
| EzxmlLaws.EncodePlain | src/components/lib/ezxml/ezxml.c:667-688 | a string without special characters stays as it is |
| EzxmlLaws.EncodeSplits | src/components/lib/ezxml/ezxml.c:667-688 | escaping goes character by character |

## Left out

- The third loop of `customize_overhead_to_limit`, whose exit test looks at heaps that may be empty.
- The number of bytes `heap_alloc` asks for; the model has `max_sz + 1` slots.
- The assertion in `lock_take_contention` right after its compare-and-swap (line 47): the owner may release in between.
- Links of the intrusive lists themselves: lists are sequences, so broken or shared links cannot be expressed.
- CcvTrie.PutShape: nodes are values and a write through a node is a path update, so allocation and sharing of child arrays are not expressed.
- `ccv_cache_cleanup`, the 16-bit population-count table and the packing of type, age and size into one word.
- Calls into the kernel and other components, creation of components from a graph description, printing and measurement.
- Weak memory, counter wrap in the ring, and termination of a worker that receives a null function.
- Nested parallel sections: one level of fork and join.
- Ertrie.MaxIdIs: does not model the cap of `__ert_maxid` at the width of a pointer, because identifiers are unbounded numbers.
- Failing allocation of the first trie node, `kvt_free`, and the aligned variant with a sink node.
- `captbl_expand`, `captbl_prune` and the trie above the leaves of a capability table; the table is a map of cache lines, and a store to a header never loses a race.
- Slabs.Allocator.Alloc: page and bitmap are values, so the layout of the header is only its size.
- Ezxml.EzxmlDecode: only text and CDATA attribute values, and entity tables whose texts are five-character references such as the default ones; no parameter entities, document type entities or non-CDATA space normalization. What memory beyond the string or a cut copy holds is not modelled: the outcome only says that it is reached.
- The remaining XML parser, image code, schedulers, page tables and the other components.
