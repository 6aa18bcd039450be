# CacheGrid, verified model

A Dafny 4.11 model of CacheGrid, an embeddable cache with an in-memory backend, a disk backend and a clustered mode, together with proofs of what it promises. Every operation is written as a state change; the objects of the system are classes whose methods are proved against those state changes, and the promises are lemmas about them, for every input and every run.

`dafny verify dfyconfig.toml` checks the whole project.

## What is modelled

- **Hash ring** (`RingLabels`, `SortedPoints`, `HashRing`, `RingTheorems`, `RingHistories`, `ReplicaOrder`): the sorted point array with its owner map, binary-search lookup and the clockwise replica walk. The 32-bit hash is an arbitrary function; where a theorem needs it, the hash is assumed to keep virtual-node labels apart, and the labels themselves are proved distinct.
- **Membership and routing** (`Membership`, `Partitioned`, `ClusterAnswers`, `Replicated`): gossip events, ownerAddr, Partitioned mode as calls routed to the owner of a key and what its clients are answered in terms of their own calls, Replicated mode as unordered fan-out messages.
- **Cache store** (`TtlMap`, `Recency`, `ShardStore`, `ShardedTable`, `MemoryStore`, `LimitedStore`, `StoreAnswers`): one abstract map with deadlines as the reference, the recency order with byte accounting and eviction, the shard whose map and list point into each other, the sharded store, what a memory limit does to it, and what it answers in terms of the calls made on it.
- **Disk store** (`DiskFormat`, `PebbleStore`, `Backends`): the record format over a key-value map, and both backends side by side.
- **Locks** (`LockEngine`, `ClusterLocks`, `LockClients`): the engine with fencing tokens and cleanup, runs of many engines behind a route, and the client calls of a stable cluster: Lock from any node, routed by ownerAddr, and Release and Extend through the handle with the address it remembers. `LockClients` derives the route from the ring.
- **Rate limiters** (`TokenBucket`, `SlidingWindow`) and **tags** (`Tags`).

Time is an explicit input: each operation takes one reading of the clock of the node that executes it. On each node the readings do not go backwards; the clocks of different nodes need not agree. Random lock tokens are inputs too, and the lock theorems take those of different grants to be different. Integers are unbounded except where the width matters: counters and disk deadlines wrap as int64, fencing tokens as uint64, shard masks are cut to 32 bits. Rate limiters compute in reals, except that a window of zero does what floats make of the division. The counter serializer is an arbitrary pair of functions; only `TtlMap.IncrementsAddUp` asks that decoding undoes encoding. An RPC is a direct call of the handler on the node that listens at the dialled address.

## Where promises fail, and exactly when

- Removing a node can leave points without owner, so that lookups answer "": exactly if one of its points occurred twice (`RemoveOrphansIff`). The ring depends on its history exactly if labels collide (`HistoryIndependenceIff`).
- A new node whose points fall on old ones can reorder the other replicas of a key: exactly if some point it takes over is not covered by a following point of the same owner (`AddOnlyInsertsIff`).
- Over all histories of some names, a lookup on a non-empty ring can answer "" exactly if their labels collide (`AlwaysFoundIff`), and RemoveNode can do more than strike its node out of the replica orders exactly then (`RemovalsStrikeOutIff`).
- Over all histories of some names, RemoveNode can ask for a negative capacity exactly if the empty name is among them and two of them share a virtual point (`CapacitySafeIff`).
- The live nodes of the node table are the ring members exactly if no name is a stray, last heard of through an update though it has left or never joined (`LiveIsMembersIff`).
- Disk and memory part on a TTL exactly at a deadline, and on deadlines that an int64 of nanoseconds cannot hold (`ContentsAgreeIff`, `PartingStepShows`); the disk store's Len loses one on every Incr of an expired record (`LenDrift`).
- In Replicated mode, from any state of any run, a write converges under every delivery order exactly if every message of its key still in flight carries the same value, or there is no other node (`RunWriteConvergesIff`); and any state does exactly if no two nodes may end with different values (`AlwaysConvergesIff`).
- Cleanup shows in the answer of a Release exactly if a tick found the caller's entry expired since it was last written (`ReleaseDiffersIff`).
- A record has the tags it was set with except exactly in two cases: set without tags, it inherits those a lazy expiry left behind; set with tags, it loses them to the late callback of an earlier record (`TagsAreOwnIff`).
- A token bucket is spoiled, and denies its key until Reset whatever its later settings, exactly if some request on the key had a window of zero and was the first or came when no time had passed in the direction of the limit's sign (`SpoiledIff`).
- The store keeps within MaxMemoryMB over every run exactly if each shard gets a positive budget (`KeepsBudgetIff`).
- ARCHITECTURE.md:443-447 describes the sliding window as tracking individual timestamps; the code keeps two counters, and admits at most twice the limit in one window length, which is attained for every limit and every length (`IntervalBound`, `TwiceTheLimitHappens`); at most the limit is kept only by a limit of 0 (`KeepsLimitIff`). The model follows the code.
- ARCHITECTURE.md:411 calls fencing tokens monotonically increasing; they are, up to the 2^64th grant (`FencingIncreasesIff`).

## Model

| member | source | states |
|---|---|---|
| RingLabels.LabelInjective | internal/cluster/hashring.go:45 | the virtual-node label `name-i` determines both name and index, even for names that contain dashes and digits |
| SortedPoints.SortedUnique | internal/cluster/hashring.go:49-51 | the sorted permutation that `sort.Slice` leaves is unique, so modelling it by one sorting function loses nothing |
| HashRing.Ring.constructor | internal/cluster/hashring.go:23-32 | a new ring is empty; a non-positive virtual-node count becomes 150 |
| HashRing.Ring.AddNode | internal/cluster/hashring.go:35-52 | the loop that appends points, overwrites owners and sorts leaves exactly `Added` of the old state; a known member changes nothing |
| HashRing.Ring.addPoints | internal/cluster/hashring.go:44-48 | the loop appends the virtual points in order and makes the node the owner of each |
| HashRing.Ring.RemoveNode | internal/cluster/hashring.go:55-75 | the rebuild loop, which deletes an owner at the first occurrence of its point, leaves exactly `Removed` of the old state; asks only that the slice capacity be non-negative |
| HashRing.Ring.Search | internal/cluster/hashring.go:88-90 | binary search finds the boundary between the points before h and those at or after it |
| HashRing.Ring.GetNode | internal/cluster/hashring.go:79-95 | the answer is the owner of the first point on the clockwise reading of the ring from the key's hash, "" on an empty ring |
| HashRing.Ring.GetNodes | internal/cluster/hashring.go:99-132 | the answer is the first min(n, members) entries of the distinct owners met on one clockwise turn |
| HashRing.Ring.Walk | internal/cluster/hashring.go:120-131 | the seen/result loop with modular positions yields the first occurrences of the rotated owner sequence, cut at the wanted count |
| RingTheorems.LookupIsSuccessor | internal/cluster/hashring.go:87-94 | lookup with wrap-around equals the clockwise successor defined on the bare set of points |
| RingTheorems.AddMovesOnlyToNewNode | internal/cluster/hashring.go:35-52 | after AddNode(n) every position keeps its owner or belongs to n, colliding points included |
| RingTheorems.RemoveMovesOnlyItsOwn | internal/cluster/hashring.go:55-75 | RemoveNode(n) moves only positions owned by n, colliding points included |
| RingTheorems.RemoveOrphansIff | internal/cluster/hashring.go:67-73 | after RemoveNode(n) some position of a non-empty ring answers "" if and only if a point of n occurred more than once |
| RingTheorems.SurvivorCount | internal/cluster/hashring.go:67-73 | the rebuild takes one occurrence and the owner from each point of the removed node and leaves every other point alone, however often points repeat |
| RingTheorems.AddKeepsSound | internal/cluster/hashring.go:44-48 | adding a non-empty name keeps every point owned by a member |
| RingTheorems.RemoveKeepsSoundIff | internal/cluster/hashring.go:67-73 | every remaining point is owned by a member if and only if no point of the removed node was shared |
| RingTheorems.RunAccounted | internal/cluster/hashring.go:66 | over any add/remove history with non-empty names, collisions allowed, the capacity `len-vnodes` of RemoveNode is never negative |
| RingTheorems.AddKeepsAccounted | internal/cluster/hashring.go:35-52 | adding a non-empty name keeps at least vnodes points per member |
| RingTheorems.RemoveKeepsAccounted | internal/cluster/hashring.go:55-75 | so does removing a node, and the capacity it asks for is not negative |
| RingHistories.CapacitySafeIff | internal/cluster/hashring.go:66 | over every history of these names the capacity is non-negative, if and only if the empty name is not among them or no two of them share a virtual point; a name may repeat its own |
| RingHistories.RunWhole | internal/cluster/hashring.go:35-75 | names that share no point keep, over any history, every member's points on the ring, as often as it has them, and owned by it |
| RingHistories.SharedWithEmpty | internal/cluster/hashring.go:66-73 | a name that shares a point with the empty one has a history that leaves it a member of too short a ring, for every number of virtual nodes |
| RingHistories.SharedByTwo | internal/cluster/hashring.go:66-73 | so have any two names that share a point, with the empty name sweeping up the orphaned one |
| RingHistories.AlwaysFoundIff | internal/cluster/hashring.go:67-94 | over every history of non-empty names each lookup on a non-empty ring finds a node, if and only if the hash keeps their labels apart |
| RingHistories.RemovalsStrikeOutIff | internal/cluster/hashring.go:55-132 | over every history of non-empty names each RemoveNode only strikes its node out of every key's replica order, if and only if the hash keeps their labels apart |
| RingTheorems.RunIsCanonical | internal/cluster/hashring.go:35-75 | any history over non-empty names with collision-free labels ends in the canonical ring of its current members |
| RingTheorems.AddKeepsCanonical | internal/cluster/hashring.go:35-52 | adding a collision-free name to the canonical ring of a member set gives the canonical ring of the larger set |
| RingTheorems.RemoveKeepsCanonical | internal/cluster/hashring.go:55-75 | removing a member gives the canonical ring of the smaller set |
| RingTheorems.CanonicalUnique | internal/cluster/hashring.go:14-20 | the canonical ring is determined by the member set alone: points, order and owners |
| RingTheorems.HistoryIndependenceIff | internal/cluster/hashring.go:35-75 | for non-empty names: any two histories that end with the same members give the same ring if and only if the hash keeps the labels of the names in use apart |
| RingTheorems.RemoveStrikesOutIff | internal/cluster/hashring.go:55-132 | for every key the full replica order after RemoveNode(x) is the old one with x struck out, if and only if no point of x is shared |
| RingTheorems.AddOnlyInserts | internal/cluster/hashring.go:35-132 | AddNode(x) inserts x into every key's replica order without reordering the others, whenever x brings no point already on the ring |
| ReplicaOrder.AddOnlyInsertsIff | internal/cluster/hashring.go:35-132 | colliding points included, AddNode(x) inserts x into every key's replica order without reordering the others, if and only if looking up each old point on the ring without the points x takes over still finds its owner |
| ReplicaOrder.HandedLosesNothing | internal/cluster/hashring.go:120-131 | a walk loses no node and no order when each dropped point belongs to the owner of the next one kept |
| RingTheorems.FullOrderIsMembers | internal/cluster/hashring.go:99-132 | on a canonical ring the full order of any key lists every member exactly once |
| RingTheorems.ReplicaSelection | internal/cluster/hashring.go:99-132 | on a canonical ring GetNodes returns exactly min(n, members) distinct members, led by GetNode's answer |
| RingTheorems.ShorterRequestIsPrefix | internal/cluster/hashring.go:107-131 | on any ring the answer to a shorter request is a prefix of the answer to a longer one |
| Membership.ClusterState.constructor | internal/cluster/state.go:59-64 | a new table knows its own name and no node |
| Membership.ClusterState.AddNode | internal/cluster/state.go:67-71 | records the node under its name and changes no other |
| Membership.ClusterState.GetNode | internal/cluster/state.go:90-95 | the record of a known node, nothing for an unknown one |
| Membership.ClusterState.UpdateStatus | internal/cluster/state.go:81-87 | changes the status of a known node and nothing else; an unknown name is ignored |
| Membership.ClusterState.LiveNodes | internal/cluster/state.go:98-108 | lists each alive node exactly once and no other |
| Membership.Member.constructor | internal/cluster/member.go:74-85 | a new member has recorded itself as alive and joined its own ring |
| Membership.Member.NotifyJoin | internal/cluster/member.go:146-154 | a join records the node as alive and adds it to the ring |
| Membership.Member.NotifyLeave | internal/cluster/member.go:156-165 | a departure marks the node left and removes it from the ring |
| Membership.Member.NotifyUpdate | internal/cluster/member.go:167-174 | an update replaces the record, alive again, and leaves the ring alone |
| Membership.RunAligned | internal/cluster/member.go:146-174 | over any gossip history with non-empty names every ring member is a known node, and a departure never finds the ring too short |
| Membership.LiveIsMembersIff | internal/cluster/member.go:146-174 | after any gossip history the live nodes are the ring members, if and only if nobody is a stray: last heard of through an update, with no join since its last departure or at all; the node's own start counts as a join |
| Membership.AliveIsPresentOrStray | internal/cluster/member.go:146-174 | after any gossip history the ring holds exactly the names whose last move was a join, and the state counts exactly these and the strays as alive |
| Membership.KnownAsLastTold | internal/cluster/member.go:146-174 | after any gossip history a node is known exactly if it joined, was updated or is this node itself, with the RPC address of the last join or update of it, marked left exactly if the last event about it is its departure and alive otherwise |
| Membership.NotifyRecord | internal/cluster/member.go:146-174 | one event touches only the record of its node: a join or an update replaces it, a departure changes its status alone |
| Membership.LocalExactlyAtOwner | distributed.go:12-25 | with known members, a sound ring and addresses for all other members, ownerAddr is "" exactly on the owner; the fall-backs for a missing or unknown owner are never taken |
| Membership.NodesAgreeOnRing | internal/cluster/member.go:146-165 | two nodes with different gossip histories but the same members hold the same sound ring when labels do not collide |
| Membership.RingFollowsOps | internal/cluster/member.go:146-165 | the ring after any gossip history is the one its joins and departures build, in order |
| Partitioned.RoutedHome | distributed.go:12-25 | with stable agreed membership a call runs on the ring owner of its key, whichever node issues it and whatever it has recorded as its own address |
| Partitioned.OwnAddressIsFree | internal/cluster/member.go:75-84 | a cluster stays stable whatever address a node has recorded for itself, the wildcard it binds to included |
| Partitioned.PartitionedIsOneMap | distributed.go:53-59 | every interleaving of Set, Get, Delete, Exists and Incr from any nodes of a stable cluster, with sweeps on any nodes and a clock on each, answers as one shared reference map does, in which the time of a key is that of its home |
| Partitioned.CallRefines | distributed.go:85-94 | one call from any node gets the reply of the shared map and keeps each key at home only, showing what the map shows |
| Partitioned.SweepRefines | internal/cache/shard.go:187-213 | a sweep on one node is invisible to the shared map |
| Partitioned.FreshClusterIsOneMap | cache.go:153-219 | the same from empty stores and an empty map, with the default TTL applied as Set and Incr do |
| ClusterAnswers.LastWriteAnswers | cache.go:153-219 | after any run of calls from any nodes, Get answers the value of the last Set of the key, if no Delete or Incr of it came after and its own TTL, or the default for 0, has not run out by the clock of the key's home; otherwise nothing; and Exists says whether there is one |
| ClusterAnswers.ReadAnswers | cache.go:180-219 | the same after any run with increments: Get answers the number the counter started with plus every delta since, as an int64, while the record it started from lasts |
| ClusterAnswers.IncrAnswers | cache.go:290-301 | after any run an Incr answers the number its counter started with, by a Set or by the first Incr, plus every delta since, from whatever nodes, plus its own, as an int64; it starts anew with the default TTL when there is nothing or its time is up, and fails on a Set of something else |
| ClusterAnswers.RunRecordIs | distributed.go:27-124 | after any run the shared map holds under each key exactly what the calls on it left there: the Set or first Incr it stems from, the deltas since, and the deadline that call gave it unless an Incr came when it fell due |
| ClusterAnswers.OnlyIncrements | cache.go:290-301 | a key that is only ever incremented, with no default TTL, is one counter that starts with its first Incr and never ends |
| ClusterAnswers.WriteAnswers | cache.go:153-206 | Set and Delete of a non-empty key succeed and report nothing |
| ClusterAnswers.EmptyKeyAnswers | cache.go:153-219 | the empty key is refused by Set and Incr, never found by Get and Exists, and ignored by Delete |
| Partitioned.GossipMakesStable | internal/cluster/member.go:146-165 | nodes that gossiped to the same members over collision-free names, and know the distinct addresses of the others, form such a stable cluster |
| Replicated.Converges | distributed.go:30-43 | when each write of a key waits for the previous one to arrive, every node holds the last or the previous write at any time and all hold the last once nothing is in flight, for every delivery order |
| Replicated.RunSettles | distributed.go:100-109 | in such a run, a delete being a write of nothing, every message in flight for a key carries its last write, once per node, and exactly the nodes still waiting hold the previous one |
| Replicated.WriteSettles | distributed.go:30-43 | a write issued with none of its key in flight starts such a settling |
| Replicated.DeliverySettles | distributed.go:148-158 | every delivery, in whatever order, continues it |
| Replicated.WriteConvergesIff | distributed.go:36-43 | from every state with messages addressed to its nodes, a write converges under every delivery order if and only if every message of its key in flight carries the same value or there is no other node |
| Replicated.RunWriteConvergesIff | distributed.go:28-43 | the same at every moment of every run, quiet or not |
| Replicated.AlwaysConvergesIff | distributed.go:144-158 | every delivery order ends in agreement on a key, if and only if no two nodes may end with different values: one still on its way to a node or, if there is none, its own |
| Replicated.EndTogether | distributed.go:144-158 | any two nodes can be brought by one delivery order to any values they may end with |
| Replicated.RunAddressed | distributed.go:34-42 | every state of every run has only messages for its own nodes |
| Replicated.OvertakingDivides | distributed.go:36-43 | a write that meets a different one of its key in flight, among whatever else is in flight, has some delivery order that drains all messages and leaves two nodes with different values |
| TtlMap.StoreRefinesSpec | internal/cache/shard.go:33-213 | lazy expiry and sweeps answer any run as the reference map, which never drops anything by itself; a Delete is answered without its flag |
| TtlMap.StepAgrees | internal/cache/shard.go:33-213 | one step from tables that look alike answers alike and leaves tables that look alike |
| TtlMap.SweepsAreFree | internal/cache/shard.go:187-213 | DeleteExpired put in or taken out anywhere changes no answer of Set, Get, Exists, TTL or Incr |
| TtlMap.TwoPhaseIsAtomic | internal/cache/shard.go:92-129 | Exists and TTL, which read under one lock and delete under a later one with anything in between, answer as if done at once at their first read |
| TtlMap.ReapDropsOnlyExpired | internal/cache/shard.go:98-100 | the second critical section drops its key only if the record there now is expired, never another key and never a fresh record |
| TtlMap.IncrementsAddUp | internal/cache/shard.go:133-183 | no increment is lost: a counter only ever incremented without expiry answers the int64-wrapped sum of its deltas, whatever else the run does to other keys |
| Recency.EvictionIsLongestFit | internal/cache/shard.go:229-244 | eviction keeps exactly the longest most-recent-first prefix whose total size fits the limit |
| Recency.NewEntrySurvivesIff | internal/cache/shard.go:72-76 | a new entry survives its own Set if and only if it fits the limit alone; a larger one empties the shard |
| Recency.StepWellFormed | internal/cache/shard.go:33-244 | every operation keeps keys distinct and each recorded size the estimate of its entry |
| Recency.StepWithinBudget | internal/cache/shard.go:33-244 | every operation keeps the accounted bytes within a positive limit |
| Recency.RunOrderedByUse | internal/cache/shard.go:33-183 | over any run a shard lists its keys by the time of their last Set, Get hit or successful Incr, latest first |
| Recency.RunWithinBudget | internal/cache/shard.go:229-244 | a shard with a positive limit never accounts for more bytes than it, over any run |
| Recency.StepIsMem | internal/cache/shard.go:33-213 | without a limit a shard's contents after any operation are those of the TTL table |
| Recency.AnswerIsMem | internal/cache/shard.go:33-213 | a shard answers every operation as the TTL table of its contents does |
| ShardStore.LRUList.constructor | internal/cache/eviction.go:12-14 | a new list is empty |
| ShardStore.LRUList.PushFront | internal/cache/eviction.go:17-19 | a new element holding the entry becomes the front; the rest keeps its order |
| ShardStore.LRUList.MoveToFront | internal/cache/eviction.go:22-24 | an element of the list becomes the front, the others keep their order; a foreign element changes nothing |
| ShardStore.LRUList.Remove | internal/cache/eviction.go:27-29 | takes the element out and keeps the order of the others |
| ShardStore.LRUList.RemoveOldest | internal/cache/eviction.go:33-40 | takes out and returns the back entry, nil on an empty list |
| ShardStore.Shard.constructor | internal/cache/shard.go:23-29 | a new shard is empty and has the given limit |
| ShardStore.Shard.removeLocked | internal/cache/shard.go:223-227 | takes one key out of map, list and byte count, keeping map and list pointing at each other and Size exact |
| ShardStore.Shard.evictLocked | internal/cache/shard.go:229-244 | the eviction loop leaves `Evicted` of the recency order and keeps map, list and Size aligned; a limit of 0 or less evicts nothing |
| ShardStore.Shard.Get | internal/cache/shard.go:33-49 | a hit returns the value and promotes the entry, an expired entry is removed, a miss changes nothing |
| ShardStore.Shard.Set | internal/cache/shard.go:52-78 | replaces any old entry, makes the new one most recent with its deadline and size, then evicts |
| ShardStore.Shard.Delete | internal/cache/shard.go:81-89 | removes the key and says whether a record, dead or alive, was there |
| ShardStore.Shard.Exists | internal/cache/shard.go:92-106 | true exactly for a live record; an expired one is dropped; recency is untouched |
| ShardStore.Shard.TTL | internal/cache/shard.go:110-129 | -1 without expiry, 0 if missing or expired, else the time left; an expired record is dropped |
| ShardStore.Shard.reapLocked | internal/cache/shard.go:97-101 | the second critical section checks again and drops the key only if the entry there now is expired |
| ShardStore.Shard.planIncr | internal/cache/shard.go:137-156 | the new value and the time to live that Incr stores, or nothing when the old bytes do not decode |
| ShardStore.Shard.Incr | internal/cache/shard.go:133-183 | adds to the decoded counter with int64 wrap-around and keeps its deadline, except one that falls due right now; undecodable bytes change nothing |
| ShardStore.Shard.DeleteExpired | internal/cache/shard.go:187-213 | removes exactly the expired entries, keeps the order of the others and counts the removed ones |
| ShardStore.Shard.Len | internal/cache/shard.go:216-221 | the number of map entries is the length of the recency list |
| ShardedTable.IndexInRange | store_memory.go:28-32 | hash and mask always select an existing shard |
| ShardedTable.StorePlaced | store_memory.go:28-56 | every operation keeps every key in its hashed shard and every shard well formed |
| ShardedTable.StoreLookup | store_memory.go:28-36 | a key is in the store exactly if it is in its own shard, with that record |
| ShardedTable.StoreCounts | store_memory.go:58-72 | the sum of shard lengths is the number of distinct keys, and the sum of sweep counts the number of expired ones |
| ShardedTable.StoreStepIsMem | store_memory.go:34-64 | without a limit all shards together change as one TTL table |
| ShardedTable.StoreAnswerIsMem | store_memory.go:34-64 | and answer as that table, sweep counts included |
| ShardedTable.ShardedStoreRefinesSpec | store_memory.go:28-64 | without a limit the sharded LRU store answers every run as the reference map of keys to values and deadlines |
| ShardedTable.GlobalBudget | cache.go:72-77 | over any run the bytes accounted for in all shards never exceed MaxMemoryMB * 2^20, whenever the per-shard limit comes out positive, int64 wrap-around included |
| ShardedTable.KeepsBudgetIff | cache.go:72-77 | every run keeps the accounted bytes within MaxMemoryMB * 2^20, if and only if the per-shard limit comes out positive |
| ShardedTable.EveryShardWithinBudget | store_memory.go:28-56 | over any run every shard stays within a positive per-shard limit |
| ShardedTable.BudgetPositiveIff | cache.go:72-77 | short of int64 overflow the per-shard limit is positive if and only if there are no more shards than bytes |
| ShardedTable.BudgetIsShared | cache.go:72-77 | short of int64 overflow the shards share all of MaxMemoryMB * 2^20 but for less than a byte each |
| StoreAnswers.LastWriteAnswers | store_memory.go:34-52 | without a limit, after any run with sweeps anywhere, Get answers the value of the last Set of the key that no Delete or Incr followed and whose TTL has not run out, Exists that there is one, and TTL the time it has left, -1 if it has none to run out and 0 if there is nothing |
| LimitedStore.StepIsLongestFit | internal/cache/shard.go:33-244 | under a limit every operation leaves the longest most-recent-first prefix that fits of what it leaves without one; only Set and Incr can lose anything that way |
| LimitedStore.StoreStepIsLongestFit | store_memory.go:28-64 | the same for every shard of the store |
| LimitedStore.RunIsLongestFit | store_memory.go:28-64 | and at every step of every run |
| LimitedStore.LimitOnlyEvicts | internal/cache/shard.go:229-244 | under a limit the contents after any operation are those of the TTL table, without additions or changes, less at most records of the shard just written to, and those only if that shard would not fit |
| LimitedStore.NeverStale | store_memory.go:28-64 | over any run, whatever the limit, the store holds of a key that is not incremented nothing or exactly what the reference map holds |
| LimitedStore.GetHitsOrMisses | internal/cache/shard.go:33-49 | so Get answers what the reference answers or misses |
| MemoryStore.MemoryStore.constructor | store_memory.go:17-26 | all shards start empty, with the given limit; everything the store is made of is new, and shards share nothing |
| MemoryStore.MemoryStore.Get | store_memory.go:34-36 | runs Get on the shard of the key; every other shard is untouched and the store owns the same objects |
| MemoryStore.MemoryStore.Set | store_memory.go:38-40 | runs Set on the shard of the key; every other shard is untouched and what the store gains is new |
| MemoryStore.MemoryStore.Delete | store_memory.go:42-44 | runs Delete on the shard of the key; every other shard is untouched and the store owns the same objects |
| MemoryStore.MemoryStore.Exists | store_memory.go:46-48 | runs Exists on the shard of the key; every other shard is untouched and the store owns the same objects |
| MemoryStore.MemoryStore.TTL | store_memory.go:50-52 | runs TTL on the shard of the key; every other shard is untouched and the store owns the same objects |
| MemoryStore.MemoryStore.Incr | store_memory.go:54-56 | runs Incr on the shard of the key; every other shard is untouched and what the store gains is new |
| MemoryStore.MemoryStore.DeleteExpired | store_memory.go:58-64 | sweeps every shard and returns the total removed; the store owns the same objects |
| MemoryStore.MemoryStore.Len | store_memory.go:66-72 | the sum of the shard lengths |
| DiskFormat.EncodeRoundTrip | store_pebble.go:38-58 | decode after encode gives back the value and the deadline as an int64 holds it, for every value, ttl and clock |
| DiskFormat.BigEndianRoundTrip | store_pebble.go:38-58 | reading back k big-endian bytes gives the number written, for every k and every number that fits |
| DiskFormat.FirstByteWeighsMost | store_pebble.go:54 | the number k bytes stand for is the first byte times 256^(k - 1) plus the number of the rest |
| DiskFormat.DecodeRoundTrip | store_pebble.go:49-58 | every raw value of at least 8 bytes is the deadline it decodes to followed by the value; a shorter one decodes to nothing |
| DiskFormat.RecOfEncode | store_pebble.go:38-58 | a stored record means the deadline asked for if and only if it fits an int64 and is not 0 |
| PebbleStore.Store.constructor | store_pebble.go:24-33 | opening counts the keys already there |
| PebbleStore.Store.Get | store_pebble.go:64-81 | a live record's value; an expired record is deleted and uncounted |
| PebbleStore.Store.Set | store_pebble.go:83-98 | writes the encoded record and counts the key if it is new |
| PebbleStore.Store.Delete | store_pebble.go:100-112 | deletes and uncounts a key that is there |
| PebbleStore.Store.Exists | store_pebble.go:114-130 | true for a record that is not expired; an expired one is deleted and uncounted |
| PebbleStore.Store.TTL | store_pebble.go:132-152 | -1 without deadline, else the time left; at or past the deadline the record is deleted and 0 answered |
| PebbleStore.Store.Incr | store_pebble.go:154-211 | adds with int64 wrap-around, keeps a deadline still ahead, gives new and expired counters the default; an expired one lowers the count |
| PebbleStore.Store.DeleteExpired | store_pebble.go:213-266 | the iterator and batch delete exactly the expired records and return their number |
| PebbleStore.Store.isDead | store_pebble.go:229-233 | a raw record counts as expired exactly if it holds a deadline that has passed |
| PebbleStore.Store.Len | store_pebble.go:268-270 | the running count, whose meaning is LenDrift |
| PebbleStore.AnswersAgree | store_pebble.go:64-266 | from the same contents disk and memory give the same reply to every operation |
| PebbleStore.ContentsAgreeIff | store_pebble.go:64-266 | they end with the same contents if and only if the step is not a TTL exactly on its key's deadline and not a write whose deadline an int64 cannot hold |
| PebbleStore.IncrAgreesIff | store_pebble.go:154-211 | the Incr case of it, with kept, dropped and default deadlines |
| PebbleStore.BackendsAgree | store_pebble.go:64-266 | over any run without such steps all replies agree, Delete flags and DeleteExpired counts included |
| PebbleStore.PartingStepShows | store_pebble.go:145-149 | after such a step one more question at the same instant gets different answers from the two |
| PebbleStore.CountStep | store_pebble.go:64-266 | each operation changes the running count as it changes the number of keys, except that an Incr on an expired record lowers it by one |
| PebbleStore.LenDrift | store_pebble.go:179-208 | Len is the number of stored keys less one for each Incr that met an expired record, so it is right if and only if there was none |
| Backends.MemoryEqualsDisk | store.go:17-55 | the sharded LRU store without a limit and the database give the same reply to every operation of any run without parting steps |
| LockEngine.Engine.constructor | internal/lock/lock.go:34-41 | a new engine holds no lock and has granted none |
| LockEngine.Engine.Acquire | internal/lock/lock.go:44-63 | refused while held and unexpired, else a new entry with the next fencing token and a fresh deadline |
| LockEngine.Engine.Release | internal/lock/lock.go:66-79 | deletes the lock only for its own token, expired or not |
| LockEngine.Engine.Extend | internal/lock/lock.go:82-95 | moves the deadline only for the token of an unexpired lock |
| LockEngine.Engine.IsHeld | internal/lock/lock.go:98-103 | true exactly for an unexpired lock |
| LockEngine.Engine.ActiveLocks | internal/lock/lock.go:106-116 | lists each unexpired lock exactly once and no other |
| LockEngine.Engine.CleanupTick | internal/lock/lock.go:132-138 | deletes exactly the expired locks |
| LockEngine.Engine.LockWithRetry | lock.go:66-108 | whatever other clients do on the engine between the attempts, takes the lock at the first attempt that finds it free and only then; gives up with nothing of its own changed if none does; an empty key is refused; a negative retry count never tries; the key is prefixed with `__lock:` |
| LockEngine.CleanupIsFree | internal/lock/lock.go:123-141 | cleanup ticks anywhere change no answer of Acquire, Extend, IsHeld or ActiveLocks, no fencing token and not whether a Release gives up a live lock |
| LockEngine.ReleaseDiffersIff | internal/lock/lock.go:66-79 | in any run a Release answers differently from the same run without cleanup ticks if and only if, without them, the engine still carries the token and some tick came after that entry was last written and past its deadline; it is then refused |
| LockEngine.RunThinned | internal/lock/lock.go:123-141 | in any run cleanup has cost an engine exactly the entries some tick found expired since they were last written; the others and the fencing sequence are the same |
| ClusterLocks.GrantFate | internal/lock/lock.go:44-95 | in any run with distinct tokens each grant is still in its engine with its token, fencing token, owner and last deadline, or was released by its holder, or its own engine read a clock past its last deadline |
| ClusterLocks.GrantsDoNotOverlap | internal/lock/lock.go:44-63 | a later grant of a key means the earlier one was released or the engine's clock is past the last deadline it was given, for distinct tokens and engine clocks that do not go back |
| ClusterLocks.GrantedIff | internal/lock/lock.go:44-63 | in any run with distinct tokens and clocks that do not go back, an Acquire is granted if and only if every earlier grant of its key was released by its holder or is past the last deadline it was given |
| ClusterLocks.IsHeldIff | internal/lock/lock.go:98-103 | IsHeld answers true if and only if some earlier grant of the key is neither released nor past its last deadline |
| ClusterLocks.ActiveIff | internal/lock/lock.go:106-116 | ActiveLocks on a node lists a key if and only if the key is routed there and some earlier grant of it is neither released nor past its last deadline |
| ClusterLocks.ActiveRecord | internal/lock/lock.go:106-116 | and lists it with the token, the fencing token, the last deadline and the owner of that grant |
| ClusterLocks.ExtendedIff | internal/lock/lock.go:82-95 | the holder's Extend succeeds if and only if the grant was not released and is not past its last deadline |
| ClusterLocks.ReleasedIff | internal/lock/lock.go:66-79 | the holder's Release succeeds exactly while the engine carries the grant, which it does until released or past its last deadline; a released grant is gone and cannot be released again |
| ClusterLocks.ReleasedIsGone | internal/lock/lock.go:66-79 | a released grant is no longer in its engine, ever |
| ClusterLocks.EntryFromGrant | internal/lock/lock.go:44-63 | whatever an engine carries under a key was put there by an earlier grant of that key |
| ClusterLocks.SupersededTokenIsDead | internal/lock/lock.go:66-95 | after a later grant of its key an old token can neither release nor extend anything there |
| ClusterLocks.GoneForGood | internal/lock/lock.go:44-95 | a grant that has left its engine never comes back |
| ClusterLocks.FencingSeqCounts | internal/lock/lock.go:53 | the sequence of an engine is the number of its grants, modulo 2^64 |
| ClusterLocks.FencingIsGrantNumber | internal/lock/lock.go:53 | a fencing token is the number of the grant on its engine, modulo 2^64 |
| ClusterLocks.FencingIncreasesIff | internal/lock/lock.go:53 | among the first 2^64 grants of an engine a later grant has the larger fencing token if and only if it is not the 2^64th |
| LockClients.SiteIsHome | lock.go:25-101 | Lock from any node, and Release and Extend through a handle from any node, are executed by the engine of the ring owner of the lock key |
| LockClients.HandleLeadsHome | lock.go:16-58 | the owner address a handle remembers, or its own node if there is none, is the engine that granted it |
| LockClients.RunsAsHistory | lock.go:25-108 | every run of client calls on a stable cluster is a run of engines behind the route that the ring gives |
| LockClients.LocksDoNotOverlap | lock.go:66-108 | when Lock succeeds for a key again, from whatever node, the holder of the earlier handle released it or the owner's clock is past the last deadline that handle was given |
| LockClients.LockSucceedsIff | lock.go:66-108 | one attempt of Lock from any node succeeds if and only if every handle issued for its key so far, on whatever nodes, was released or is past the last deadline it was given by the owner's clock |
| LockClients.HandleWorksUntilOver | lock.go:25-58 | Extend and Release through a handle, wherever it was issued, succeed until it was released or is past its last deadline; Extend fails from then on, Release after a release |
| LockClients.RecordedAtHome | lock.go:66-108 | until then the engine of the key's owner carries the lock with the token and fencing token of the handle, the last deadline it was given and the owner's own name |
| LockClients.SupersededHandleIsDead | lock.go:25-58 | after a later Lock of its key an old handle can neither release nor extend, and no engine changes |
| LockClients.HandlesAreFenced | lock.go:60-63 | fencing tokens of the handles of a key increase, whichever nodes took them, up to the 2^64th grant of the engine |
| TokenBucket.Limiter.constructor | internal/ratelimit/tokenbucket.go:30-34 | a new limiter has no buckets |
| TokenBucket.Limiter.Allow | internal/ratelimit/tokenbucket.go:37-84 | refills for the elapsed time up to the limit and spends one token if there is one, for every window: a negative one drains, and a zero one does what floats make of the division |
| TokenBucket.Limiter.Reset | internal/ratelimit/tokenbucket.go:87-91 | forgets the key and no other |
| TokenBucket.LevelInRange | internal/ratelimit/tokenbucket.go:57-69 | in every reachable state of a key with fixed settings the level is within [0, limit] |
| TokenBucket.IntervalBound | internal/ratelimit/tokenbucket.go:37-84 | in any interval [s, t] of any run a key with fixed settings is admitted at most limit + (t - s) * limit / window times |
| TokenBucket.AdmittedIff | internal/ratelimit/tokenbucket.go:57-69 | a request of a key with fixed settings is admitted if and only if, counted from every request of the key so far, the admissions since and this one are at most limit + elapsed * limit / window; whatever the clocks do, and for every window but zero |
| TokenBucket.FindsLeastRoom | internal/ratelimit/tokenbucket.go:57-69 | the refilled level a request finds is the least, over all requests of the key so far and itself, of limit plus the inflow since minus the admissions since |
| TokenBucket.AdmittedAfterPause | internal/ratelimit/tokenbucket.go:58-69 | a request at least window/limit after the previous one on its key is admitted |
| TokenBucket.BurstAdmitted | internal/ratelimit/tokenbucket.go:43-51 | a new key admits a burst of limit requests in one instant, so the bound is attained |
| TokenBucket.RemainingIsExact | internal/ratelimit/tokenbucket.go:70-83 | after any request, admitted or not, the m-th further one at the same instant is admitted if and only if m is at most the Remaining reported |
| TokenBucket.FullAtReset | internal/ratelimit/tokenbucket.go:66-83 | a bucket left alone is full again at the ResetsAt reported, and an emptied one not before |
| TokenBucket.ZeroWindowSpoils | internal/ratelimit/tokenbucket.go:57-68 | a key first used with a window of zero is never admitted again, whatever its later settings |
| TokenBucket.SpoiledIff | internal/ratelimit/tokenbucket.go:37-68 | in any run, whatever the clocks and settings, a bucket is spoiled if and only if some request so far on its key had a window of zero and was the first for the key or came when the time since the one before had not moved in the direction of the limit's sign |
| TokenBucket.DeniedSinceSpoiler | internal/ratelimit/tokenbucket.go:60-83 | from such a request on the key is never admitted again and nothing remains |
| TokenBucket.ZeroWindowFills | internal/ratelimit/tokenbucket.go:57-83 | a key without such a request finds a full bucket at every request with a window of zero |
| TokenBucket.SpoiledForGood | internal/ratelimit/tokenbucket.go:60-68 | a spoiled bucket stays so and denies everything |
| SlidingWindow.Limiter.constructor | internal/ratelimit/slidingwindow.go:23-27 | a new limiter has no windows |
| SlidingWindow.Limiter.Allow | internal/ratelimit/slidingwindow.go:30-93 | advances the two windows, weighs the previous count by what is left of it and counts the call while the estimate is below the limit, for every window: with a length of zero the estimate is what the platform converts NaN or infinity to |
| SlidingWindow.Limiter.Reset | internal/ratelimit/slidingwindow.go:96-100 | forgets the key and no other |
| SlidingWindow.AdvancedSound | internal/ratelimit/slidingwindow.go:50-69 | advancing the windows at a later time keeps the bounds on counts and estimate |
| SlidingWindow.CountedSound | internal/ratelimit/slidingwindow.go:73-74 | so does counting an admitted call |
| SlidingWindow.ClampNeverFires | internal/ratelimit/slidingwindow.go:64-67 | after the advance the progress is in [0, 1), so the cut at 1 never happens |
| SlidingWindow.ReachableSound | internal/ratelimit/slidingwindow.go:50-74 | in every reachable state of a key with fixed settings both counts are within [0, limit] and the estimate at its last call is below limit + 1 |
| SlidingWindow.CountersCount | internal/ratelimit/slidingwindow.go:50-61 | the current count is the number of admissions in the current window and the previous count that of the length before it |
| SlidingWindow.AdmittedIff | internal/ratelimit/slidingwindow.go:50-74 | with its window starting at s, a request is admitted if and only if the admissions in [s - len, s), weighted by 1 - (now - s) / len, plus those in [s, s + len) so far are below the limit |
| SlidingWindow.WindowOnRecord | internal/ratelimit/slidingwindow.go:50-61 | the window on record starts where the requests of the key put it: at its first request and at any that comes two lengths or more after the start, and otherwise a length on as soon as one has passed |
| SlidingWindow.ResetsAtEndsWindow | internal/ratelimit/slidingwindow.go:71-92 | the next request of the key falls into the same window if and only if it comes before the ResetsAt reported |
| SlidingWindow.NeverBelowCurrent | internal/ratelimit/slidingwindow.go:63-69 | whatever clocks and settings do, the estimate is never below the count of the current window, which is what the cut at 1 is for |
| SlidingWindow.ZeroWindowAnswers | internal/ratelimit/slidingwindow.go:50-92 | with a length of zero and clocks that do not go back each request is admitted if and only if what NaN converts to is below the limit, whatever came before |
| SlidingWindow.IntervalBound | internal/ratelimit/slidingwindow.go:30-93 | no half-open interval of one window length holds more than 2 * limit admissions of a key with fixed settings |
| SlidingWindow.TwiceTheLimitHappens | internal/ratelimit/slidingwindow.go:50-74 | for every limit of at least 1 and every window length some run has 2 * limit admissions within one length |
| SlidingWindow.KeepsLimitIff | internal/ratelimit/slidingwindow.go:30-93 | every run keeps every window length to the limit, if and only if the limit is 0 |
| SlidingWindow.RemainingIsExact | internal/ratelimit/slidingwindow.go:73-92 | after any request, admitted or not, the m-th further one at the same instant is admitted if and only if m is at most the Remaining reported |
| Tags.TagIndex.constructor | tags.go:15-20 | a new index is empty |
| Tags.TagIndex.Add | tags.go:23-46 | replaces a key's tags and keeps the two maps exact inverses without empty tag sets |
| Tags.TagIndex.Remove | tags.go:49-66 | forgets a key and keeps the two maps exact inverses without empty tag sets |
| Tags.TagIndex.GetKeysByTag | tags.go:69-82 | lists each key of the tag exactly once and no other |
| Tags.LocalCache.SetWithTags | tags.go:85-93 | stores the value, a zero TTL meaning the default, and, if there are tags, replaces the tags of the key; the empty key is refused |
| Tags.LocalCache.Delete | cache.go:199-207 | removes the key from store and index; the empty key does nothing |
| Tags.LocalCache.Dropped | internal/cache/shard.go:223-227 | a record the store drops by itself, by lazy expiry, sweep or eviction, leaves the index as it was |
| Tags.LocalCache.OnDropped | cache.go:91-99 | the callback of an eviction or a sweep takes the key out of the index, whatever the store holds by then |
| Tags.LocalCache.InvalidateTag | tags.go:96-101 | removes from store and index exactly the keys of the tag and leaves all others unchanged |
| Tags.IndexIsLatestTagging | tags.go:23-66 | after any history the index knows a key exactly through its latest tagging that no deletion, callback or invalidation has undone |
| Tags.TagsAreOwnIff | tags.go:85-93 | a record has in the index the tags it was set with, if and only if, having some, no callback for its key has come in since, and, having none, its key was left untagged before or a callback has come in since |
| Tags.InStoreIff | tags.go:85-101 | after any history a key is in the store if and only if some Set put it there and no later Set, deletion, drop or invalidation of a tag it then had took that record away |
| Tags.InvalidateRemovesIff | tags.go:96-101 | invalidating a tag removes a record if and only if it was set with the tag and no callback for its key has come in since, or was set without tags on a key still left with the tag, again without a callback since |
| Tags.RecordTags | tags.go:23-66 | what the index says of a record, over any history of sets, deletions, drops, callbacks and invalidations |
| Tags.LapsedTagsLinger | internal/cache/shard.go:40-44 | a record set without tags after a lazy expiry is removed by exactly the tags of the expired one |

## Left out

- NearCache mode: a local copy may outlive a change at the owner, so there is no shared map for it to refine.
- Cache.TTL in cluster modes, and Incr and Exists in Replicated mode: they look only at the local store or only at the owner, so they do not refine a shared map.
- GetOrSet, MGet, MSet, Decr and TryLock: loops and compositions of the modelled calls that would add only easy members.
- Moving keys and locks when membership changes: OnNodeJoin is empty, so the cluster theorems are about stable membership.
- RPC failures, lost messages, connection pooling and the wire format (internal/transport): a remote call reaches its node and returns.
- The gossip library and the database engine: they appear as join, leave and update events and as a map; database errors do not occur.
- internal/pubsub, internal/server, middleware, namespaces, cmd and the example programs: notification, HTTP plumbing and string prefixes.
- Tags sent along with a remote Set: every caller passes none.
- Expiry in Replicated mode: each node counts the TTL from its own receipt, so only values are compared.
- The FNV hash itself and how evenly keys spread; that index and mask equal a remainder for powers of two.
- Shutdown: every call is made on a cache that is not closed.
- Mutexes: an operation is one atomic step, except Exists and TTL, whose two critical sections are separate steps in `TtlMap.TwoPhaseIsAtomic`.
- Several clock readings within one operation: each operation takes one.
- Links of container/list: the list is a sequence of elements, so its pointer surgery is not modelled; sort.Slice is modelled by its unique result.
- Clocks before 1970 and the saturation of time differences.
- TokenBucket.Limiter.Allow: reals instead of floats, so rounding is not modelled.
- SlidingWindow.Limiter.Allow: reals instead of floats, so rounding is not modelled; the values an implementation of Go converts NaN and infinity to are parameters.
- TokenBucket.IntervalBound: runs in which a key keeps one limit and window and is not Reset; the code accepts new settings on every call, and then no single bound is promised.
- SlidingWindow.IntervalBound: runs in which a key keeps one limit and window and is not Reset, for the same reason.
- LimitedStore.NeverStale: keys that the run does not increment; a counter whose record was evicted starts anew.
- LimitedStore.GetHitsOrMisses: the same.
- ClusterLocks.FencingIncreasesIff: compares grants up to the 2^64th; beyond it `ClusterLocks.FencingIsGrantNumber` still gives every token.
- LockClients.HandlesAreFenced: the same.
- LockEngine.Engine.LockWithRetry: the owner of the key is the same at every attempt, which is stable membership again.
