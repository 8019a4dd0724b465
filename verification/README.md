# A Dafny model of the libp2p Kademlia DHT

This project models the parts of go-libp2p-kad-dht whose correctness is hardest to see from the code, and proves
what the code promises about them, for every input, run or reachable state.

* **Keyspace tries** (`Keys`, `Tries`, `TrieOps`, `NextLeaf`, `Coverage`, `CoverMachine`, `Allocation`, `Gaps`,
  `Regions`, `RegionAllocations`). Identifiers and prefixes are bit strings (`Key`), a prefix test is Dafny's `<=`. A trie is
  `Empty | Leaf | Node`; `Content` is the map it stores and `WF` its invariant. A leaf need not sit at its minimal
  depth, because pruning leaves uncollapsed chains. `Before(order, a, b)` is the XOR order around `order`,
  `Distance` the XOR distance as a number.
* **The sweeping provider** (`Multihashes`, `PrefixQueues`, `ProvideQueues`, `DatastoreKeys`, `QueuePersistence`,
  `ReprovideTimes`, `CatchUp`, `Punctuality`, `Schedules`, `Grouping`, `Exploration`): the provide queue and its persistence, the reprovide schedule
  with its cursor and timer, grouping of keys by region, and exploration of the swarm by coverage.
* **Lookups** (`QueryPeersets`, `Lookups`, `LookupRuns`): the peer set and the coordinator as classes, and all
  interleavings of coordinator, workers and cancellation as a transition system.
* **Stores and accounting** (`ResettableKeystores`, `ProviderManagers`, `OptimisticProvides`): a keystore that is
  replaced as a whole and may crash between any two writes, the provider record cache with its incremental garbage
  collection, and the channel and lease accounting of optimistic provides.

`Sequences` holds facts about lists and counting. SHA-256 is an injective map to bit strings of one length (`Hashing`). Time is an explicit parameter.
`dafny verify dfyconfig.toml` checks the whole project.

Where the code does not meet what its documentation or the design promises, the model follows the code, shows an
input that fails, and proves the exact condition:

* `AllocateToKClosest` is exact for two tries that start at the root. `provideRegions` passes it the keys of a region
  from the root but the peers from the region's prefix, so it matches the first bits of the keys with later bits of
  the peers (provider/provider.go:1900, provider/internal/keyspace/trie.go:477, 665). Every key of a region reaches
  its `k` closest peers if and only if the region is the whole keyspace or has exactly `k` peers (`ServesClosestIff`,
  `RegionAllocationIff`). `KeyMissesItsPeer` cuts three peers into regions and names the key that misses its peer.
* `FindPrefixOfKey` returns the key of the leaf it ends at also when it reports that no prefix was found, where the
  documentation promises the zero key (provider/internal/keyspace/trie.go:124-145). On a miss the key is empty if
  and only if the way along the searched key does not end at a leaf (`MissYieldsEmptyKeyIff`,
  `MissYieldsOtherKey`).
* The product in `reprovideTimeForPrefix` overflows `int64` from 17 bits on with the default interval of 22 hours,
  although prefixes are cut at 24 bits. Offsets stay in the cycle for all prefixes of a length if and only if the
  largest product fits, or the interval is the largest `int64` (`TimesInRangeIff`, `OverflowingPrefix`,
  `DefaultIntervalLimit`).
* The reprovide timer is not always set for the region that comes up first, so regions can be queued as late without
  reason, or miss a turn. For each step there is the exact condition under which it leaves the timer right.
  * A timely wake-up does if and only if `ClearNext` holds: there is one region only; or the cursor's time has come, no
    other region is due at this very instant, and one of the regions ahead is first (`TimelyNext`). `RegionIsSkipped`
    is a schedule where a wake-up that finds every region late goes past the region it was set for.
  * A wake-up after a missed cycle does if and only if no other region has the time of the new cursor
    (`RequeuedIsFirstIff`).
  * Removing the cursor's region does if and only if `ClearRemoval` holds: no region that stays has the time of the one
    that follows, and that one has not passed since the timer start unless all have (`FollowerIsFirstIff`).
  * Adding a region while the timer runs does if and only if `ClearInsertion` holds: the time of the new region has not
    passed since the timer start, it is not the cursor's time, and the cursor is not due in a whole interval; the
    condition for an overdue timer is there too (`InsertedIsFirstIff`). `LateRegionIsMissed` is a schedule where a
    region added after its time is found late at the next wake-up.
* `TrieGaps` is not the complement of the trie under the target if the search meets a leaf above the target. It is
  if and only if `GapsAreExact` holds (`GapsComplementIff`, `LeafHidesTarget`), and its callers stay inside that
  condition.
* `ShortestCoveredPrefix` claims the whole keyspace, without any peer, if every returned peer lies exactly on the
  looked-up key. The peers it returns are all peers of the prefix it returns if and only if some peer is not the
  looked-up key (`CoverIsExactIff`, `LonePeerOnKey`).
* A persisted queue is restored if and only if the empty prefix is not queued. The datastore key of the empty prefix
  loses its second part, so the entry is skipped when it is read back (`QueuePersistence.Restart`).
* A caller of `ResetCids` that gives up while its start request is being served, or while it is being told that
  another reset is running, leaves the keystore worker blocked on the unbuffered answer for good, and nothing else
  does (`StuckIffGivenUp`, `StuckForGood`, `StuckIsReachable`).
* An optimistic provide waits for ever if and only if it started no RPC (`WaitHangsIffNoRpcs`,
  `WaitWithoutRpcsHangs`).

## Model

| member | source | states |
|---|---|---|
| Keys.BeforeAtFork | provider/internal/keyspace/trie.go:436-455 | Two keys that part at the end of a path are ordered by that one bit of `order`, and do not overlap |
| Keys.CloserAtFork | provider/internal/keyspace/trie.go:456-470 | XOR distance is decided by the first bit where two candidates part; this is why allocation needs no distances |
| Tries.KeysDoNotOverlap | provider/internal/keyspace/trie.go:125-145 | No key of a trie is a prefix of another one |
| Tries.AddSpec | provider/internal/keyspace/trie.go:325-368 | Adding a key that overlaps no other key adds exactly that entry; a key already there keeps its value |
| Tries.RemoveSpec | provider/internal/queue/prefix.go:95-105 | Removing a key removes exactly that entry and keeps the trie well-formed |
| TrieOps.AllKeysSorted | provider/internal/keyspace/trie.go:32-52 | A traversal visits exactly the stored keys, sorted by XOR order around `order` |
| TrieOps.AllKeysMembers | provider/internal/keyspace/trie.go:112-121 | From whatever depth it starts, a traversal visits every stored key exactly once |
| TrieOps.AllValuesMatch | provider/internal/keyspace/trie.go:99-109 | The values are listed at the positions of their keys |
| TrieOps.FindPrefixOfKeySpec | provider/internal/keyspace/trie.go:128-145 | A stored prefix of a key is found if and only if there is one, and it is that one |
| TrieOps.MissYieldsEmptyKeyIff | provider/internal/keyspace/trie.go:124-145 | On a miss the returned key is empty, as documented, if and only if the descent does not end at a leaf; else it is that leaf's key |
| TrieOps.MissYieldsOtherKey | provider/internal/keyspace/trie.go:124-145 | A search that misses and returns another key |
| TrieOps.FindSubtrie | provider/internal/keyspace/trie.go:149-164 | The returned subtrie holds exactly the entries under the prefix; it is found if and only if there are any |
| TrieOps.PruneSpec | provider/internal/keyspace/trie.go:240-265 | Pruning removes exactly the entries under the prefix, also on tries it left uncollapsed before |
| TrieOps.ReplaceSpec | provider/provider.go:553-589 | Pruning under a prefix and adding the prefix replaces exactly the entries under it |
| TrieOps.ReplaceCoverage | provider/provider.go:553-608 | Such a replacement adds exactly the keyspace of the prefix to what the trie covers |
| NextLeaf.NextIsCyclicSuccessor | provider/internal/keyspace/trie.go:168-234 | On any trie `NextNonEmptyLeaf` returns the next key in XOR order around `order`, wrapping at the end |
| NextLeaf.NextOfStored | provider/internal/keyspace/trie.go:168-234 | From the i-th stored key it moves to the (i+1)-th, from the last to the first |
| NextLeaf.FullTurn | provider/internal/keyspace/trie.go:168-234 | Size many steps from a stored key visit every stored key exactly once and end where they began |
| Coverage.CoalesceShape | provider/internal/keyspace/trie.go:273-294 | A subtrie collapses to the single leaf of its path if and only if it covers the path |
| Coverage.CoalesceSpec | provider/internal/keyspace/trie.go:273-294 | After coalescing, a prefix has one stored prefix above it if and only if the trie covered it jointly before |
| Coverage.CoalesceKeepsCoverage | provider/internal/keyspace/trie.go:268-294 | Coalescing keeps the covered keyspace, identifier by identifier |
| Coverage.CoalesceIsUniqueMinimum | provider/internal/keyspace/trie.go:268-294 | No set of prefixes with the same coverage is smaller than the coalesced trie, and none of its size differs from it |
| Coverage.AddTrieSpec | provider/internal/keyspace/trie.go:318-330 | Adding all entries of a trie that is apart from the result yields the union |
| Coverage.SubtractSpec | provider/internal/keyspace/trie.go:308-368 | Subtraction keeps exactly the entries without a prefix in the other trie |
| Coverage.SubtractCoalesced | provider/provider.go:1407-1412 | After coalescing, subtraction keeps a region if and only if the recent regions together do not cover it |
| CoverMachine.CoveredActsAsLeaf | provider/internal/keyspace/trie.go:571-603 | A subtrie that covers its path acts on every stack like the one key that is its path |
| CoverMachine.TrieWeight | provider/internal/keyspace/trie.go:571-603 | Kraft: the keys of a subtrie weigh at most its path, and exactly that only if they cover it |
| CoverMachine.AbsorbAbove | provider/internal/keyspace/trie.go:586-600 | Popping matching lengths trades stack entries for a shorter prefix of the same total weight |
| CoverMachine.RunKeys | provider/internal/keyspace/trie.go:581-602 | On sorted keys the machine never indexes out of range, and an empty stack means the keys weigh the whole keyspace |
| CoverMachine.MachineDecidesCoverage | provider/internal/keyspace/trie.go:571-603 | The machine accepts a trie if and only if every identifier has a prefix in it |
| CoverMachine.KeyspaceCovered | provider/internal/keyspace/trie.go:571-603 | The loop over sorted keys computes the same, with the lone and the empty leaf as the source treats them |
| Allocation.CloserOnNearSide | provider/internal/keyspace/trie.go:491-567 | For a destination on the item's side of a node only that side competes |
| Allocation.CloserOnFarSide | provider/internal/keyspace/trie.go:491-567 | For a destination on the other side, all destinations of the item's side are closer |
| Allocation.DueAtNode | provider/internal/keyspace/trie.go:491-567 | One node: the near side is served with `k` and the far side with what is left of `k`, or not at all |
| Allocation.ShareAll | provider/internal/keyspace/trie.go:537-557 | With at most `k` destinations every item goes to every destination, once per pair of keys |
| Allocation.AllocateToKClosest | provider/internal/keyspace/trie.go:471-567 | For destinations from the root, the number of times a destination value gets an item value is the number of their key pairs with fewer than `k` strictly closer destinations; with distinct values an item is served once or never. Destinations cut out below a path are served as if their keys began there |
| Allocation.DueOnce | provider/internal/keyspace/trie.go:471-567 | If values are distinct, a pair of an item and a destination is due once if fewer than `k` destinations are strictly closer, else not at all |
| Gaps.SortSpec | provider/internal/keyspace/trie.go:436-455 | Sorting rearranges any list of prefixes so that none precedes an earlier one: XOR order where they part, and an extension before its prefix |
| Gaps.SortUnrelated | provider/internal/keyspace/trie.go:436-455 | Unrelated prefixes come out in XOR order |
| Gaps.SiblingsCover | provider/internal/keyspace/key.go:163-169 | Below a prefix of `k`, an identifier is outside `k` if and only if it is under a sibling prefix of `k` |
| Gaps.InsideComplement | provider/internal/keyspace/trie.go:401-432 | Inside the target the gaps are sorted and hold exactly the identifiers the trie misses |
| Gaps.GapsComplementIff | provider/internal/keyspace/trie.go:382-432 | Gaps and stored keys partition the target's keyspace if and only if the search reaches the target |
| Gaps.LeafHidesTarget | provider/internal/keyspace/trie.go:382-432 | A trie and a target whose gaps are not the complement |
| Regions.RegionsAreFair | provider/internal/keyspace/trie.go:652-667 | Every region holds exactly the peers under its prefix, enough of them if there are enough, and cannot be split further |
| Regions.RegionsAreInOrder | provider/internal/keyspace/trie.go:652-667 | Regions are listed in XOR order around `order`, so they do not overlap |
| Regions.RegionsCover | provider/internal/keyspace/trie.go:652-667 | Every identifier under the path lies in a region |
| Regions.CommonPrefix | provider/internal/keyspace/trie.go:624-632 | The computed prefix is the longest one that all peers share |
| Regions.RegionsFromPeers | provider/internal/keyspace/trie.go:619-650 | The regions partition the peers and the keyspace of their longest common prefix, in schedule order; the descent never fails |
| Regions.AssignKeysToRegions | provider/internal/keyspace/trie.go:670-688 | For any list of regions, every key goes to the first region it lies in and those with the same prefix, keys outside all regions go nowhere |
| Regions.SortedRegionsGetTheirKeys | provider/internal/keyspace/trie.go:670-688 | On the sorted regions of `RegionsFromPeers` every region gets exactly the keys it holds |
| RegionAllocations.RankInRegion | provider/internal/keyspace/trie.go:652-667 | The prefix shared in a region plays no part in which of its peers are closest to a key of it |
| RegionAllocations.MisplacedItem | provider/provider.go:1900-1900 | Unless the region is the whole keyspace or has at most `k` peers, some key of it misses a peer that is among its `k` closest |
| RegionAllocations.RegionAllocationIff | provider/provider.go:1900-1900 | Every set of keys of a region goes to its `k` closest peers of the region if and only if the region starts at the root, has at most `k` peers, or `k` is 0 |
| RegionAllocations.RegionIsEnough | provider/provider.go:843-857 | The `k` closest of all peers to a key of a region with at least `k` peers are those of the region |
| RegionAllocations.ServesClosestIff | provider/provider.go:1880-1900 | Every set of keys of a region goes to its `k` closest of all known peers if and only if the region is the whole keyspace or has exactly `k` peers, or `k` is 0 |
| RegionAllocations.KeyMissesItsPeer | provider/provider.go:1900-1900 | Three peers that are cut into two regions for one copy each, and a key of the second region that misses the peer it lies on |
| RegionAllocations.ProvideRegion | provider/provider.go:1880-1900 | What a region hands out: the allocation relative to its prefix, which is that to the closest of all peers where the region permits it |
| PrefixQueues.PushedCoverage | provider/internal/queue/prefix.go:32-46 | Pushing a prefix adds exactly its own keyspace to what the queue covers |
| PrefixQueues.PushedMembers | provider/internal/queue/prefix.go:32-46 | Pushing drops exactly the extensions of the prefix and repeats nothing |
| PrefixQueues.PushedKeepsOrder | provider/internal/queue/prefix.go:32-46 | Pushing keeps the order of the prefixes that stay |
| PrefixQueues.PushedTakesPlace | provider/internal/queue/prefix.go:32-46 | The pushed prefix stands after exactly the prefixes that stood before all of its extensions; without extensions it is last |
| PrefixQueues.RemovePositions | provider/internal/queue/prefix.go:106-115 | Removing positions in descending order removes exactly the marked prefixes and reports the first position |
| PrefixQueues.PrefixQueue.RemovePrefixes | provider/internal/queue/prefix.go:95-115 | List and trie lose the same prefixes; the position of the first is returned |
| PrefixQueues.PrefixQueue.RemoveSuperstrings | provider/internal/queue/prefix.go:85-91 | Removes the prefix and its extensions, or reports that there is none |
| PrefixQueues.PrefixQueue.Push | provider/internal/queue/prefix.go:32-46 | Extensions are merged into the prefix at the place of the first; a covered prefix changes nothing; others go to the end |
| PrefixQueues.PrefixQueue.Pop | provider/internal/queue/prefix.go:49-59 | Returns the first prefix and drops it from list and trie |
| PrefixQueues.PrefixQueue.RemovePrefix | provider/internal/queue/prefix.go:62-64 | Removes a prefix or its extensions, and says whether there were any |
| PrefixQueues.PrefixQueue.Clear | provider/internal/queue/prefix.go:73-80 | Empties the queue and returns its size |
| ProvideQueues.PushKeepsLinked | provider/internal/queue/provide.go:70-80 | Pushing a prefix with keys under it keeps every key under a queued prefix and every queued prefix with a key |
| ProvideQueues.PurgeKeepsLinked | provider/internal/queue/provide.go:108-170 | Dropping keys and then exactly the orphaned prefixes keeps that link |
| ProvideQueues.OnePrefixPerKey | provider/internal/queue/provide.go:20-38 | A key belongs to at most one queued prefix |
| ProvideQueues.OrphansAreExtensions | provider/internal/queue/provide.go:122-135 | Taking the keys under a prefix orphans exactly its queued extensions, if there are any |
| ProvideQueues.OrphanIsShorter | provider/internal/queue/provide.go:124-135 | Otherwise only the one queued prefix of it can be orphaned |
| ProvideQueues.OrphansOfKeys | provider/internal/queue/provide.go:143-170 | Removing keys orphans exactly the prefixes of removed keys that have no key left |
| ProvideQueues.ProvideQueue.Enqueue | provider/internal/queue/provide.go:59-80 | Adds exactly the given keys and merges the prefix as `Push` does; without keys nothing changes; keys under the prefix keep every key under a queued prefix |
| ProvideQueues.ProvideQueue.Dequeue | provider/internal/queue/provide.go:86-102 | Returns the first prefix with exactly the keys under it, each once, and removes both |
| ProvideQueues.ProvideQueue.DequeueMatching | provider/internal/queue/provide.go:108-137 | Returns exactly the keys under a prefix, each once, and drops exactly the prefixes without keys left |
| ProvideQueues.ProvideQueue.RemoveAll | provider/internal/queue/provide.go:143-170 | Removes exactly the given keys, and exactly the prefixes without keys left |
| ProvideQueues.ProvideQueue.IsEmpty | provider/internal/queue/provide.go:173-177 | No key waits if and only if no prefix is queued |
| ProvideQueues.ProvideQueue.Clear | provider/internal/queue/provide.go:196-205 | Empties the queue and returns the number of keys |
| DatastoreKeys.KeysSortByPosition | provider/internal/queue/provide.go:283-283 | Keys sort by queue position as strings while positions fit into twelve hexadecimal digits |
| DatastoreKeys.KeyRoundTrip | provider/internal/queue/provide.go:349-354 | A datastore key reads back as its prefix, except for the empty prefix, whose key is invalid |
| QueuePersistence.DecodeConcat | provider/internal/queue/provide.go:276-280 | Decoding concatenated multihashes yields them in order |
| QueuePersistence.DecodeMultihashes | provider/internal/queue/provide.go:301-318 | The loop decodes any byte string, or fails if some part of it cannot be parsed |
| QueuePersistence.DeleteAll | provider/internal/queue/provide.go:241-264 | For every batch size the datastore is empty afterwards |
| QueuePersistence.SaveAll | provider/internal/queue/provide.go:266-297 | For every batch size all entries are written, none twice and none left in an uncommitted batch |
| QueuePersistence.Persist | provider/internal/queue/provide.go:214-298 | The datastore holds exactly the queue: per position its prefix with exactly the keys under it |
| QueuePersistence.Drain | provider/internal/queue/provide.go:324-382 | Whatever the entries hold, they join the queue in key order and are deleted; a broken entry ends the loading and nothing is deleted; entries whose keys lie under their prefix keep the queue valid |
| QueuePersistence.LoadedSpec | provider/internal/queue/provide.go:343-371 | Exactly the entries with values before the first broken one are loaded and marked for deletion; loading fails if and only if there is a broken one |
| QueuePersistence.QueryIsOrdered | provider/internal/queue/provide.go:328-333 | The ordered query of a saved queue returns the entries in queue order |
| QueuePersistence.Restart | provider/internal/queue/provide.go:214-382 | Saving and loading restores prefix order and keys and leaves the datastore empty if and only if the empty prefix is not queued; otherwise nothing is restored |
| ReprovideTimes.TimeInRange | provider/provider.go:649-669 | Without overflow the offset is the exact fraction of the interval, rounded down, and lies in the cycle |
| ReprovideTimes.TimeBelowInterval | provider/provider.go:649-669 | Overflow can make an offset negative but never too large |
| ReprovideTimes.TimesFollowOrder | provider/provider.go:649-669 | Without overflow offsets never fall along the schedule order, also for prefixes of different lengths |
| ReprovideTimes.TimesInRangeIff | provider/provider.go:649-669 | For every positive `int64` interval, all offsets for a prefix length lie in the cycle if and only if the largest product does not overflow or the interval is the largest `int64` |
| ReprovideTimes.OverflowingPrefix | provider/provider.go:649-669 | If it overflows and the interval is not the largest `int64`, some prefix of that length gets a negative offset |
| ReprovideTimes.DefaultIntervalLimit | provider/provider.go:67-67 | With the default 22 hours there is no overflow exactly up to 16 bits |
| CatchUp.TimeBetweenIs | provider/provider.go:628-630 | The time to the next occurrence of an offset; a full interval if they are equal |
| CatchUp.ElapsedIs | provider/provider.go:1155-1157 | Up to one interval, the offsets of two instants tell how far apart they are |
| CatchUp.OffsetInCycle | provider/provider.go:617-619 | Offsets count from the start of the cycle and start again with every cycle |
| CatchUp.CollectLate | provider/provider.go:1191-1203 | The loop collects an initial stretch of the turn after the cursor, all of it late, and stops at the first region that is not |
| CatchUp.TurnRises | provider/provider.go:1155-1203 | After the earliest region, regions come up in the order of their distance from the timer start |
| CatchUp.TimelyCatchUp | provider/provider.go:1155-1203 | If the cursor was the first to come up, the late stretch holds exactly the regions other than the cursor that passed since the timer started |
| CatchUp.NextIsFirstIff | provider/provider.go:1191-1207 | The region behind the late stretch is the one that comes up first if and only if it is the only one, or the cursor's time has come, no other region is due right now, and one of those ahead is first |
| CatchUp.TimelyNext | provider/provider.go:1155-1207 | The same for the schedule and the clock: a timely wake-up is followed by a timely one if and only if `ClearNext` holds |
| Punctuality.RequeuedIsFirstIff | provider/provider.go:1164-1190 | After a missed cycle the timer is set for the region that comes up first if and only if no other region has its time |
| Punctuality.FollowerIsFirstIff | provider/provider.go:593-608 | Removing the cursor's region sets the timer for the region that comes up first if and only if no region that stays has the time of the one that follows, and that one has not passed since the timer start unless all have |
| Punctuality.InsertedIsFirstIff | provider/provider.go:573-588 | Adding a region leaves the timer set for the region that comes up first if and only if it has not passed since the timer start, does not have the cursor's time, and the cursor is not due in a whole interval; for an overdue timer, if and only if it does not have the cursor's time and overtakes the cursor only when all regions are late |
| Punctuality.RegionIsSkipped | provider/provider.go:1191-1207 | Regions at 0, 25 and 50 of 100, set at 90 for the first and woken 70 later: all are late, and the cursor becomes the second although the first comes up first |
| Punctuality.LateRegionIsMissed | provider/provider.go:573-588 | A region at 25 that is added at 30, while the timer runs from 0 for the region at 50, does not become the cursor although it is before it |
| Schedules.Successor | provider/provider.go:593-608 | The next region is the cyclic successor; there is none if and only if the schedule is empty |
| Schedules.FirstAfterOffset | provider/provider.go:1164-1187 | After a missed cycle the timer is set for the first region past the current offset, or the first of all |
| Schedules.Scheduler.UnscheduleSubsumed | provider/provider.go:593-608 | Removes exactly the regions under a prefix; a removed cursor moves to its cyclic successor, otherwise the timer stays; the timer goes off at the time of the cursor |
| Schedules.Scheduler.SchedulePrefix | provider/provider.go:553-589 | A covered prefix changes nothing; otherwise it replaces exactly the regions inside it, with its own reprovide time, and cursor and start of the timer are what the removal and then the insertion make of them; the timer goes off at the time of the cursor |
| Schedules.Scheduler.NextTime | provider/provider.go:553-561 | The delay cap for a just reprovided region never changes its time |
| Schedules.Scheduler.MoveCursor | provider/provider.go:573-588 | The new region becomes the cursor, with its own delay, if it is alone, or if the cursor follows it and comes up later; otherwise the timer stays |
| Schedules.Scheduler.RemovalSetsForFirstIff | provider/provider.go:593-608 | The condition for removing the cursor's region, on a schedule and its timer |
| Schedules.Scheduler.SchedulingSetsForFirstIff | provider/provider.go:553-589 | The condition for scheduling a region, on the schedule and the timer that `SchedulePrefix` leaves |
| Schedules.Scheduler.HandleReprovide | provider/provider.go:1136-1238 | After a missed cycle all regions are queued and the timer is set for the first one past the current offset, which comes up first if and only if no other region has its time. Otherwise an initial stretch of late regions is queued and the cursor is the region behind it; if the cursor was the first to come up, these are exactly the regions passed since the timer started, and the new cursor comes up first if and only if `ClearNext` holds. However long the timer has run, every region but the cursor's that has passed since then is queued |
| Schedules.QueueAfterCoverage | provider/provider.go:1191-1224 | Outside the region at hand the queue covers what it covered and the late regions; offline it also covers the region at hand, and online it covers it only if a shorter prefix is queued |
| Schedules.TakenIsNotQueued | provider/provider.go:1219-1221 | Online neither the region at hand nor a part of it stays queued |
| Schedules.Scheduler.EnqueueExpired | provider/provider.go:1407-1412 | Queues in order exactly the regions not jointly covered by recently reprovided ones; the queue covers what it covered and these |
| Schedules.Run | provider/provider.go:532-608 | After every run of schedule, unschedule and wake-up steps regions do not overlap, every time is that of its region, the cursor is scheduled, and the timer goes off at its time |
| Schedules.CollectRegions | provider/provider.go:1449-1463 | The collected trie covers exactly what the recent regions cover and holds only regions among them |
| Grouping.AddGroup | provider/provider.go:1322-1333 | A new group takes in the groups under its prefix; groups stay disjoint and repetition-free |
| Grouping.PrefixFor | provider/provider.go:1309-1321 | A key is grouped under its scheduled region, or under a new one of average length that is scheduled on request |
| Grouping.GroupAndSchedule | provider/provider.go:1287-1336 | The groups partition the distinct keys under non-overlapping prefixes that were scheduled or have average length, and none lies inside a scheduled region; when scheduling, every key has exactly one scheduled prefix; there is no result only if some key is not scheduled and no average length is known |
| Grouping.RegionSharesGroup | provider/provider.go:1303-1333 | Keys of one scheduled region are in one group |
| Grouping.ExtendBinaryPrefix | provider/internal/keyspace/key.go:137-156 | All extensions of a prefix of length `n`, each once; none if `n` is too small |
| Grouping.MissingRegions | provider/provider.go:2073-2080 | The gaps, cut to the average length, hold every long enough identifier the gaps hold; they are at least that long, come from the gaps, and do not overlap if the gaps do not |
| Grouping.RefreshSchedule | provider/provider.go:2057-2124 | Every stored key has exactly one scheduled prefix afterwards, nothing scheduled is lost, every new region holds a stored key and is at least of average length, and offline nothing changes. All regions are queued if and only if that is asked for and their number more than doubles |
| Exploration.SortIsSorted | provider/internal/keyspace/key.go:114-122 | Peers are sorted by XOR distance to the target |
| Exploration.ShortestCoveredPrefix | provider/internal/keyspace/key.go:114-133 | The shortest prefix one of the peers just misses, with exactly the peers under it; the empty prefix without peers if all lie on the target |
| Exploration.FirstFullKeyComesFirst | provider/internal/keyspace/key.go:46-52 | The full key that is looked up for a prefix is the first one under it in XOR order |
| Exploration.AnswerCovers | provider/provider.go:881-898 | An exact answer with a peer that just misses a prefix holds every peer under the prefix |
| Exploration.CoverIsExactIff | provider/internal/keyspace/key.go:114-133 | For an exact answer, the returned peers are all peers under the returned prefix if and only if some peer of the answer is not the target |
| Exploration.LonePeerOnKey | provider/internal/keyspace/key.go:114-133 | A lone peer exactly on the key makes the whole keyspace count as covered, without that peer |
| Exploration.ExploredStep | provider/provider.go:908-911 | Recording a covered prefix keeps the coverage trie in the shape `TrieGaps` needs |
| Exploration.NoGapsMeansAll | provider/provider.go:913-920 | Without gaps every peer under the prefix has been collected |
| Exploration.NextGaps | provider/provider.go:913-931 | The prefix is only shortened when there is no gap and peers are too few, and no further than until there is a gap or the keyspace is covered; the next key to look up is the first one in order that is not covered |
| Exploration.ClosestPeersToPrefix | provider/provider.go:864-946 | For any router: it fails only if a lookup returns nobody; it returns exactly the peers of its lookups, none of which is for a key an earlier one covered; it stops at the first two lookups in a row without new peers or at the last one allowed, or when the lookups cover the whole prefix and there are enough peers or the prefix is empty. If the answers are exact and no lookup meets only itself, every lookup delivers all peers under its prefix, a complete search finds every peer under the final prefix, and every longer prefix has too few peers |
| QueryPeersets.StatesOfSpec | qpeerset/qpeerset.go:24-45 | The list stands for the map from its peers to their states |
| QueryPeersets.QueryPeerset.TryAdd | qpeerset/qpeerset.go:87-96 | Adds an unknown peer as heard, with the peer that referred to it, and changes nothing for a known one |
| QueryPeersets.QueryPeerset.Sort | qpeerset/qpeerset.go:98-104 | Sorts by distance if the flag says so, without changing any peer's state or referrer |
| QueryPeersets.QueryPeerset.SetState | qpeerset/qpeerset.go:108-110 | Changes the state of exactly that peer |
| QueryPeersets.QueryPeerset.GetState | qpeerset/qpeerset.go:114-116 | Returns the state of the peer |
| QueryPeersets.QueryPeerset.GetReferrer | qpeerset/qpeerset.go:120-122 | Returns the peer that first referred to the peer |
| QueryPeersets.QueryPeerset.GetClosestNInStates | qpeerset/qpeerset.go:127-143 | Returns the `n` closest peers in the given states, nearest first, or all if there are fewer |
| QueryPeersets.QueryPeerset.Count | qpeerset/qpeerset.go:152-159 | Counts the peers in a state |
| Lookups.Query.UpdateState | query.go:472-521 | Applies heard, queried and unreachable peers in that order, whenever the source would not panic |
| Lookups.Query.IsStarvationTermination | query.go:381-383 | True if and only if no peer is heard or waiting |
| Lookups.Query.IsLookupTermination | query.go:371-379 | True if and only if the `beta` closest peers that are not unreachable, or all of them if there are fewer, are all queried |
| Lookups.Query.IsReadyToTerminate | query.go:351-367 | Stop function, starvation, completion in that order; otherwise the closest heard peers up to `alpha` waiting ones |
| Lookups.Query.SpawnQueries | query.go:322-349 | Marks exactly the chosen peers as waiting |
| Lookups.Query.HandleUpdate | query.go:289-319 | One turn of the loop: the update, the decision and the spawned queries |
| LookupRuns.ApplyWorkerUpdate | query.go:409-521 | An update from a worker whose peer is waiting never panics and settles exactly that peer |
| LookupRuns.RunKeepsInv | query.go:275-349 | In every state of every run: no panic, ourselves never known, waiting peers are the running workers and queued updates, at most `alpha` |
| LookupRuns.PeersMoveForward | query.go:472-521 | Peers only move from heard to waiting to queried or unreachable, and an ended lookup changes nothing |
| LookupRuns.WorkersNeverBlock | query.go:409-470 | A worker that is done always finds room in the channel, also after the lookup ended |
| LookupRuns.RunsAreFinite | query.go:289-319 | Over a finite universe of peers every run is bounded by its initial measure |
| LookupRuns.NeverStuck | query.go:289-319 | Without an update in the channel an active lookup has a worker running, so the loop never waits for nobody; and, cancellation aside, some step can be taken if and only if the lookup is active or a worker runs |
| LookupRuns.CompletedLookup | query.go:371-379 | On completion the `beta` closest peers that are not unreachable are queried, and every peer they named is known |
| LookupRuns.EndingTurn | query.go:351-367 | A lookup ends by starvation only if everybody known is queried or unreachable, and by completion only if somebody is not; it is stopped if and only if the stop function says so |
| LookupRuns.TurnIsGreedy | query.go:351-367 | A turn that goes on has `alpha` queries outstanding or nobody left to ask, and those it starts are the closest heard of |
| ResettableKeystores.StepKeepsInv | provider/keystore/resettable_keystore.go:211-420 | Every step, a crash included, keeps the marked namespace equal to the abstract contents and the other one on its way to the new contents |
| ResettableKeystores.SinceIsExact | provider/keystore/resettable_keystore.go:211-262 | While a reset runs, exactly the keys put since its start have gone to both namespaces |
| ResettableKeystores.PersistedEffect | provider/keystore/resettable_keystore.go:295-337 | Only a put and the marker write change what a restart would find, and the marker write replaces it all at once |
| ResettableKeystores.ResetReplaces | provider/keystore/resettable_keystore.go:295-420 | A successful reset leaves exactly the keys it was asked for and those put since it started |
| ResettableKeystores.UnfinishedResetsLeaveNoTrace | provider/keystore/resettable_keystore.go:295-420 | Without a marker write, runs with failed or crashed resets leave what they found and the keys put |
| ResettableKeystores.PutsArrive | provider/keystore/resettable_keystore.go:211-262 | While no reset completes and nothing crashes, what is stored and what is on its way are what was, and the keys put, also during resets that fail |
| ResettableKeystores.CrashesLoseOnlyPuts | provider/keystore/resettable_keystore.go:85-144 | With crashes nothing stored is lost, and nothing is stored that was not put |
| ResettableKeystores.CrashRecovers | provider/keystore/resettable_keystore.go:85-144 | After a crash at any point the worker serves the complete old or the complete new contents |
| ResettableKeystores.StuckIffGivenUp | provider/keystore/resettable_keystore.go:295-372 | In every reachable state the worker can go on, by some run without a crash and without anybody giving up, if and only if the caller it serves or rejects has not given up |
| ResettableKeystores.StuckForGood | provider/keystore/resettable_keystore.go:353-372 | Once the caller has given up, no run without a crash moves the worker |
| ResettableKeystores.StuckIsReachable | provider/keystore/resettable_keystore.go:295-372 | Both ways lead there from the empty keystore: a start that is given up, and a second start that is given up while it is rejected |
| ProviderManagers.MirrorsAdd | records/provider_set.go:27-34 | Adding a provider to the set mirrors adding its record to the store |
| ProviderManagers.LoadProviderSet | records/providers_manager.go:350-403 | Deletes exactly the expired and unreadable records of the key and returns exactly the others, each once |
| ProviderManagers.ProviderManager.constructor | records/providers_manager.go:118-139 | Starts with an empty cache over the given store |
| ProviderManagers.ProviderManager.AddProvider | records/providers_manager.go:163-173 | Writes the record, keeps every cached set equal to the store, and marks the record for a running collection |
| ProviderManagers.ProviderManager.GetProviders | records/providers_manager.go:331-347 | Returns exactly the stored providers of the key, each once, after sweeping it if it was not cached: what is left of it is not older than the validity, and nothing else goes; the key is then cached if it has providers |
| ProviderManagers.ProviderManager.BeginGc | records/providers_manager.go:218-235 | Drops the cache and starts a round over a snapshot |
| ProviderManagers.ProviderManager.CollectOne | records/providers_manager.go:193-216 | Deletes a record only if it was not added again since the round began, is still what the snapshot shows, and had expired |
| ProviderManagers.ProviderManager.EndGc | records/providers_manager.go:182-192 | After a round an expired record is only left if it was added again during the round |
| ProviderManagers.Round | records/providers_manager.go:182-235 | A whole round with any additions, queries, evictions and collected records in any order: what was added during the round is there with its last time unless it is older than the validity, of what the round found nothing is deleted that is not, and nothing is left that was too old when the round began and was not added again |
| OptimisticProvides.StepKeepsInv | lookup_optim.go:189-317 | Every step conserves messages, counts and leases, and every RPC has exactly one receiver to come |
| OptimisticProvides.ProtocolIsSafe | lookup_optim.go:189-317 | In every interleaving each peer gets at most one RPC, at most one message is received per RPC, and the channel is closed at most once and only after every send was received |
| OptimisticProvides.RunKeepsReported | lookup_optim.go:244-259 | The recorded outcome of every RPC is how it ended |
| OptimisticProvides.ReturnIsPaced | lookup_optim.go:265-317 | In every run the provide goes on only after the return threshold of RPCs, or all if there are fewer, is counted; the channel is closed if and only if all are counted and they are more than the threshold |
| OptimisticProvides.StepsGoDown | lookup_optim.go:242-317 | After scheduling, every step brings the protocol closer to its end |
| OptimisticProvides.QuiescentIsClean | lookup_optim.go:263-317 | When nothing is left to do but leases, whether or not the shared pool has room for one, the provide has returned, every message is consumed and every lease given back |
| OptimisticProvides.WaitHangsIffNoRpcs | lookup_optim.go:151-161 | Beginning to wait leaves nothing to do if and only if no RPC was started |
| OptimisticProvides.WaitWithoutRpcsHangs | lookup_optim.go:151-161 | Without any RPC the wait can never take another step |

## Left out

- TrieOps.PruneSpec: tries are values that their owners replace; updating a trie in place through shared references, and aliasing of subtries, are not modelled.
- TrieOps.FindSubtrie: peers and multihashes are looked up by hash only; the library trie is modelled by its documented behaviour.
- Gaps.SortSpec: prefixes are taken to be no longer than `order`; the source compares only as many bits as `order` has.
- Schedules.Scheduler.HandleReprovide: the clock is read once per operation, and locks are not modelled.
- Grouping.RefreshSchedule: keystore errors and changes between its two critical sections are left out.
- Exploration.ClosestPeersToPrefix: the router is asked for the looked-up key itself and its answers have keys of full length; the source asks for a random peer ID that shares a prefix with it, and router errors end the search in the source.
- QueuePersistence.Persist: datastore errors, and a crash between deleting the old entries and writing the new ones, are left out.
- LookupRuns.RunKeepsInv: the query filter, peer times and the follow-up queries after a lookup (query.go:100-160) are left out.
- ResettableKeystores.StepKeepsInv: a transition system instead of a class, because crashes fall between single writes; deletions during a reset, the size counters and datastore errors are left out.
- ProviderManagers.ProviderManager.GetProviders: datastore errors and the LRU policy are left out; any entry may be evicted at any time.
- OptimisticProvides.StepKeepsInv: a transition system instead of a class, because its goroutines interleave; the floating-point thresholds and the average-distance stop rule are arbitrary, and so is the moment a lookup ends.
- Converting keys to bytes and datastore keys of the keystore (key.go:76-110, keystore.go) are not part of this model: they would only add easy members.
- Network size estimation, routing table maintenance, message handling, address filters, the full-routing-table client, the crawler and the dual DHT are not part of this model.
