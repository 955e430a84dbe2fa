# A verified model of the Pole registry and configuration server

Pole is a registry and configuration server written in Go. This project models the parts of it
that hold real data-structure and protocol logic and proves properties of them in Dafny 4.11:

- `KeyOrder`, `SearchTree`, `TreeQueries`, `KeyIndex`: the ordered key index of the in-memory store,
  a heap of nodes with parent links (`server/storage/kv.go`). `SearchTree` and `TreeQueries` give the
  effect of each operation on trees as values; `KeyIndex` is the heap code, proved to have that effect.
- `MemoryStore`: the in-memory key-value store, a map and the index its hooks maintain.
- `HashRing`: the consistent-hash ring (`utils/consistency.go`), for every hash function.
- `Lease`: the lease manager as a timed state machine (`server/discovery/discovery_less.go`).
- `Registry`, `RegistryExact`, `ServiceRecords`, `ServiceStorage`, `Names`: the service registry over its two
  stores and the leases, the exact conditions for its invariants, the service records and how they are read
  back, composite names, and the list encoding of cluster names.
- `EventCentre`, `Float64`, `NotifyCentre`: publishers, their channel and subscribers, as interleaved
  steps, with the float64 round trip of `lastSequence` (`notify/msg_notify_center.go`).
- `ConfigWatch`, `ConfigWatchRepaired`: the watch index of the configuration server against the history of
  watch requests, as written and repaired (`server/config/config_core.go`).
- `Common`: an option type, sequences without repeats, and sizes of subsets.

## How the code is followed

The model does what the code does, but for the stand-ins named below. A call that would panic or spin
ends with a flag or an outcome that says so, and what it leaves behind is part of its contract. Where the
code misses its evident purpose, the result is a statement of exactly when it meets it, a concrete
instance of failure, and, where a small change repairs it, a repaired step for which the purpose is proved
without conditions:

- Tree delete (`server/storage/kv.go:253-321`). The minimum search gives nil when the leftmost node has a
  right child; a child that came back nil is dereferenced; a node with a left child only keeps its place
  and loses that child; the root that `deleteVal` returns is dropped. `SearchTree.DeleteExactly` says when
  it panics, what it leaves, and that it works if and only if the key is `Deletable`. Repaired:
  `KeyIndex.KeyTree.DeleteRepaired`.
- The store's deletes never run the hook registered for them, so the index keeps deleted keys, and `Size`
  counts writes (`MemoryStore.IndexAgrees`, `MemoryStore.SizeExactly`; instances
  `MemoryStore.IndexKeepsDropped`, `MemoryStore.SizeCountsWrites`). Repaired: `deletesFireHook`; the counter
  is then still off by rewrites and void deletes (`MemoryStore.HookedSize`).
- The ring (`utils/consistency.go`). Every probe of `AddNode` uses one hash, `RemoveNode` lets only absent
  nodes through, `GetNode` wraps at the last position instead of past it, so a new node can move keys
  between old ones (`HashRing.AddMovesAsWritten`). Repaired: the three `...Repaired` methods; the repaired
  `AddNode` tries the next position when one is taken.
- The lease mixes units: one int64 clock, a negative one, gives a lease of 15 seconds (`Lease.UnitsMixed`),
  and no renewal buys 15 seconds (`Lease.RenewalUnits`).
- The registry looks a cluster up under one key and stores it under another, so clusters lose members, wrong
  kinds pass, and with a cluster named like another one's full name kinds mix
  (`RegistryExact.AsWrittenForgetsFirst`, `RegistryExact.AsWrittenMixesKinds`; exactly when:
  `Registry.AsWrittenForgetsMates`, `RegistryExact.AsWrittenRefusesExactly`,
  `RegistryExact.AsWrittenOneKindExactly`, `RegistryExact.AsWrittenLonelyExactly`). The mode `OneKey` uses one key.
- Store keys carry no namespace, so a registration can take the record of an instance elsewhere
  (`Registry.NamespacesCollide`; exactly when: `RegistryExact.BackedExactly`).
- Service records, cluster lists and persistent instances share the keys of one store, so a new service can
  take the place of another one's cluster list (`ServiceRecords.ListTakenForService`; exactly when:
  `ServiceRecords.RecordedExactly`).
- `lastSequence` goes through float64, so above 2^53 the filter lets older events through and drops newer
  ones (`EventCentre.FilterPassesOlder`, `EventCentre.FilterDropsNewer`; exactly when: `EventCentre.FilterExactly`).
- Deregistering a subscriber looks fast topics up by event instead of by name, and the shared part panics on a
  lone topic without listeners (`NotifyCentre.MsgPublisherCenter.DeregisterSubscriber`; instance
  `NotifyCentre.StillServed`). Both are repaired in `DeregisterSubscriberRepaired`.
- `NewSetWithValues` takes variadic values and is given a slice (`server/config/config_core.go:186`, `:253`); the
  slice becomes one element, which cannot be hashed, so the call panics. A change in a known namespace is
  pushed to nobody, and a request of a known client panics on a new group (`ConfigWatch.AddPanicsExactly`,
  `ConfigWatch.IndexAgreesExactly`; instance `ConfigWatch.WatchFails`). Repaired: `ConfigWatchRepaired`.
- The comment above `FindNearbyLeft` says that looking for 1 in the pictured tree gives nil; the code gives
  1, as the test beside it expects (`TreeQueries.NearbyLeftPicture`).
- `AddWatcher` returns false whatever happens, so `listenConfig` answers every watch it survives with an error.

Each section under a lock is one step. A Go string is a `string` with one char for a byte. CRC-32 and
`proto.Unmarshal` are function parameters, the clock is an argument, the verdicts of the stores are arguments,
marshalling is an injective encoding. Ranging over a Go map takes the keys in an arbitrary order.

Stand-ins. Taken literally the code panics at the first five of these before it does anything, and nothing of
what follows could be stated:

- The hooks of the store are in place and run. A func cannot be a Go map key (`server/storage/kv.go:51`), and
  `AfterWrite` ranges over a set that was never made (`server/storage/kv.go:80-82`).
- `Clusters` and `repository` are empty maps. `ConcurrentMap{}` holds a nil one, and `Put` on it panics
  (`server/discovery/discovery_core.go:146`, `:196`).
- The logger of the event centre logs. It is never set (`notify/msg_notify_center.go:308`).
- The registry and the watch index start as empty maps. Nothing in the repository creates the `ServiceManager`
  or the `WatcherManager`.
- The time wheel is a multiset of tasks, each of which may run at any time, and taking a task in never fails.
  The library's wheel asks for a slice longer than its capacity (`NewTimeWheel` at
  `server/discovery/discovery_less.go:34-38`), which panics, and nothing starts it. A wheel that was made would
  index its slots by the delay, so a deadline that overflowed to a negative one could panic in `DelayExec` after
  the lease is stored (`server/discovery/discovery_less.go:62-67`).
- `storeInstanceInfo` is one step, although no lock covers it (`server/discovery/discovery_core.go:180-236`).

## Model

| member | source | states |
|---|---|---|
| KeyOrder.LessIsLexicographic | server/storage/kv.go:279-283 | a key is less than another if and only if it is a proper prefix of it or has the smaller byte at the first difference, as strings.Compare has it |
| KeyOrder.LessTransitive | server/storage/kv.go:279-283 | byte order of keys is transitive |
| KeyOrder.LessTrichotomy | server/storage/kv.go:298-304 | exactly one of less, equal, greater holds, so the three branches are exhaustive and exclusive |
| SearchTree.SearchFinds | server/storage/kv.go:294-304 | on an ordered tree the search path decides membership |
| SearchTree.InsertAddsKey | server/storage/kv.go:270-285 | insert keeps strict order, adds exactly the key, as a leaf when it was absent, and is the identity when it was present |
| SearchTree.InsertCells | server/storage/kv.go:270-285 | insert links exactly one new cell, or none, and never shares a cell |
| SearchTree.RemoveUndoesInsert | server/storage/kv.go:263-321 | repaired delete of a key just inserted restores the tree, node by node |
| SearchTree.LeftmostIsLeast | server/storage/kv.go:253-261 | the repaired minimum search finds the least key |
| SearchTree.RemoveKey | server/storage/kv.go:287-321 | repaired delete: strictly ordered, keys are exactly the old keys minus the key, for every key and tree, root and two-child nodes included |
| SearchTree.RemoveCells | server/storage/kv.go:294-321 | repaired delete shares no cell and links none that was not there |
| SearchTree.RemoveCellCount | server/storage/kv.go:294-321 | repaired delete unlinks one cell exactly when the key is present |
| SearchTree.FoundMin | server/storage/kv.go:253-261 | findMinNode as written finds the leftmost node exactly when it is a leaf, and nil otherwise |
| SearchTree.DeleteLeastLeaf | server/storage/kv.go:304-307 | deleting a least key held by a leaf removes it, and panics unless the tree was that leaf |
| SearchTree.DeleteValPanics | server/storage/kv.go:294-321 | deleteVal as written panics exactly on an absent key, on a leaf below the top, and on a two-child node whose right child is no leaf |
| SearchTree.DeleteValKeys | server/storage/kv.go:294-321 | the order is kept and the keys left are known, in every case, panics included |
| SearchTree.DeleteExactly | server/storage/kv.go:287-321 | Delete as written, every tree and key: when it panics, which keys it leaves, and that it returns with exactly the key removed if and only if the key is Deletable |
| SearchTree.DeleteValCells | server/storage/kv.go:294-321 | deleteVal as written never shares a cell and links none that was not there |
| SearchTree.DeleteFaults | server/storage/kv.go:287-321 | one concrete tree for each fault of Delete |
| TreeQueries.NearbyLeftAnswer | server/storage/kv.go:200-216 | nil exactly when all keys are below v; an answer at or above v is the least such key; below a smaller answer all keys strictly between are in its right subtree |
| TreeQueries.NearbyLeftBelow | server/storage/kv.go:200-216 | the answer is below v if and only if the first node at or above v on the right spine has a leftmost key below v |
| TreeQueries.NearbyLeftExactly | server/storage/kv.go:200-216 | the answer itself: down the right spine to the first key at or above v, then the first key below v on the left spine there, or its end |
| TreeQueries.NearbyLeftFound | server/storage/kv.go:200-216 | the answer is the very node a search for its key arrives at |
| TreeQueries.NearbyLeftPicture | server/storage/kv.go:187-198 | the answers for 5, 3 and 1 in the tree drawn in the source |
| TreeQueries.LevelsListEachCellOnce | server/storage/kv.go:153-185 | level d is the non-empty list of cells at depth d from left to right, there are as many levels as the height, and every cell occurs exactly once |
| TreeQueries.LevelsIncrease | server/storage/kv.go:153-185 | within a level the keys increase |
| TreeQueries.NextGeneration | server/storage/kv.go:166-182 | the levels of a queue are its roots followed by the levels of its children |
| KeyIndex.Node.constructor | server/storage/kv.go:272-277 | a new node has the key and parent and no children |
| KeyIndex.InsertVal | server/storage/kv.go:270-285 | in place: child and parent links afterwards are those of the tree with the key inserted, the one new cell is fresh |
| KeyIndex.FindMinNode | server/storage/kv.go:253-261 | returns the node findMinNode finds, or nil |
| KeyIndex.DeleteNode | server/storage/kv.go:294-321 | in place: panic or return as SearchTree.DeleteVal says, with child and parent links as it says, also after a panic |
| KeyIndex.DeleteFromLeft | server/storage/kv.go:298-300 | the left subtree is replaced and re-parented, with a panic when it came back nil |
| KeyIndex.DeleteFromRight | server/storage/kv.go:301-303 | the right subtree is replaced and re-parented, with a panic when it came back nil |
| KeyIndex.ReplaceBySuccessor | server/storage/kv.go:304-307 | a two-child node takes its successor's key, or the call panics before or after |
| KeyIndex.RemoveVal | server/storage/kv.go:294-321 | repaired delete in place has exactly the links of Remove |
| KeyIndex.FindNearbyLeftNode | server/storage/kv.go:200-216 | returns the node of NearbyLeft |
| KeyIndex.SeekLevelFrom | server/storage/kv.go:161-184 | the queue loop ends and returns exactly the level lists |
| KeyIndex.KeyTree.constructor | server/storage/kv.go:145-151 | an empty, well-formed tree of size 0 |
| KeyIndex.KeyTree.Insert | server/storage/kv.go:263-268 | well-formed, keys plus v, no node changed when v was there, size grows in any case |
| KeyIndex.KeyTree.Delete | server/storage/kv.go:287-292 | as written: well-formed whatever happens, outcome and tree as SearchTree.Delete, size drops unless it panics |
| KeyIndex.KeyTree.DeleteRepaired | server/storage/kv.go:287-292 | well-formed with consistent parent links, keys are exactly the old ones minus v |
| KeyIndex.KeyTree.FindNearbyLeft | server/storage/kv.go:194-198 | the three cases of the answer, on the heap; one below v is the left child of a node at or above v |
| KeyIndex.KeyTree.SeekLevel | server/storage/kv.go:153-185 | the level lists of the stored tree, each node once, with increasing keys in each level |
| MemoryStore.ReadsLastWrite | server/storage/kv.go:398-435 | a key reads as v exactly when the last operation on it wrote v |
| MemoryStore.LostKey | server/storage/kv.go:421-435 | a written key is gone exactly when some drop of it was not followed by a write |
| MemoryStore.IndexAgrees | server/storage/kv.go:363-369 | over every history the index holds every live key, and no other if and only if every drop of a written key is undone later |
| MemoryStore.PutsCountKeys | server/storage/kv.go:263-268 | Size is at least the number of distinct keys written, equal exactly when none was written twice |
| MemoryStore.SizeExactly | server/storage/kv.go:441-443 | Size is the number of live keys exactly when no key was written twice and none was lost |
| MemoryStore.IndexKeepsDropped | server/storage/kv.go:421-426 | a key written and deleted stays in the index and in Size |
| MemoryStore.SizeCountsWrites | server/storage/kv.go:263-268 | a key written twice counts twice |
| MemoryStore.HookedSize | server/storage/kv.go:263-292 | with the hook fired, over every history the counter is the number of live keys plus the writes of live keys less the deletes of absent ones |
| MemoryStore.BatchReads | server/storage/kv.go:408-419 | after a batch a key reads as the value at its last place in the batch, and as before when it has none |
| MemoryStore.DropReads | server/storage/kv.go:428-435 | after a batch of deletes none of its keys reads, and every other one reads as before |
| MemoryStore.MemoryKVStorage.constructor | server/storage/kv.go:356-372 | an empty store with an empty index |
| MemoryStore.MemoryKVStorage.Write | server/storage/kv.go:398-406 | map, index and size follow the history extended by the write |
| MemoryStore.MemoryKVStorage.WriteBatch | server/storage/kv.go:408-419 | each key reached reads as the value at its last place and every other one as before; panics exactly when values run out, keeping the writes before |
| MemoryStore.MemoryKVStorage.Delete | server/storage/kv.go:421-426 | as written the index keeps the key; with the hook fired map and index keep the same keys |
| MemoryStore.MemoryKVStorage.DeleteBatch | server/storage/kv.go:428-435 | none of the keys reads afterwards, every other one reads as before |
| MemoryStore.MemoryKVStorage.Read | server/storage/kv.go:382-386 | the last value written, nil otherwise |
| MemoryStore.MemoryKVStorage.Size | server/storage/kv.go:441-443 | as written at least the number of stored keys, and when equal; with the hook fired the exact difference |
| HashRing.AddMovesOnlyToNew | utils/consistency.go:33-53 | with clockwise ownership, adding a node moves keys only to it, for every ring and key |
| HashRing.RemoveMovesOnlyOwned | utils/consistency.go:55-79 | with clockwise ownership, removing a node changes the owner only of keys it owned |
| HashRing.RemoveUndoesAdd | utils/consistency.go:33-79 | removing an added node restores the circle |
| HashRing.AddMovesAsWritten | utils/consistency.go:33-98 | as written, for every ring, node and key: adding keeps the owner or gives the key to the new node if and only if the position does not shake the key or both ends of the ring have one owner |
| HashRing.AddMovesBetweenOldNodes | utils/consistency.go:81-98 | an instance: a ring of two nodes in which adding a third moves a key between the old two |
| HashRing.ProbeSpins | utils/consistency.go:39-46 | the probe loop ends exactly when the position is free |
| HashRing.IncreasingUnique | utils/consistency.go:50-52 | a strictly increasing list is determined by its elements |
| HashRing.SortSlice | utils/consistency.go:50-52 | sorted strictly, same positions |
| HashRing.ScanIsFirst | utils/consistency.go:87-89 | the linear scan is the first position at or after the code |
| HashRing.ConsistentHash.constructor | utils/consistency.go:22-31 | an empty ring in step |
| HashRing.ConsistentHash.AddNode | utils/consistency.go:33-53 | exactly when the call never returns; otherwise array and map stay in step and the circle grows by the node's position only |
| HashRing.ConsistentHash.Rebuild | utils/consistency.go:61-77 | the circle without one node's positions, sorted array in step |
| HashRing.ConsistentHash.RemoveNode | utils/consistency.go:55-79 | as written no call changes anything |
| HashRing.ConsistentHash.RemoveNodeRepaired | utils/consistency.go:55-79 | exactly the node's positions go, array and map stay in step |
| HashRing.ConsistentHash.AddNodeRepaired | utils/consistency.go:33-53 | ends with exactly the wanted number of new positions, all the node's and the first free ones clockwise from its hash, array and map in step |
| HashRing.FreePosition | utils/consistency.go:39-46 | the first free position clockwise from the hash |
| HashRing.ConsistentHash.Search | utils/consistency.go:87-89 | binary search agrees with the linear scan |
| HashRing.ConsistentHash.GetNode | utils/consistency.go:81-98 | panics exactly on the empty ring; a live owner otherwise, the clockwise one if and only if the code is at or below the last position but one or both ends have one owner |
| HashRing.ConsistentHash.GetNodeRepaired | utils/consistency.go:81-98 | the clockwise owner, always live |
| Lease.DeadlineFromHistory | server/discovery/discovery_less.go:58-84 | in every run a key is leased exactly when a grant was not revoked since, with that grant's deadline plus 15 s per renewal, in int64 arithmetic |
| Lease.ReportsExactly | server/discovery/discovery_less.go:105-120 | in every run a key is reported at t exactly when a check ran at t, at or past the deadline, with no revoke since its grant |
| Lease.ReportsCounted | server/discovery/discovery_less.go:115-116 | in every run a key is reported at t as often as due checks of it ran at t |
| Lease.ReportsInOrder | server/discovery/discovery_less.go:115-116 | reports are sent one after the other |
| Lease.LeasesAreWatched | server/discovery/discovery_less.go:58-120 | in every run each lease has a pending check or was reported since its grant |
| Lease.ChecksConserved | server/discovery/discovery_less.go:58-120 | pending checks of a key are its grants minus its retired checks, so never more than its grants |
| Lease.ClockCongruence | server/discovery/discovery_less.go:62 | the stored deadline is 15 s after the clock at exactly one int64 clock |
| Lease.UnitsMixed | server/discovery/discovery_less.go:58-68 | checks report a lease from 15 s on and not before if and only if the clock was that one, so for no clock from 0 on; how it fails for small and for present-day clocks |
| Lease.RenewalUnits | server/discovery/discovery_less.go:70-77 | a renewal never buys 15 s: it buys a million times that, or overflows into the past |
| Lease.Lessor.constructor | server/discovery/discovery_less.go:27-43 | no leases, no tasks |
| Lease.Lessor.GrantLess | server/discovery/discovery_less.go:58-68 | one Grant step, or a panic for a key-less instance that changes nothing |
| Lease.Lessor.RenewLess | server/discovery/discovery_less.go:70-77 | one Renew step |
| Lease.Lessor.RevokeLess | server/discovery/discovery_less.go:79-84 | one Revoke step |
| Lease.Lessor.RunTask | server/discovery/discovery_less.go:105-120 | one Check step of a pending task |
| Names.CleanExactly | server/discovery/discovery_model.go:17-41 | a name is clean for a separator exactly when no shorter name can be confused with it |
| Names.InstanceKeyInjective | server/discovery/discovery_model.go:23-41 | keys are equal if and only if service, group, cluster, host and int32 port are, for clean names, any host and any port |
| Names.OneReading | server/discovery/discovery_model.go:17-41 | every instance key, of any names, has exactly one clean reading |
| Names.HostPortInjective | server/discovery/discovery_model.go:39-41 | host and port are recovered from their text, whatever the host |
| Names.DecimalInjective | server/discovery/discovery_model.go:39-41 | the decimal text determines the port, negative ones included |
| Names.DecimalRead | server/discovery/discovery_model.go:39-41 | the text of a port is its digits in base ten, without leading zeros, after a minus sign for a negative one |
| Names.KeyText | server/discovery/discovery_model.go:16-41 | the text of one instance key and one list key |
| Names.KeysCollide | server/discovery/discovery_model.go:23-25 | names free of the separator that still collide, and ports that do |
| Names.BuildJoin | utils/common_util.go:143-163 | the text of Join, and the precomputed length is its length |
| Names.JoinLength | utils/common_util.go:150-156 | the length formula |
| Names.JoinAppend | utils/common_util.go:157-163 | one more element adds the separator and the element at the end |
| Names.SplitUndoesJoin | server/discovery/discovery_storage.go:84-88 | splitting undoes Join if and only if the list is non-empty and free of the separator |
| Names.JoinUndoesSplit | utils/common_util.go:143-163 | joining undoes splitting for every text |
| ServiceStorage.KvDiscoveryStorage.SaveService | server/discovery/discovery_storage.go:109-132 | record and cluster list are written, nothing else |
| ServiceStorage.KvDiscoveryStorage.ReadService | server/discovery/discovery_storage.go:73-107 | exactly when it succeeds, and what is left in the query in every case: the record once decoded, and the clusters put before an error |
| ServiceStorage.KvDiscoveryStorage.ReadBatch | server/storage/kv.go:483-499 | the values in order, or an error exactly when a key is missing |
| ServiceStorage.SaveThenRead | server/discovery/discovery_storage.go:73-132 | a saved service reads back with its clusters exactly when it has some, none with a comma, all keys of the store |
| Registry.RegisteredAreBacked | server/discovery/discovery_core.go:57-122 | in every run without colliding keys, in both modes, each registered instance has its value in the store of its kind, and a lease if it sends heartbeats |
| Registry.CleanRunsDoNotCollide | server/discovery/discovery_model.go:17-41 | one namespace and clean names suffice for that |
| Registry.NamespacesCollide | server/discovery/discovery_core.go:57-79 | two namespaces do not: the first instance loses its record |
| RegistryExact.RegisterHere | server/discovery/discovery_core.go:180-236 | response and own cluster of a registration in terms of the state before, in both modes |
| RegistryExact.StoresAfter | server/discovery/discovery_storage.go:109-229 | both stores after a registration, in every case |
| RegistryExact.LeaseAfter | server/discovery/discovery_core.go:228-230 | after a registration, in both modes and every case: one new deadline, 15 s after its clock as the code reckons, and one more pending check if it succeeded and sends heartbeats, and no change of the leases otherwise |
| RegistryExact.NamespacesAfter | server/discovery/discovery_core.go:124-130 | a registration makes its namespace known, even when it fails, and no other one |
| RegistryExact.NamesInPlace | server/discovery/discovery_core.go:136-197 | in every run services and clusters carry the names they are known under |
| RegistryExact.PortsCollide | server/discovery/discovery_core.go:73 | ports 2^32 apart give one instance key |
| RegistryExact.BackedExactly | server/discovery/discovery_core.go:57-79 | a registration keeps every instance backed if and only if it overwrites no other record of an instance elsewhere and, creating a service, no persistent instance has the service's name for its key |
| RegistryExact.BackedThroughoutExactly | server/discovery/discovery_core.go:57-122 | over every run, in both modes: every state is backed if and only if every registration met that condition |
| Registry.SuccessIsBacked | server/discovery/discovery_core.go:180-236 | a successful registration is in place, stored and leased |
| Registry.FailureKeepsStores | server/discovery/discovery_core.go:202-219 | a refused registration in a known cluster leaves stores and leases alone |
| Registry.AddKeepsElsewhere | server/discovery/discovery_core.go:180-236 | a registration leaves every other cluster as it is |
| Registry.AddFrame | server/discovery/discovery_storage.go:213-229 | a registration touches only its own keys in the stores and drops no lease |
| Registry.ClustersHaveOneKind | docs/discovery/discovery_mode.md:64 | with one cluster key, in every run all instances of a cluster have its recorded kind |
| Registry.WrongKindRefused | server/discovery/discovery_core.go:202-209 | with one cluster key the wrong kind is refused and changes nothing, whatever the stores answer; with working stores nothing else fails, and nothing panics |
| Registry.OneKeyKeepsMates | server/discovery/discovery_core.go:180-198 | with one cluster key a registration keeps the other instances of its cluster |
| Registry.AsWrittenForgetsMates | server/discovery/discovery_core.go:182-199 | as written it keeps them exactly when the look-up hits or there are none |
| Registry.AsWrittenKeepsOne | server/discovery/discovery_core.go:182-199 | as written, with no '$' in cluster names, no cluster ever holds two instances |
| Registry.AsWrittenNeverRefuses | server/discovery/discovery_core.go:200-209 | as written, in those states the wrong kind is never refused |
| RegistryExact.AsWrittenRefusesExactly | server/discovery/discovery_core.go:184-220 | as written, any names: refused exactly when the look-up under the full name finds a cluster of the other kind, and exactly when it panics |
| RegistryExact.AsWrittenOneKindExactly | server/discovery/discovery_core.go:182-209 | as written, any names: one kind per cluster is kept if and only if the look-up does not find a fitting cluster while the instance's own cluster has the other kind |
| RegistryExact.OneKindThroughoutExactly | server/discovery/discovery_core.go:182-209 | over every run as written: one kind per cluster in every state if and only if no registration did that |
| RegistryExact.AsWrittenLonelyExactly | server/discovery/discovery_core.go:182-199 | as written, any names: exactly when a registration leaves a cluster with two instances |
| RegistryExact.LonelyThroughoutExactly | server/discovery/discovery_core.go:182-199 | over every run as written: at most one instance per cluster in every state if and only if no registration did that |
| RegistryExact.AsWrittenForgetsFirst | server/discovery/discovery_core.go:182-199 | two registrations into one cluster, of any kinds, both succeed and the first instance is gone |
| RegistryExact.AsWrittenMixesKinds | server/discovery/discovery_core.go:182-209 | three registrations after which a cluster holds two kinds |
| Registry.RemoveExactly | server/discovery/discovery_core.go:81-122 | when a deregistration succeeds, fails or panics; it removes exactly that instance and leaves record and lease behind |
| ServiceRecords.RecordedExactly | server/discovery/discovery_core.go:124-162 | a registration, in both modes, keeps every service recorded, with its empty cluster list, if and only if it writes no persistent instance under a known service's name and creates no service whose name is a known one's list key or the other way round |
| ServiceRecords.RecordedThroughoutExactly | server/discovery/discovery_core.go:57-162 | over every run, in both modes: every state has its records if and only if every registration met that condition |
| ServiceRecords.ServicesAreRecorded | server/discovery/discovery_core.go:124-162 | no clash of names among the requests suffices for that, across namespaces too |
| ServiceRecords.ListTakenForService | server/discovery/discovery_model.go:17-33 | two registrations after which the first service has lost its cluster list |
| Registry.CreateServiceIfAbsent | server/discovery/discovery_core.go:124-162 | on success the service is in the registry |
| Registry.ServiceManager.constructor | server/discovery/discovery_core.go:50-55 | an empty registry |
| Registry.ServiceManager.CreateService | server/discovery/discovery_core.go:124-162 | the state and verdict of CreateServiceIfAbsent |
| Registry.ServiceManager.StoreInstance | server/discovery/discovery_core.go:180-236 | the state and response of StoreInstanceInfo, the panic of the type assertion included |
| Registry.ServiceManager.Add | server/discovery/discovery_core.go:57-79 | one Register step of the run |
| Registry.ServiceManager.Remove | server/discovery/discovery_core.go:81-122 | one Deregister step of the run |
| Float64.RoundMonotone | notify/msg_notify_center.go:337 | the float64 round trip keeps the order |
| Float64.RoundIdempotent | notify/msg_notify_center.go:337 | a float64 value survives the round trip |
| Float64.RoundNearest | notify/msg_notify_center.go:337 | the round trip gives a float64 value, none is nearer, and ties go to the even multiple |
| Float64.RoundSmall | notify/msg_notify_center.go:337 | integers up to 2^53 survive it, 2^53 + 1 does not |
| Float64.RoundTie | notify/msg_notify_center.go:337 | 2^54 + 6 goes up to 2^54 + 8 |
| EventCentre.FifoAndMaximum | notify/msg_notify_center.go:279-338 | under every interleaving accepted events are handled ones then the queue, the queue keeps to its capacity, lastSequence is the largest finished sequence, at least -1, rounded, for every rounding that keeps order |
| EventCentre.Float64IsRounding | notify/msg_notify_center.go:337 | the float64 round trip is such a rounding |
| EventCentre.LastIsMaximum | notify/msg_notify_center.go:337 | lastSequence is the true maximum exactly when that is a float64 value |
| EventCentre.DeliveredExactly | notify/msg_notify_center.go:288-338 | from any state of any run, a walk in progress included, a subscriber gets from its subscription on exactly the events due to it, once each and in order; the event being walked counts exactly when that walk still visits it |
| EventCentre.NothingAfterLeaving | notify/msg_notify_center.go:292-338 | once unsubscribed it gets nothing until it subscribes again, but possibly the event being walked, exactly when that walk still visits it |
| EventCentre.ExpectedAll | notify/msg_notify_center.go:323-334 | without the filter those are all handled events |
| EventCentre.ExpectedNeverDecreases | notify/msg_notify_center.go:325-331 | with it, their rounded sequences never decrease |
| EventCentre.ExactNeverDecreases | notify/msg_notify_center.go:325-331 | where rounding is exact, as it is up to 2^53, the sequences themselves never decrease |
| EventCentre.FilterExactly | notify/msg_notify_center.go:325-337 | for every history and position the filter agrees with the true maximum if and only if the sequence does not lie between the maximum and its float64 value |
| EventCentre.FilterPassesOlder | notify/msg_notify_center.go:325-337 | above 2^53 an older event is let through |
| EventCentre.FilterDropsNewer | notify/msg_notify_center.go:325-337 | above 2^53 a newer event is dropped |
| EventCentre.Publisher.constructor | notify/msg_notify_center.go:84-90 | no events, lastSequence -1 |
| EventCentre.Publisher.PublishEvent | notify/msg_notify_center.go:279-286 | accepted, cancelled or blocked, and exactly when it blocks |
| EventCentre.Publisher.AddSubscriber | notify/msg_notify_center.go:288-290 | one Subscribe step |
| EventCentre.Publisher.RemoveSubscriber | notify/msg_notify_center.go:292-294 | one Unsubscribe step |
| EventCentre.Publisher.HandleNext | notify/msg_notify_center.go:300-338 | the loop over subscribers is a run of Receive, Visit and Finish steps that takes the oldest event; each subscriber gets it once exactly when it wants it, and nobody else does |
| NotifyCentre.Capacity | notify/msg_notify_center.go:77-79 | the size asked for when it is above 32, and 128 otherwise |
| NotifyCentre.WithAll | notify/msg_notify_center.go:354-375 | exactly the subscriber is added, to exactly the listeners of the topics |
| NotifyCentre.WithoutAll | notify/msg_notify_center.go:377-393 | exactly the subscriber goes, from exactly the listeners of the topics |
| NotifyCentre.MsgPublisherCenter.RegisterPublisher | notify/msg_notify_center.go:76-107 | the first registration of a topic makes a new publisher of that capacity; later ones change nothing |
| NotifyCentre.ChannelBounded | notify/msg_notify_center.go:76-107 | the channel of a registered topic never holds more than its capacity, which is at least 33 |
| NotifyCentre.ServedSince | notify/msg_notify_center.go:141-182 | whoever subscribed to a registered topic and has not left gets from then on exactly the events due to it |
| NotifyCentre.MsgPublisherCenter.RegisterSubscriber | notify/msg_notify_center.go:141-182 | which publishers have the subscriber afterwards and which listeners, and what is left when a topic has no publisher; the publishers went through Subscribe steps only |
| NotifyCentre.MsgPublisherCenter.DeregisterSubscriber | notify/msg_notify_center.go:184-208 | as written no publisher is touched, and exactly when it panics |
| NotifyCentre.StillServed | notify/msg_notify_center.go:184-208 | a subscriber that registered and deregistered still gets the next event |
| NotifyCentre.MsgPublisherCenter.DeregisterSubscriberRepaired | notify/msg_notify_center.go:184-208 | with the look-up by name and no panic in the shared part, the subscriber leaves exactly the publishers and listeners of its topics |
| NotifyCentre.MsgPublisherCenter.RemoveListener | notify/msg_notify_center.go:377-393 | the listener leaves its topics; a lone topic without listeners panics |
| ConfigWatch.MergeEffect | server/config/config_core.go:240-257 | as written, for every order of the groups: merge panics exactly on a group the client does not have, adds no group, drops no file and adds only listed ones, all of them when it does not panic |
| ConfigWatch.MergeExactly | server/config/config_core.go:240-257 | the groups before the first new one get their files, and every other group stays as it is |
| ConfigWatch.IndexAsWritten | server/config/config_core.go:112-152 | for every history and client the index holds the groups and the connection of the first request, only listed files, and every file of the requests within those groups |
| ConfigWatch.AddPanicsExactly | server/config/config_core.go:112-152 | a request panics if and only if its client is known and it names a group the client's first request did not |
| ConfigWatch.IndexAgreesExactly | server/config/config_core.go:112-257 | the index agrees with a client's history if and only if all its requests stay within the groups of the first |
| ConfigWatch.NamespaceKnown | server/config/config_core.go:116-122 | a namespace is known exactly when some request named it |
| ConfigWatch.WatchFails | server/config/config_core.go:172-257 | two requests of which the second panics and leaves its group out; the file of the first is listed, and its namespace is known, so that a change of it panics in selectWatcher |
| ConfigWatch.Merge | server/config/config_core.go:240-257 | the loops panic exactly on a group the client does not have, keep the groups, and give the union by group unless they panic; they are MergeInOrder for the order they took |
| ConfigWatch.NewItems | server/config/config_core.go:136-147 | the loops of a first request give its sets by group |
| ConfigWatch.Notify | server/config/config_core.go:260-289 | one push to each given watcher that has the file under the group, and no other |
| ConfigWatch.WatcherManager.AddWatcher | server/config/config_core.go:112-152 | the index follows the history extended by the request; exactly when it panics; the result is false otherwise |
| ConfigWatch.WatcherManager.ListenConfig | server/config/config_core.go:82-96 | no answer exactly when it panics, an error otherwise |
| ConfigWatch.WatcherManager.SelectWatcher | server/config/config_core.go:172-200 | panics exactly when some request named the namespace, and selects nobody |
| ConfigWatch.WatcherManager.OnConfigChange | server/config/config_core.go:157-170 | no change is pushed to anybody; a panic exactly when some request named the namespace |
| ConfigWatchRepaired.IndexMatchesHistory | server/config/config_core.go:112-152 | repaired: for every history and client the index lists exactly the groups and files its requests named, and the first connection |
| ConfigWatchRepaired.OrderDoesNotMatter | server/config/config_core.go:240-257 | repaired: the watch sets depend neither on the order nor on the repetition of requests |
| ConfigWatchRepaired.SinkDependsOnOrder | server/config/config_core.go:126-134 | the connection does: the first one stays |
| ConfigWatchRepaired.MergeRepaired | server/config/config_core.go:240-257 | repaired: the loops give the union by group |
| ConfigWatchRepaired.WatcherManagerRepaired.AddWatcher | server/config/config_core.go:112-152 | repaired: the index follows the history extended by the request; the result is always false |
| ConfigWatchRepaired.WatcherManagerRepaired.ListenConfig | server/config/config_core.go:82-96 | repaired: every watch is answered with an error and in force |
| ConfigWatchRepaired.WatcherManagerRepaired.SelectWatcher | server/config/config_core.go:172-200 | repaired: exactly the watchers of the group, of all clients or the given ones, once each |
| ConfigWatchRepaired.WatcherManagerRepaired.OnConfigChange | server/config/config_core.go:157-170 | repaired: a change is pushed to a client, once, exactly when an earlier request of it listed the file under the group |

## Left out

- The hook holder: sets of functions with one index hook in each of two of them; the store's contracts contain its effect. `RemoveHook` of the store registers instead of removing.
- `Range`, `FindMax`, `FindMin` and `FindNearbyRight` of the tree: a plain traversal, and bodies that do not match their names.
- The Badger store, SQLite, Raft, Distro and the strong and eventual stores: wrappers over libraries or empty bodies.
- `BatchUpdate...`, `RemoveService`, `RemoveCluster`, `RemoveInstance` and `SaveCluster` of the discovery storage, `findAllInstance` and the unused `Cluster` operations: easy members.
- Panicking subscriber callbacks: a recovered panic ends the walk over the subscribers for that event; callbacks return normally here.
- The shared publisher's handler and channel: the same queue without the filter.
- Expiry watchers: a report is the send on `expireKeys`; `NewLessor` never creates that channel, so nothing is ever received from it and the sender blocks.
- The slots and delays of the time wheel: a pending task may run at any time (see the stand-ins).
- RPC, HTTP, authentication, label selectors, member management and health checks.
- KeyIndex.KeyTree.DeleteRepaired: the counter drops for an absent key too, as in the source; only the tree is repaired.
- EventCentre.Publisher.HandleNext: one event with nothing running meanwhile; the interleavings are covered by the steps and their lemmas.
- EventCentre.FifoAndMaximum: sequences whose float64 value leaves int64 (the last 512 below 2^63) are taken without the overflow of the conversion, which Go leaves to the implementation.
- HashRing.ConsistentHash.AddNodeRepaired: asks for room on the circle, since no repair can place more positions than there are.
- Registry.ServiceManager.StoreInstance: objects are values in maps here, so a `Service` or `Cluster` held by two holders is not modelled.
