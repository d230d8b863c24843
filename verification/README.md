# A verified model of nvidia-k8s-ipam

nvidia-k8s-ipam hands out IP addresses in two stages. A controller cuts a pool into parts and gives one to each
node: fixed-size aligned blocks of an `IPPool`, fixed-length prefixes of a `CIDRPool`. A daemon on each node gives
single addresses of its part to containers, remembers them in a store file, keeps a released address back for a
cooldown, and releases reservations whose Pod is gone.

This project models that logic in Dafny and proves what it is for.

**Controller.** Both allocators keep a moving cursor and jump over excluded stretches by division. They are proved
to return exactly what a naive scan of the whole pool, one block or prefix at a time, returns, and to report "none
free" exactly when that scan finds none. A reconcile is proved to be a function of spec, status and node list; from
any status, however inconsistent, its result is disjoint, honours static allocations, is accepted back by the code
that reads it, is sticky when nodes come and go, and is a fixed point.

**Exclusions.** Index conversion, clamping, sort-and-merge, the sweep cover and "is this block used up" are proved
against plain membership in intervals.

**Node.** The store is modelled on the heap: a session works on a deep copy, commit publishes the copy by sharing
it, and sharing is safe because a closed session cannot write. Over whole runs: no address is held twice in a pool;
an entry that was released stays, unchanged, until its cooldown has passed; dynamic grants go round the whole range
before an address comes again; a request across pools is all or nothing; the cleaner releases a reservation only
after a row of "Pod not found" observations longer than its limit. From the spec to the containers: dynamic grants
on different nodes are never the same address, and never one the spec excludes.

## Layout

| file | content |
|---|---|
| Addresses.dfy, AddressBytes.dfy | addresses and networks as numbers; conversion to and from bytes; byte-wise last address |
| Exclusions.dfy | the interval algebra |
| Sequences.dfy, IPPoolAllocator.dfy, IPPoolReconcile.dfy, IPPoolFixedPoint.dfy | blocks of an IPPool |
| SubnetIteration.dfy, CIDRPool.dfy, CIDRPoolScan.dfy, CIDRPoolReconcile.dfy | prefixes of a CIDRPool |
| IPPoolOrder.dfy, CIDRPoolOrder.dfy | which node gets which block or prefix, in plain terms |
| PoolValidation.dfy | validation of pool specs |
| Text.dfy, StoreModel.dfy, Store.dfy | composite keys; the store's operations as functions; the store on the heap |
| NodeRuns.dfy, SessionSteps.dfy, OperationRuns.dfy | runs of session steps, and the heap store taking them; runs of whole operations |
| NodeRanges.dfy, RangeIteration.dfy, NodeAllocator.dfy, WalkOrder.dfy, RoundRobin.dfy | range sets, the cyclic walk, allocation, fairness |
| Handlers.dfy | Allocate and Deallocate requests |
| StaleCleaner.dfy, CleanerPass.dfy | the cleaner |
| NodePools.dfy, NodeIPPools.dfy, NodeGrants.dfy | the configuration a node makes of its part of a pool, and what it grants |
| Overlaps.dfy, PrefixRefusals.dfy, BlockRefusals.dfy | when a node refuses the part it was given |
| Daemon.dfy | the daemon driven by any sequence of requests, passes and restarts |

`dafny verify dfyconfig.toml` checks everything.

## How the source is read

- An address is a family and a number. IPv4-mapped IPv6 addresses are not addresses here: the source turns them
  into IPv4.
- A CIDR is a value. The source compares prefixes as text; the text is taken to be canonical.
- A pool that passed validation has valid ranges; `ValidSpec` says so, and an invalid pool takes the error path.
- Cancellation is a context that is done from some poll on; the clock is a parameter that never goes back; the
  outcome of a file write and the answers of the Pod lookups, one per reservation and pass, are inputs.
- Entries are found by the key made of container id and interface name, and ownership is stated per key. The
  cleaner's claims assume no bar in pool keys and container ids (`Decodable`), which is exactly when its keys decode
  and holds in every run whose requests have none (`OperationsDecodable`).
- Node names are distinct and not empty, as the API server guarantees.
- A call on a closed session panics in the source, so an open session is a precondition.

## What the code does not do

Properties one might expect, with the input that breaks them and the exact condition under which they hold:

- An IPPool reconcile is not idempotent when the status names a node twice: the first run counts both blocks as
  taken and writes one (`NotIdempotentForRepeatedNames`). `IdempotentExactly` says when it is, and two runs always
  reach a fixed point (`ReconcileConverges`).
- A node drops a CIDRPool exclusion that reaches beyond its prefix on both sides. No prefix assigned dynamically is
  affected, a static one can be (`StaticPrefixLosesExclusion`, `AgreeExactly`).
- An exclusion that ends on the network address of a prefix, or starts on its broadcast address, and goes on outside
  becomes a range with its ends reversed on that node, which then refuses every allocation
  (`BorderPrefixUnusable`, `ReversedExactly`, `PrefixServedExactly`).
- Exclusions that overlap pass validation, and a node refuses its whole part of the pool for them. For a block of an
  IPPool it is enough that two pool exclusions share an address anywhere (`BlockRefusals.OverlapUnusable`,
  `BlockServedExactly`); for a prefix of a CIDRPool the address must be one they keep in the prefix
  (`PrefixRefusals.OverlapUnusable`, `PrefixServedExactly`).
- Canonicalising a range whose start is the broadcast address and whose end is missing leaves the end before the
  start (`CanonicalOrdered`, `BroadcastStart`). The node never builds such a range.
- The comment on `Range.Canonicalize` speaks of a default gateway being filled in; the code does not, and neither
  does the model.

## Model

| member | source | states |
|---|---|---|
| `AddressBytes.IntToIPExact` | pkg/ip/cidr.go:98-119 | A number converts to bytes exactly when it is an address of the family, and the bytes have the family's length and stand for that number. |
| `AddressBytes.BytesRoundTrip` | pkg/ip/cidr.go:98-119 | Bytes to number and back gives the same bytes, leading zeroes included. |
| `AddressBytes.OffsetOnBytes` | pkg/ip/cidr.go:25-51 | Adding an offset on bytes succeeds exactly when the sum stays in the address space, and is the sum. |
| `AddressBytes.SetHostBits` | pkg/ip/cidr.go:173-176 | Or-ing every network byte with the inverted mask byte adds the network size minus one. |
| `AddressBytes.LastIPBytes` | pkg/ip/cidr.go:169-181 | The byte-wise last address, with its decrement for broadcast, is the arithmetic one, for every valid network of either family. |
| `Addresses.HostAddresses` | pkg/ip/cidr.go:133-181 | The first and last address for hosts of a network, counted from its base; the broadcast address; and the number of possible addresses is the number from first to last. |
| `Exclusions.SortByStart` | api/v1alpha1/helpers.go:213-215 | A rearrangement of the input ordered by start. |
| `Exclusions.MergeExcludeRanges` | api/v1alpha1/helpers.go:186-245 | Covers exactly the addresses of the input, in sorted ranges with a gap between neighbours, inside the address space. |
| `Exclusions.ClampExcludeRanges` | api/v1alpha1/helpers.go:143-182 | An address is covered exactly when it was covered before and lies in the window. |
| `Exclusions.ExcludeIndexRangeToExcludeRange` | api/v1alpha1/helpers.go:77-104 | Covers exactly the addresses whose index lies in a range with both ends in the address space. |
| `Exclusions.ExcludeIndexRangesCover` | api/v1alpha1/helpers.go:107-138 | For validated ranges, true exactly when every index from 0 to the last is covered; for any ranges, a "true" is right. |
| `Exclusions.UncoveredGap` | api/v1alpha1/helpers.go:121-137 | Where the sorted sweep meets a gap, no range at all covers it. |
| `Exclusions.SingleCover` | pkg/ipam-controller/allocator/allocator.go:327-346 | Separated ranges inside a block cover it exactly when they are the one range from its first to its last address. |
| `Exclusions.IsEntireRangeExcluded` | pkg/ipam-controller/allocator/allocator.go:311-346 | Convert, clamp, merge, compare: true exactly when every address of the block is in a pool exclusion or has its index in a per-node one. |
| `IPPoolAllocator.ScanFindsLowest` | pkg/ipam-controller/allocator/allocator.go:96-155 | The naive block-by-block scan returns the lowest usable block, and none exactly when no block is usable. |
| `IPPoolAllocator.LowestIsFirstUsable` | pkg/ipam-controller/allocator/allocator.go:78-155 | "Lowest usable block" and the result of the naive scan of the whole subnet are the same, in both directions. |
| `IPPoolAllocator.BlocksDisjoint` | pkg/ipam-controller/allocator/allocator.go:257-308 | Two aligned blocks with different starts share no address. |
| `IPPoolAllocator.JumpIsSafe` | pkg/ipam-controller/allocator/allocator.go:190-209 | A jump of whole blocks inside a merged exclusion lands on a block start and passes no usable block. |
| `IPPoolAllocator.ExclusionToTheTop` | pkg/ipam-controller/allocator/allocator.go:190-195 | When the exclusion reaches the last address of the family, no usable block is left. |
| `IPPoolAllocator.AllBlocksExcluded` | pkg/ipam-controller/allocator/allocator.go:89-94 | When the per-node exclusions cover a whole block, no block of the pool is usable. |
| `IPPoolAllocator.CheckAllocation` | pkg/ipam-controller/allocator/allocator.go:257-308 | Accepts exactly the whole aligned blocks of the subnet that are not a single-address gateway block and not fully excluded. |
| `IPPoolAllocator.LoadableExactly` | pkg/ipam-controller/allocator/allocator.go:257-308 | What is accepted, in plain terms: the k-th block counted from the base, or from the address behind it in a subnet of four or more; whole, inside the subnet, not the gateway alone, with an address that is not excluded. |
| `IPPoolAllocator.UsableExactly` | pkg/ipam-controller/allocator/allocator.go:101-155 | What is handed out anew is an acceptable block nobody has that does not end on the broadcast address. |
| `IPPoolAllocator.FirstBlock` | pkg/ipam-controller/allocator/allocator.go:65-73 | An unused pool without exclusions and gateway begins at the address after the network address, or at the network address of the smallest subnets. |
| `IPPoolAllocator.PoolAllocator.Load` | pkg/ipam-controller/allocator/allocator.go:237-255 | Takes an entry exactly when it is acceptable and its start is not taken, recording it and nothing else; the blocks stay pairwise disjoint. |
| `IPPoolAllocator.PoolAllocator.AllocateFromPool` | pkg/ipam-controller/allocator/allocator.go:78-155 | A known node gets its block back; a new node the block the naive scan picks; "no free ranges" only when the scan finds none; errors change nothing. Holds after any loads and calls. |
| `IPPoolAllocator.PoolAllocator.Search` | pkg/ipam-controller/allocator/allocator.go:96-155 | Starting from the cursor, the search ends at the lowest usable block of the whole subnet, or with none when there is none. |
| `IPPoolAllocator.PoolAllocator.GetNextNonExcludedCandidates` | pkg/ipam-controller/allocator/allocator.go:166-217 | The next candidate is further on, and no usable block lies before it. |
| `IPPoolReconcile.CreatePoolAllocatorFromIPPool` | pkg/ipam-controller/allocator/allocator.go:368-413 | The allocator holds the accepted entries of listed nodes, later entries of a node replacing earlier ones while every accepted start stays taken. |
| `IPPoolReconcile.Reconcile` | pkg/ipam-controller/controllers/ippool/ippool.go:74-136 | An invalid pool loses its status; otherwise the written status is the reconcile function of spec, status and nodes, unless cancelled, and then nothing is written. |
| `IPPoolReconcile.ReconciledDisjoint` | pkg/ipam-controller/controllers/ippool/ippool.go:105-133 | From any status: no node is written twice, entries name listed nodes and hold acceptable blocks, and no address is in the blocks of two nodes. |
| `IPPoolReconcile.LoadEntries` | pkg/ipam-controller/allocator/allocator.go:368-413 | What a reconcile writes is accepted back entry by entry under the same spec. |
| `IPPoolReconcile.ReconcileIdempotent` | pkg/ipam-controller/controllers/ippool/ippool.go:105-133 | From a status naming each node at most once, a second run writes the same status, including who gets nothing. |
| `IPPoolReconcile.ReconcileConverges` | pkg/ipam-controller/controllers/ippool/ippool.go:105-133 | From any status at all, two runs reach a fixed point. |
| `IPPoolReconcile.FixedPointAfter` | pkg/ipam-controller/controllers/ippool/ippool.go:105-133 | Seen from its result, one run is a fixed point if and only if it served all nodes or left no usable block unwritten. |
| `IPPoolFixedPoint.AllocAllTally` | pkg/ipam-controller/controllers/ippool/ippool.go:105-133 | A run either serves everybody and uses up one block per waiting node, or runs out of blocks because more nodes were waiting than there were; the blocks held back stay the same. |
| `IPPoolFixedPoint.IdempotentExactly` | pkg/ipam-controller/controllers/ippool/ippool.go:105-133 | Seen from the status before the run: one run is a fixed point if and only if no block held back by a replaced entry could be handed out, or there are at least as many usable blocks as listed nodes without one. |
| `IPPoolReconcile.NotIdempotentForRepeatedNames` | pkg/ipam-controller/allocator/allocator.go:237-255 | A two-address pool and a status with one node twice, where the second run writes something else. |
| `IPPoolReconcile.ReconcileSticky` | pkg/ipam-controller/controllers/ippool/ippool.go:105-133 | A node that had a block and is still listed keeps it, whoever else comes or goes. |
| `IPPoolOrder.WrittenBlock` | pkg/ipam-controller/controllers/ippool/ippool.go:105-133 | Every written block in plain terms; none holds the network address of a subnet of four or more, and none is the gateway alone. |
| `IPPoolOrder.NewNodesInOrder` | pkg/ipam-controller/controllers/ippool/ippool.go:98-129 | Nodes without a block are served in list order, each with a higher block than the one before, and none is passed over. |
| `IPPoolOrder.NewBlocksLowest` | pkg/ipam-controller/controllers/ippool/ippool.go:105-129 | A new block does not end on the broadcast address, and every lower block that was usable after the reload is written for another new node. |
| `IPPoolOrder.NodeWithoutBlock` | pkg/ipam-controller/controllers/ippool/ippool.go:108-118 | When a listed node gets nothing, every block that could be handed out is written or held back. |
| `IPPoolOrder.AcceptableIsKept` | pkg/ipam-controller/allocator/allocator.go:368-413 | An acceptable entry of a listed node, the only one of its node and start, is written again. |
| `IPPoolOrder.WrittenInOrder` | pkg/ipam-controller/controllers/ippool/ippool.go:98-126 | The status is written in the order of the node list. |
| `SubnetIteration.ChildrenPartition` | pkg/ip/cidr.go:183-245 | Each address of the network is in exactly one generated prefix, the one at its index. |
| `SubnetIteration.ChildIndex` | pkg/ip/cidr.go:183-245 | Every valid prefix of the size that starts in the network is generated. |
| `SubnetIteration.PrefixesDisjoint` | pkg/ip/cidr.go:183-245 | Two different prefixes of one size share no address. |
| `SubnetIteration.SubnetIterator.Next` | pkg/ip/cidr.go:233-245 | Returns the prefixes in order, each once, then nothing for ever. |
| `SubnetIteration.SubnetIterator.AdvancePastIP` | pkg/ip/cidr.go:250-282 | Never moves back, passes exactly the prefixes that end by the given address, and refuses the other family without moving. |
| `SubnetIteration.EndsByExactly` | pkg/ip/cidr.go:247-282 | A prefix that is passed has all of its addresses at or below the given one. |
| `CIDRPool.GatewayInside` | api/v1alpha1/helpers.go:31-51 | A computed gateway lies in its own prefix. |
| `CIDRPool.GatewayExactly` | api/v1alpha1/helpers.go:31-73 | The gateway is the address at the index, counted from the base, if that is an address for hosts of the prefix, and there is none otherwise. |
| `CIDRPool.UniqueStatic` | api/v1alpha1/cidrpool_validate.go:102-182 | In a validated pool a prefix, and a node that is named, has one static allocation. |
| `CIDRPool.IsPrefixFullyExcluded` | pkg/ipam-controller/controllers/cidrpool/cidrpool.go:304-340 | True exactly when each address of the prefix up to its last usable one is excluded. |
| `CIDRPool.ValidateAllocation` | api/v1alpha1/cidrpool_validate.go:188-297 | Accepts exactly: the static allocation of a node that has one; otherwise a prefix of the pool that is nobody's static one, with the computed gateway, sharing node, prefix and gateway with at most one entry of the status. |
| `CIDRPool.CheckConflicts` | api/v1alpha1/cidrpool_validate.go:285-296 | No error exactly when no two entries of the status conflict with the allocation. |
| `CIDRPoolScan.ScanFindsLowest` | pkg/ipam-controller/controllers/cidrpool/cidrpool.go:142-201 | The naive prefix-by-prefix scan returns the lowest usable prefix, and none exactly when none is usable. |
| `CIDRPoolScan.LowestIsFirstUsable` | pkg/ipam-controller/controllers/cidrpool/cidrpool.go:142-201 | "Lowest usable prefix" and the result of the naive scan from the first prefix are the same. |
| `CIDRPoolScan.LastUsableIndexIsLastIP` | pkg/ipam-controller/controllers/cidrpool/cidrpool.go:204-214 | Counted from the base of any prefix of the pool, the last usable index is its last address. |
| `CIDRPoolScan.EveryPrefixExcluded` | pkg/ipam-controller/controllers/cidrpool/cidrpool.go:155-157 | The early exit is right: per-node exclusions that cover all usable indexes leave no prefix usable. |
| `CIDRPoolScan.OverlappingExclusionEnd` | pkg/ipam-controller/controllers/cidrpool/cidrpool.go:219-237 | The end of a merged exclusion that meets the prefix, and the furthest such end. |
| `CIDRPoolScan.JumpIsSafe` | pkg/ipam-controller/controllers/cidrpool/cidrpool.go:216-237 | A later prefix that ends by that end is fully excluded. |
| `CIDRPoolScan.GetNewPrefix` | pkg/ipam-controller/controllers/cidrpool/cidrpool.go:142-201 | With an iterator shared by all nodes of a run: the lowest usable prefix of the whole CIDR, and "no free prefixes" only if every prefix is taken, static or fully excluded; nothing usable is ever left behind the iterator. |
| `CIDRPoolReconcile.GetValidExistingAllocations` | pkg/ipam-controller/controllers/cidrpool/cidrpool.go:262-301 | Keeps exactly the entries of listed nodes that are valid against the whole status and not fully excluded. |
| `CIDRPoolReconcile.AllocateNode` | pkg/ipam-controller/controllers/cidrpool/cidrpool.go:99-119 | A node without allocation gets its static one, or the lowest usable prefix with its computed gateway, or nothing when there is none. |
| `CIDRPoolReconcile.Reconcile` | pkg/ipam-controller/controllers/cidrpool/cidrpool.go:77-139 | An invalid pool loses its status; otherwise the written status is the reconcile function of spec, status and nodes, unless cancelled. |
| `CIDRPoolReconcile.ValidApart` | api/v1alpha1/cidrpool_validate.go:285-296 | Two entries of one status that both pass validation hold different prefixes, or are the same entry repeated. |
| `CIDRPoolReconcile.ReconciledDisjoint` | pkg/ipam-controller/controllers/cidrpool/cidrpool.go:89-129 | From any status: no node is written twice, entries name listed nodes, each is a prefix of the configured length inside the CIDR, and no address is in two of them. |
| `CIDRPoolReconcile.StaticsHonoured` | pkg/ipam-controller/controllers/cidrpool/cidrpool.go:103-110 | A static prefix is held only by the node it names, a nameless one by nobody, and a listed node with a static allocation gets it. |
| `CIDRPoolReconcile.NodeWithoutPrefix` | pkg/ipam-controller/controllers/cidrpool/cidrpool.go:99-119 | When a listed node gets nothing, every prefix of the CIDR is written for someone, static or fully excluded. |
| `CIDRPoolReconcile.RightsDoNotConflict` | api/v1alpha1/cidrpool_validate.go:285-296 | Entries of different nodes with different prefixes never trip the conflict check, computed and static gateways included. |
| `CIDRPoolReconcile.WrittenIsValid` | api/v1alpha1/cidrpool_validate.go:188-297 | Every written entry passes validation against the written status. |
| `CIDRPoolReconcile.ReconcileIdempotent` | pkg/ipam-controller/controllers/cidrpool/cidrpool.go:77-139 | From any status, a second run with the same spec and nodes writes the same status. |
| `CIDRPoolReconcile.ReconcileSticky` | pkg/ipam-controller/controllers/cidrpool/cidrpool.go:77-139 | A node that holds a prefix and is still listed keeps it, with its gateway, when other nodes come or go. |
| `CIDRPoolOrder.WrittenEntry` | pkg/ipam-controller/controllers/cidrpool/cidrpool.go:89-129 | Every written entry in plain terms: a prefix of the configured length inside the pool; for a node with a static allocation that prefix and the gateway given there; otherwise the gateway at the index. |
| `CIDRPoolOrder.ValidAllocationExactly` | api/v1alpha1/cidrpool_validate.go:188-297 | Which entry of a status is valid, in plain terms, static and dynamic, gateway and conflicts included. |
| `CIDRPoolOrder.NewNodesInOrder` | pkg/ipam-controller/controllers/cidrpool/cidrpool.go:99-119 | Nodes without prefix and static allocation are served in list order, each with a higher prefix than the one before, and none is passed over. |
| `CIDRPoolOrder.NewPrefixesLowest` | pkg/ipam-controller/controllers/cidrpool/cidrpool.go:142-201 | Every prefix below one that is newly given is written for some node, static or fully excluded. |
| `CIDRPoolOrder.ValidIsKept` | pkg/ipam-controller/controllers/cidrpool/cidrpool.go:262-301 | A valid entry of a listed node that is not fully excluded is written again. |
| `CIDRPoolOrder.WrittenInOrder` | pkg/ipam-controller/controllers/cidrpool/cidrpool.go:120-129 | The status is written in the order of the node list. |
| `PoolValidation.ValidateExclusions` | api/v1alpha1/validate_exclusions.go:31-61 | Accepts exactly the exclusions with both ends in the network and in order. |
| `PoolValidation.ValidatePerNodeExclusions` | api/v1alpha1/validate_exclusions.go:68-159 | Accepts exactly the index ranges in order, inside the part of a node and the 32-bit integers. |
| `PoolValidation.ValidateStaticAllocations` | api/v1alpha1/cidrpool_validate.go:102-182 | Accepts exactly when each entry is a prefix of the pool with its gateway inside and, by the counts, no named node and no prefix occurs twice. |
| `PoolValidation.ValidateCIDR` | api/v1alpha1/cidrpool_validate.go:54-95 | The checks together are what the model calls a valid pool. |
| `PoolValidation.ValidSpecExactly` | api/v1alpha1/cidrpool_validate.go:54-95 | A valid CIDRPool in plain terms, the admissible gateway indexes included. |
| `PoolValidation.ValidateIPPool` | api/v1alpha1/ippool_validate.go:25-95 | A valid IPPool in plain terms: a block has at least one address and no more than the subnet has for hosts. |
| `Text.CutJoin` | pkg/ipam-node/cleaner/cleaner.go:166-168 | Cutting at the first separator undoes joining exactly when the first part has no separator in it. |
| `StoreModel.KeyInjective` | pkg/ipam-node/store/store.go:349-351 | Keys of two owners without underscores in the container id are equal exactly when the owners are. |
| `StoreModel.ReserveExactly` | pkg/ipam-node/store/store.go:209-239 | When a reservation is refused, and everything an accepted one changes: the entry as given with its metadata, cursor and snapshot, and nothing else. |
| `StoreModel.ReleaseExactly` | pkg/ipam-node/store/store.go:302-324 | When a release removes, marks or does nothing, and that it changes nothing else. |
| `StoreModel.ReserveConsistent` | pkg/ipam-node/store/store.go:209-239 | A reservation that is not refused keeps addresses distinct and entries under their owners' keys. |
| `StoreModel.ReleaseConsistent` | pkg/ipam-node/store/store.go:302-324 | So does a release, whatever it does. |
| `Store.DeepCopy` | pkg/ipam-node/types/types.go:38-154 | The copy has the same data, in fresh objects only, each entry map its own. |
| `Store.FileStore.Load` | pkg/ipam-node/store/store.go:111-149 | A store that starts with a file holds, committed, what the file holds. |
| `Store.FileStore.Open` | pkg/ipam-node/store/store.go:111-160 | Takes the lock and gives a session on a copy that shares nothing with the committed data. |
| `Store.Session.Reserve` | pkg/ipam-node/store/store.go:209-239 | Refused for an existing key, then for an address in use, cooling down included; otherwise exactly that entry, cursor and snapshot are set. Committed data stays as it was. |
| `Store.Session.ReleaseReservationByID` | pkg/ipam-node/store/store.go:302-324 | Removes, marks as released, or leaves alone, by cooldown and age; the release time is set once; the result says whether the reservation is gone. |
| `Store.Session.SetLastReservedIP` | pkg/ipam-node/store/store.go:294-299 | Moves the cursor of one pool and nothing else. |
| `Store.Session.GetReservationByID` | pkg/ipam-node/store/store.go:327-335 | The active reservation of the key; a released one counts as none. |
| `Store.Session.ListReservations` | pkg/ipam-node/store/store.go:259-267 | All entries of a pool, released ones included. |
| `Store.Session.ListPools` | pkg/ipam-node/store/store.go:270-277 | The keys of all pools of the copy, empty ones included. |
| `Store.Session.GetLastReservedIP` | pkg/ipam-node/store/store.go:287-291 | The cursor of the pool, none for an unknown pool. |
| `Store.Session.RemovePool` | pkg/ipam-node/store/store.go:280-284 | Removes one pool from the copy and nothing else. |
| `Store.Session.Commit` | pkg/ipam-node/store/store.go:176-189 | Publishes the copy, on disk and in memory, exactly when something was modified and the write succeeds; otherwise committed data is as it was; in every case the session is closed and the lock free. |
| `Store.Session.Cancel` | pkg/ipam-node/store/store.go:192-196 | Closes the session and frees the lock; committed data is as it was. |
| `NodeRuns.RunConsistent` | pkg/ipam-node/store/store.go:209-239 | In every state of every run of sessions, with failed writes and restarts, committed data and the open copy hold no address twice in a pool. |
| `NodeRuns.RunProtected` | pkg/ipam-node/store/store.go:302-324 | Seen from any point between sessions, every entry is still there at any later point unless its cooldown has passed. |
| `NodeRuns.CooldownFloor` | pkg/ipam-node/store/store.go:209-324 | Until the cooldown has passed since its release, set once, an entry stays and nobody, its former owner included, can reserve its address. |
| `SessionSteps.Take` | pkg/ipam-node/store/store.go:111-351 | Every step of the state machine, taken on the heap objects, does to them what the machine does to its values. |
| `OperationRuns.OperationsConsistent` | pkg/ipam-node/handlers/allocate.go:42-79 | In every run of Allocate, Deallocate and cleaner passes, each committed state holds no address twice in a pool. |
| `OperationRuns.OperationsFloor` | pkg/ipam-node/handlers/deallocate.go:26-58 | The cooldown floor between any two committed states of such a run. |
| `OperationRuns.PassFloor` | pkg/ipam-node/cleaner/cleaner.go:99-189 | A cleaner pass drops no entry that is active, or released less than the cooldown ago. |
| `OperationRuns.OperationEvent` | pkg/ipam-node/handlers/allocate.go:42-124 | What Allocate, Deallocate or a cleaner pass commits is one round-robin event of each configured pool, a dynamic grant exactly when the request is granted an address of that pool dynamically. |
| `OperationRuns.OperationsFair` | pkg/ipam-node/allocator/allocator.go:59-162 | In any run of operations, between two requests granted the same address of a pool dynamically, every allocatable address had its turn: a dynamic grant was made on a walk from the cursor that came by it, and granted it or found it held. |
| `OperationRuns.OperationsDecodable` | pkg/ipam-node/cleaner/cleaner.go:166-168 | In any run whose requests have no bar in container id and pool keys, the keys of every committed state decode, as a pass demands. |
| `OperationRuns.CommittedIsLookedUp` | pkg/ipam-node/handlers/allocate.go:198-203 | What a successful request commits names its Pod as the request does, so the cleaner looks it up. |
| `Daemon.Serve` | pkg/ipam-node/store/store.go:111-206 | Whatever sequence of requests, cleaner passes and restarts the daemon gets, the states it commits are a run of operations that answer the commands one by one, so the results on runs hold of it. |
| `NodeRanges.CanonicalOrdered` | pkg/ipam-node/allocator/range.go:36-96 | A canonical range has its ends in order and in the subnet, if and only if it is not the case of a broadcast start without an end. |
| `NodeRanges.CanonicalExactly` | pkg/ipam-node/allocator/range.go:36-96 | When canonicalisation fails, and which ends it fills in. |
| `NodeRanges.BroadcastStart` | pkg/ipam-node/allocator/range.go:36-96 | The exception on a network of four addresses: the canonical range is 7 to 6. |
| `NodeRanges.OverlapsExactly` | pkg/ipam-node/allocator/range.go:130-140 | The four end checks find an overlap exactly when the ranges share an address. |
| `NodeRanges.CanonicalizeSet` | pkg/ipam-node/allocator/range_set.go:62-91 | Accepts exactly the sets that are not empty, of one family, all canonical and without overlaps, and returns the canonical ranges. |
| `RangeIteration.FollowingPos` | pkg/ipam-node/allocator/allocator.go:166-205 | The step to the next address moves one position on in the cyclic order of all addresses. |
| `RangeIteration.PosInjective` | pkg/ipam-node/allocator/allocator.go:166-205 | A position of that order has one address, so a walk sees no address twice. |
| `RangeIteration.RangeIter.constructor` | pkg/ipam-node/allocator/allocator.go:130-162 | The walk begins right after the last reserved address if that is in the set, else at its first address. |
| `RangeIteration.RangeIter.Next` | pkg/ipam-node/allocator/allocator.go:166-205 | Visits positions in cyclic order, each once, passing only gateways of their own range, and ends after one full circle. |
| `NodeAllocator.Allocate` | pkg/ipam-node/allocator/allocator.go:59-90 | For a key without entry, the first address after the last reserved one that is not gateway, excluded or held; "no free addresses" only if all are blocked; errors change nothing. |
| `WalkOrder.InTurnExactly` | pkg/ipam-node/allocator/allocator.go:59-205 | On one range, as every pool has: the granted address is free, and no free address comes before it going up from the last reserved address and round. |
| `NodeAllocator.AllocateStaticIP` | pkg/ipam-node/allocator/allocator.go:92-112 | Grants exactly when some range's subnet contains the address and the store accepts it, and leaves the cursor where it was. |
| `RoundRobin.OnlyDynamicMoves` | pkg/ipam-node/allocator/allocator.go:92-112 | Of all that happens to a pool only a dynamic grant moves the cursor, onto the granted address. |
| `RoundRobin.RoundRobinFair` | pkg/ipam-node/allocator/allocator.go:59-162 | In any run, between two dynamic grants of one address there is for every allocatable address a dynamic grant whose walk, from the cursor an earlier one left, passes it, and which grants it or finds it held. |
| `Handlers.Select` | pkg/ipam-node/handlers/allocate.go:145-181 | With an index, the address that far above the start of the range, refused if it leaves the address space or the range or is the gateway; else the gateway when asked for; else the first requested address in the subnet; else dynamic. |
| `Handlers.ValidateRequest` | pkg/ipam-node/handlers/handlers.go:95-134 | Accepts exactly requests with one or two named pools, container, interface and Pod, and not both the gateway and static addresses asked for. |
| `Handlers.CannotServeExactly` | pkg/ipam-node/handlers/allocate.go:126-223 | When a pool cannot serve a request, in plain terms. |
| `Handlers.BuildRanges` | pkg/ipam-node/handlers/allocate.go:225-246 | Succeeds exactly for usable configurations, with the canonical ranges and exclusions. |
| `Handlers.AllocateInPool` | pkg/ipam-node/handlers/allocate.go:126-223 | Fails exactly when the pool cannot serve the request; success adds one entry, at the selected address with the cursor kept, or at the first free address with the cursor on it. |
| `Handlers.AllocateAll` | pkg/ipam-node/handlers/allocate.go:88-124 | Fails exactly when some pool cannot serve the request or some requested address is selected by no pool; otherwise one reservation per pool, each at the address and with the cursor its pool picks. |
| `Handlers.RequestedExactly` | pkg/ipam-node/handlers/allocate.go:106-121 | A requested address is among the results exactly when a pool of the request selects it: a dynamic grant is never one. |
| `Handlers.CloseSession` | pkg/ipam-node/handlers/handlers.go:68-81 | Commits exactly when there was no error, and reports success exactly when there was none and the commit succeeded. |
| `Handlers.AllocateHandler` | pkg/ipam-node/handlers/allocate.go:42-124 | All or nothing: succeeds exactly when the request is valid and not cancelled, every pool can serve it, every requested address is selected by a pool and the write succeeds; then exactly one active reservation per pool is committed under the caller's key, at the address and with the cursor that pool's turn gives, and nothing else changes; a failure changes nothing. |
| `Handlers.DeallocateHandler` | pkg/ipam-node/handlers/deallocate.go:26-58 | Succeeds exactly when the request is valid, not cancelled, and the write succeeds or there is nothing to release; then it commits, in memory and on disk, the release in each pool in turn; failure changes nothing. |
| `Handlers.ReleasedAllExactly` | pkg/ipam-node/handlers/deallocate.go:41-53 | Each pool named gets its release as if it were the only one, and no other pool changes. |
| `StaleCleaner.SplitStaleKey` | pkg/ipam-node/cleaner/cleaner.go:166-168 | The joined key decodes to its three parts if and only if pool key and container id have no bar. |
| `StaleCleaner.CounterIsStreak` | pkg/ipam-node/cleaner/cleaner.go:150-155 | A counter is the number of "not found" observations in the current unbroken row, which begins with one. |
| `StaleCleaner.StaleNeedsStreak` | pkg/ipam-node/cleaner/cleaner.go:99-189 | Over any history of complete and abandoned passes: a release of an active reservation is preceded by an unbroken row that begins with a "not found" and has more of them than the limit, each a miss in the cache and in the API; an abandoned pass counts for everything it had looked at; and it never happens in a pass that found the Pod. |
| `StaleCleaner.StreakIsReleased` | pkg/ipam-node/cleaner/cleaner.go:159-178 | The other half: after an unbroken row with more "not found" observations than the limit, the last pass releases the reservation. |
| `StaleCleaner.ObservedExactly` | pkg/ipam-node/cleaner/cleaner.go:113-155 | "Not found" is not found in the cache and not found in the API; a Pod found in either is present. |
| `StaleCleaner.FailsExactly` | pkg/ipam-node/cleaner/cleaner.go:134-149 | A pass fails at a reservation exactly when the cache cannot say, or does not find the Pod and the API cannot say. |
| `StaleCleaner.SawOnce` | pkg/ipam-node/cleaner/cleaner.go:113-157 | A pass allows one observation of a key only, so what it looked at cannot pass for not reached. |
| `CleanerPass.CountOne` | pkg/ipam-node/cleaner/cleaner.go:130-155 | Counter of an active reservation: dropped when its Pod is found in cache or API, one more when in neither, untouched without metadata; fails exactly when the lookup does. |
| `CleanerPass.SweepOne` | pkg/ipam-node/cleaner/cleaner.go:118-129 | A cooling-down entry is removed only if its cooldown is over, kept only if it was not over when the pass began, and no other entry is touched. |
| `CleanerPass.ReleaseStale` | pkg/ipam-node/cleaner/cleaner.go:159-178 | Drops counters without a reservation and releases, by the parts of the key, exactly the reservations counted above the limit. |
| `CleanerPass.RemoveEmptyPools` | pkg/ipam-node/cleaner/cleaner.go:179-184 | Removes exactly the listed empty pools that have no configuration. |
| `CleanerPass.Cleaner.Pass` | pkg/ipam-node/cleaner/cleaner.go:99-189 | One pass: given up exactly when a lookup fails, and then the counters of what it had looked at have stepped and no others; otherwise all have. When it commits, expired entries are gone, active ones released exactly when counted above the limit, unconfigured empty pools removed, and entries, cursor, name and snapshot are otherwise unchanged; a failed lookup or write commits nothing. |
| `StaleCleaner.PassExactly` | pkg/ipam-node/cleaner/cleaner.go:99-189 | The result of a committed pass in plain terms, entry by entry and pool by pool. |
| `StaleCleaner.CountedExactly` | pkg/ipam-node/cleaner/cleaner.go:113-155 | The counters a complete pass leaves, in plain terms. |
| `CleanerPass.PassIsRecord` | pkg/ipam-node/cleaner/cleaner.go:99-189 | Every pass, given up or not, is one record of a history. |
| `NodePools.BuildExclusions` | pkg/ipam-node/controllers/cidrpool/cidrpool.go:111-136 | The clipped exclusions that have an end in the prefix, in order. |
| `NodePools.ClipsCover` | pkg/ipam-node/controllers/cidrpool/cidrpool.go:111-136 | Among addresses for hosts they exclude exactly what the exclusions with an end in the prefix do. |
| `NodePools.BuildPerNodeExclusions` | pkg/ipam-node/controllers/cidrpool/cidrpool.go:141-157 | The index ranges counted from the start of the block, converted and clamped to it, in order. |
| `NodePools.PerNodeListCovers` | pkg/ipam-node/controllers/cidrpool/cidrpool.go:141-157 | The converted and clamped index ranges exclude exactly the addresses of the block whose index is excluded. |
| `NodePools.AcceptedExactly` | pkg/ipam-node/allocator/range_set.go:62-91 | The node accepts a configuration of a block exactly when its exclusions have their ends in order and do not overlap. |
| `NodePools.ReconcileCIDRPool` | pkg/ipam-node/controllers/cidrpool/cidrpool.go:41-109 | A configuration exactly when the pool is valid and the first entry naming the node passes validation, and then the one built from that entry. |
| `NodePools.AgreeExactly` | pkg/ipam-node/controllers/cidrpool/cidrpool.go:73-136 | Node and spec exclude the same addresses for hosts if and only if no exclusion encloses the prefix, or the others cover all of it. |
| `NodePools.WrittenForNodes` | pkg/ipam-node/controllers/cidrpool/cidrpool.go:64-90 | Every entry a controller writes is found and accepted by its node, and node and spec agree on exclusions for every prefix assigned dynamically. |
| `NodePools.CIDRPoolGrants` | pkg/ipam-node/controllers/cidrpool/cidrpool.go:73-100 | From any data of the pool, what a node grants dynamically is an address for hosts of its prefix, not its gateway, and not excluded by the spec unless the prefix is static. |
| `NodePools.GrantedExactly` | pkg/ipam-node/handlers/allocate.go:126-223 | Under an accepted configuration the addresses that runs of grants and releases from an unused pool can grant dynamically are exactly those of the range that are neither gateway nor excluded. |
| `NodePools.CIDRPoolServesExactly` | pkg/ipam-node/controllers/cidrpool/cidrpool.go:73-100 | For a prefix assigned dynamically these are exactly the addresses for hosts that are not the gateway and that the spec does not exclude. |
| `PrefixRefusals.ReversedExactly` | pkg/ipam-node/controllers/cidrpool/cidrpool.go:126-132 | Clipping reverses the ends if and only if the exclusion crosses the border on the network or the broadcast address. |
| `PrefixRefusals.PrefixServedExactly` | pkg/ipam-node/controllers/cidrpool/cidrpool.go:73-136 | A node accepts its prefix if and only if no exclusion is reversed by clipping, no two pool exclusions share an address they keep in the prefix, no index lies in two per-node exclusions, and no address is kept by one and indexed by another. |
| `PrefixRefusals.KeepsExactly` | pkg/ipam-node/controllers/cidrpool/cidrpool.go:119-133 | What an exclusion keeps in a prefix, read off the spec, is what its clipped range covers. |
| `PrefixRefusals.ServedWithoutOverlaps` | pkg/ipam-node/controllers/cidrpool/cidrpool.go:73-136 | If no exclusions of the spec overlap, reversed ones are the only obstacle. |
| `PrefixRefusals.StaticPrefixLosesExclusion` | pkg/ipam-controller/controllers/cidrpool/cidrpool.go:103-110 | A pool whose static prefix is fully excluded by the spec and not at all on the node. |
| `PrefixRefusals.BorderPrefixUnusable` | pkg/ipam-node/controllers/cidrpool/cidrpool.go:126-132 | A pool where a prefix that is not excluded is written for a node that can serve no request in it. |
| `PrefixRefusals.OverlapUnusable` | pkg/ipam-node/allocator/range_set.go:79-88 | A pool with one address excluded twice: the prefix of that address is not excluded, is written for a node, and serves no request; the prefix before it is accepted. |
| `NodeIPPools.IPPoolGrants` | pkg/ipam-node/controllers/ippool/ippool.go:55-80 | From any data of the pool, what a node grants dynamically lies in its block and is neither the gateway nor excluded by the spec. |
| `NodeIPPools.IPPoolServesExactly` | pkg/ipam-node/controllers/ippool/ippool.go:55-80 | A node whose configuration is accepted can grant exactly the addresses of its block that are not the gateway and that the spec does not exclude. |
| `BlockRefusals.BlockServedExactly` | pkg/ipam-node/controllers/ippool/ippool.go:55-80 | A node accepts its block exactly when no pool exclusions overlap, no per-node exclusions do, and no address of the block is excluded both ways. |
| `BlockRefusals.OverlapUnusable` | pkg/ipam-node/allocator/range_set.go:79-88 | A pool with one address excluded twice: another block, not excluded and written for a node, serves no request. |
| `NodeGrants.IPPoolGrantsApart` | pkg/ipam-node/controllers/ippool/ippool.go:55-80 | Over any stores and at any times: an address an operation grants dynamically on one node of a status lies in its block, is neither gateway nor excluded, and is never one an operation grants dynamically on another node. |
| `NodeGrants.CIDRPoolGrantsApart` | pkg/ipam-node/controllers/cidrpool/cidrpool.go:73-100 | The same for the prefixes of a CIDRPool; the exclusions bind nodes without a static allocation. |

## Left out

- Kubernetes clients, watches, events, webhooks, leader election, gRPC transport, logging and command line options: plumbing.
- Node selectors: the list of matching nodes is an input.
- Text parsing and printing of addresses, CIDRs and JSON, and the CNI configuration: an unparsable value is a missing one; a request with an unparsable address is refused before anything is done.
- The store file: a write succeeds or fails, a restart reads the last successful write; checksum values, file locks and the refusal of a checksum of zero are not modelled.
- Opening a store whose file cannot be read, and the error paths of `NewSubnetIterator` that pool validation rules out.
- Static address uniqueness across nodes, and uniqueness across status changes while a removed node still runs Pods: not promised by the program.
- Routes and default routes: only whether the destinations parse, which can fail a request after its reservation.
- The IsAllocated handler, metrics and gRPC error codes: they would only add easy members.
- Store.Session.ReleaseReservationByID: the clock reading is a parameter.
- NodeRanges.CanonicalizeSet: returns canonical ranges as a new list; the source rewrites the ranges in place, and no caller sees the difference.
- Exclusions.SortByStart: returns a new list; the source sorts a copy in place, and callers depend only on the order.
- CIDRPoolReconcile.Reconcile: writes the status in the order of the node list; the source collects a map and sorts it by node name.
- NodePools.ReconcileCIDRPool: an exclusion that does not parse is skipped in the source; a validated pool has none.
- NodeIPPools.IPPoolGrants: about the entries a controller writes; the node does not validate an IPPool entry, and what it makes of a broken one is not modelled.
- RoundRobin.RoundRobinFair: for a range set that does not change while the run lasts, as removing an unconfigured empty pool forgets its cursor.
- Pools are named by their store keys; the pool type prefix of a key is not built.
- PoolValidation.ValidateCIDR: pool names, selectors, routes and the default gateway flag are not looked at; a prefix length outside the family cannot be written down in the model.
- PoolValidation.ValidateIPPool: for a parsed subnet; names, selectors, routes and the default gateway flag are not looked at.
- Integer widths: indexes and counters are unbounded, except that validation caps per-node indexes at the largest 32-bit integer.
