# In-cluster IPAM provider: verified model

A Dafny model of the Cluster API in-cluster IPAM provider, which hands out single addresses and whole prefixes from
pools to claims, and proofs of what it promises. Two linked parts are modelled.

**The allocators.** `Netip.dfy` and `IPSets.dfy` define addresses, prefixes and normalized range sets; `Trie.dfy` holds
the recursive search and count over a block and the decomposition of a set into maximal blocks;
`PrefixAllocator.dfy` and `AddressAllocator.dfy` follow `internal/poolutil`; `PrefixGuarantees.dfy` states what the
prefix allocator promises in terms of `PrefixIsAllocatable` and overlap only. `PrefixRequirements.dfy` and
`AddressRequirements.dfy` read both allocators' promises off the pool spec alone: listed addresses, exclusions, blocks
and what is in use, in elementary arithmetic, without any set that the code builds. `PrefixWebhook.dfy`,
`AddressPools.dfy` and `PrefixPoolStatus.dfy` cover admission, the pool reconcilers and the wake-up predicates on their
status.

**The claim lifecycle.** `ClaimHandlers.dfy` has EnsureAddress and ReleaseAddress. `PoolSafety.dfy` runs pools and
addresses in atomic steps. `ClaimSystem.dfy` drops atomicity: every object has a window of versions from the one in the
controller's cache to the live one, the single worker takes one API call at a time, and users, garbage collection, pool
controllers, caches, errors and restarts act between any two of its calls. `ClaimInvariant.dfy` has the inductive
invariant, `ClaimRuns.dfy` the guarantees over whole runs, and `ClaimReconciler.dfy` the reconciler itself, whose every
call is shown to be a step of that system. `Witnesses.dfy` has runs from the empty state in which the code fails: orphaned
addresses, a missed wake-up and, were a wait to time out, a doubled allocation.

Conventions:

- Addresses of both families lie on one line of natural numbers in the order of `net/netip`: IPv4 first, IPv6 above.
  CIDR blocks follow section 3.1 of RFC 4632 and section 2.3 of RFC 4291. The reserved addresses are the IPv4 network and
  broadcast forms of section 3.2.1.3 of RFC 1122 and the subnet-router anycast address of section 2.6.1 of RFC 4291.
- Lists hold parsed entries; text that does not parse is a value of its own and takes the error branch of the source.
- `netipx.IPSet` and its builder are not part of the repository. Their meaning is defined here, as sorted, disjoint,
  non-touching ranges, and every operation is proved to do what its name says.
- Loops and in-place updates are methods, each tied to a function; the properties are proved of the functions.
- Errors are `Err`, and a call the runtime would abort is `Panic`. Error texts are not modelled.
- Times are nanoseconds of one clock.

Where documentation and code differ, the code is followed: README.md:117 gives the cap of pool totals as 2^64, the code
saturates at the largest int64, 2^63 - 1.

What the lifecycle proofs assume, as the code does: the wait after a create neither fails nor times out (ClaimRuns
shows what happens otherwise); a create or patch call that reports an error has stored nothing; ProtectAddress and ReleaseAddress are
the only finalizers and nobody else removes them; nobody else creates address objects; the pool reference of a claim does
not change.

## Model

| member | source | states |
|---|---|---|
| IPSets.ContainsIffAll | internal/poolutil/prefix.go:250-253 | the one-range containment test on a normalized set means that every address of the block is in the set |
| IPSets.OverlapsIffSome | internal/poolutil/prefix.go:255-256 | the overlap test means that some address of the block is in the set |
| IPSets.Canonical | internal/poolutil/prefix.go:185-198 | two normalized sets with the same addresses are the same list of ranges |
| IPSets.CollectCanonical | internal/poolutil/prefix.go:185-198 | the set built from a list depends only on the union of its entries, not on order, repetition or splitting |
| Trie.SplitPrefix | internal/poolutil/prefix.go:322-340 | the halves of a block tile it, lower half first, each one bit longer; only a single address has none |
| Trie.Prefixes | internal/poolutil/prefix.go:81-85 | the aggregates of a set ascend without overlap, and an aligned block of any size is inside the set exactly when it is inside one aggregate |
| Trie.FindFreeIsFirst | internal/poolutil/prefix.go:237-278 | the trie search finds the lowest block of the target length inside the aggregate that the blocked set does not touch, and nothing exactly when there is none |
| Trie.CountIsCardinality | internal/poolutil/prefix.go:285-320 | the trie count is the number of free blocks of the target length, saturated once |
| Trie.AddCappedIsCapped | internal/poolutil/prefix.go:360-368 | saturating at every addition equals saturating the exact sum |
| Trie.SearchCost | internal/poolutil/prefix.go:250-278 | search and count make at most 1 + 4k(target - bits) calls for a blocked set of k ranges |
| PrefixAllocator.SortedPrefixes | internal/poolutil/prefix.go:222-231 | the in-place sort of a copy yields a sorted permutation and leaves the aggregates of a set as they are |
| PrefixAllocator.SortedUnique | internal/poolutil/prefix.go:222-231 | the comparison is total: a list has only one sorted arrangement |
| PrefixAllocator.SlotInAggregate | internal/poolutil/prefix.go:81-85 | a block inside the pool and clear of the blocked set lies in exactly one of the aggregates, and conversely |
| PrefixAllocator.BuildBlockedSet | internal/poolutil/prefix.go:200-220 | the builder calls make the union of exclusions and prefixes in use, or fail on a malformed exclusion |
| PrefixAllocator.FindFreePrefix | internal/poolutil/prefix.go:65-88 | the loop over sorted aggregates computes the specification function, errors included |
| PrefixRequirements.FindFreePrefixMeets | internal/poolutil/prefix.go:65-88 | from the spec: the result is the lowest aligned block of the allocation length (64 when left out) whose every address is in a listed CIDR, in no exclusion and not in use; "none" exactly when there is no such block; an error exactly when a listed CIDR has host bits or does not parse, an exclusion does not parse or the length is out of bounds |
| PrefixRequirements.CandidateCountMeets | internal/poolutil/prefix.go:91-112 | from the spec: the count is the number of such blocks without regard to use, at most 2^63 - 1 |
| PrefixRequirements.PrefixIsAllocatableMeets | internal/poolutil/prefix.go:115-144 | from the spec: a prefix is allocatable exactly when it parses, has the allocation length and its block is such a block |
| PrefixRequirements.SameUnionsSameChoice | internal/poolutil/prefix.go:185-198 | specs of one length whose CIDRs and exclusions name the same addresses choose alike |
| PrefixRequirements.SameUnionsSameCount | internal/poolutil/prefix.go:185-198 | and count alike |
| PrefixGuarantees.FindFreePrefixIsFirst | internal/poolutil/prefix.go:65-88 | the result is the lowest prefix that PrefixIsAllocatable accepts and that overlaps nothing in use; "none" exactly when there is no such prefix; a configuration error exactly when the configuration is malformed |
| PrefixAllocator.PrefixCandidateCount | internal/poolutil/prefix.go:91-112 | the accumulating loop computes the saturated sum over all aggregates |
| PrefixGuarantees.CandidateCountIsExact | internal/poolutil/prefix.go:91-112 | the count is min(MaxInt, number of prefixes that PrefixIsAllocatable accepts), whatever the overlap or repetition of entries |
| PrefixGuarantees.HandOutIffSlot | internal/poolutil/prefix.go:115-144 | PrefixIsAllocatable without overlap in use means: the right length, aligned, inside the pool, clear of the blocked set |
| PrefixGuarantees.ChoiceDependsOnUnions | internal/poolutil/prefix.go:65-88 | the chosen prefix depends only on the union of the pool prefixes, the union of the blocked addresses and the length |
| PrefixGuarantees.CountDependsOnUnions | internal/poolutil/prefix.go:91-112 | so does the count |
| PrefixGuarantees.FreeIffFound | internal/poolutil/prefix.go:65-88 | allocation succeeds exactly while a candidate is free |
| PrefixGuarantees.GreedyIncreases | internal/poolutil/prefix.go:65-88 | allocating without releases hands out prefixes of the allocation length in strictly increasing order |
| PrefixGuarantees.IncreasingDisjoint | internal/poolutil/prefix.go:65-88 | prefixes handed out in that order are pairwise disjoint |
| PrefixGuarantees.GreedyCapacity | internal/poolutil/prefix.go:65-112 | every such allocation lowers the remaining capacity by exactly one |
| PrefixGuarantees.ExactCapacity | internal/poolutil/prefix.go:65-112 | a pool that only allocates is exhausted after exactly its candidate count of allocations, below the cap exactly PrefixCandidateCount |
| Api.PrefixRoundTrip | internal/poolutil/prefix.go:157-168 | reading a recorded allocation back yields the prefix that was handed out |
| Api.AllocationRangeMeans | internal/poolutil/prefix.go:157-168 | what is read from an address object is the block of addresses that agree with its address in the recorded number of bits, and fails exactly when address or length are missing or out of bounds |
| Api.AddressesToAllocationPrefixSet | internal/poolutil/prefix.go:171-181 | the loop builds the union of the prefixes of all address objects, or fails when one has none |
| Netip.EntryRangeMeans | internal/poolutil/pool.go:153-177 | an entry parses to the range of exactly the addresses it names: the one address, first to last of a hyphenated range, or all that agree with a CIDR in its prefix bits |
| AddressAllocator.PoolSpecToIPSet | internal/poolutil/pool.go:98-134 | the builder calls compute the specification function, with its errors and the index into an empty set |
| AddressRequirements.BuildableMeans | internal/poolutil/pool.go:98-134 | from the spec: the set is built exactly when all entries and the gateway parse and, unless reserved addresses are allowed, the prefix length fits the lowest listed address |
| AddressRequirements.PanicMeans | internal/poolutil/pool.go:116-123 | from the spec: the index into an empty set happens exactly when all entries parse, none is listed and reserved addresses are not allowed |
| AddressRequirements.PoolMeans | internal/poolutil/pool.go:98-134 | from the spec: the set is exactly the listed addresses less exclusions, gateway and, unless allowed, the first and for IPv4 the last address of the subnet of the lowest listed one |
| AddressPools.AcceptedSpecIsExact | internal/poolutil/pool.go:98-134 | for a spec that validation accepts there is no error and no out-of-bounds index, and each address of the set is judged by its own subnet: listed, not excluded, not the gateway and, unless allowed, neither network or anycast nor IPv4 broadcast address |
| AddressPools.SubnetFromAnyAddress | internal/poolutil/pool.go:116-123 | for an accepted spec every listed address infers the same subnet |
| AddressAllocator.FindFreeAddressSpec | internal/poolutil/pool.go:79-93 | the result is the least pool address not in use, and the error occurs exactly when all are in use |
| AddressAllocator.FindFreeAddress | internal/poolutil/pool.go:79-93 | the nested loops compute that, terminate also on a range that ends at the top address, and probe at most one address more than the pool addresses in use |
| AddressAllocator.IPSetCount | internal/poolutil/pool.go:184-208 | the accumulation returns min(MaxInt, number of addresses in the set) |
| AddressAllocator.AddressesOutOfRangeIPSet | internal/poolutil/pool.go:38-50 | exactly the parsable addresses in use that the pool set does not hold |
| AddressAllocator.InUseHas | internal/controllers/ipaddressclaim_address.go:139-142 | the set of taken addresses is exactly the addresses in use and the gateway |
| PrefixWebhook.Validate | internal/webhooks/inclusterprefixpool.go:181-243 | no complaint exactly for a spec with good length, aligned IPv6 prefixes no longer than an allocation, IPv6 gateway and exclusions |
| PrefixWebhook.AcceptableMeans | internal/webhooks/inclusterprefixpool.go:181-243 | from the spec: such a spec lists at least one CIDR, all IPv6 without host bits and no longer than the allocation length of 1 to 128, exclusions of IPv6 addresses only, and an IPv6 gateway or none |
| PrefixWebhook.DefaultMeans | internal/webhooks/inclusterprefixpool.go:80-88 | the default writes 64 for a missing length and changes nothing of what the pool offers |
| PrefixWebhook.AcceptedConfigOk | internal/webhooks/inclusterprefixpool.go:181-243 | an accepted spec never makes the allocator report a malformed configuration |
| PrefixWebhook.AcceptedServes | internal/webhooks/inclusterprefixpool.go:181-243 | an accepted spec without exclusions can serve a claim |
| PrefixWebhook.ValidateUpdate | internal/webhooks/inclusterprefixpool.go:103-150 | an update passes exactly when the length is unchanged, the new spec is valid and every prefix in use stays allocatable |
| PrefixWebhook.UpdateMeans | internal/webhooks/inclusterprefixpool.go:103-150 | from the spec: every object in use records a block of the unchanged length inside the new CIDRs and outside the new exclusions |
| AddressPools.Validate | internal/webhooks/inclusterippool.go:154-231 | no complaint exactly for entries that parse, one family, a good prefix length and gateway, and one subnet holding all addresses |
| AddressPools.AcceptableMeans | internal/webhooks/inclusterippool.go:154-286 | from the spec: validation accepts exactly when something is listed, all parses, everything is of one family, any two listed addresses agree in the first prefix bits, and the grace period is not negative |
| AddressPools.ValidateAddressesAreWithinPrefix | internal/webhooks/inclusterippool.go:263-286 | no complaint exactly when every entry lies inside the subnet of the lowest address |
| AddressPools.ValidateUpdate | internal/webhooks/inclusterippool.go:86-128 | an update passes exactly when the new spec is valid and may still hand out every parsable address in use, stated of its set and from the spec |
| PrefixPoolStatus.GenericPrefixReconcile | internal/controllers/inclusterprefixpool.go:155-224 | the finalizer leaves only when the pool is being deleted and no address is in use; otherwise, exactly for a well-formed spec, the status has as total the number of blocks the spec offers (at most 2^63 - 1), as used the number of objects, as out of range the objects whose block is missing or not offered, and as free total - used + out of range, at least 0 |
| PrefixPoolStatus.ReportedMeans | internal/controllers/inclusterprefixpool.go:193-219 | the status is that one, field by field from the spec |
| PrefixPoolStatus.CountOutOfRange | internal/controllers/inclusterprefixpool.go:199-205 | the loop counts the allocations without a prefix or with one that is not allocatable |
| PrefixPoolStatus.FreeIsExact | internal/controllers/inclusterprefixpool.go:193-219 | for distinct allocations of the right length and a total below the cap, Free is the number of prefixes that can still be handed out, out-of-range allocations included, and the clipping at zero never happens |
| PrefixPoolStatus.FreeMeansAvailable | internal/controllers/inclusterprefixpool.go:193-219 | a positive Free means allocation succeeds, also with repeated allocations and a capped total |
| PrefixPoolStatus.WakesExactlyWhenPossible | internal/controllers/ipaddressclaim_prefix.go:158-171 | the wake-up fires exactly when allocation went from exhausted to possible, also for a capped total while fewer than 2^63 - 1 objects exist |
| AddressPools.GenericReconcile | internal/controllers/inclusterippool.go:159-230 | the finalizer leaves only when the pool is being deleted and no address is in use; otherwise, exactly for a spec whose set can be built, total is the number of addresses it may hand out (at most 2^63 - 1), used the number of objects, free the difference, and out of range the recorded addresses it may not hand out; with the abort case |
| AddressPools.StatusMeans | internal/controllers/inclusterippool.go:202-225 | the status is that one, field by field from the spec |
| AddressPools.GatewayNeverInPool | internal/controllers/inclusterippool.go:202-212 | the gateway correction of the total never fires |
| AddressPools.FreeMeansAvailable | internal/controllers/inclusterippool.go:202-225 | a positive Free means FindFreeAddress succeeds, also with a capped total and out-of-range addresses |
| AddressPools.FreeLessOutOfRange | internal/controllers/inclusterippool.go:202-225 | for distinct addresses and a total below the cap, Free is the number of free addresses less the number in use outside the pool, so it is exact exactly when OutOfRange is zero |
| AddressPools.WakesOnBalance | internal/controllers/ipaddressclaim_address.go:224-237 | the wake-up of IP pools fires exactly when the free addresses equalled the out-of-range ones and now exceed them |
| AddressPools.WakesWhenPossible | internal/controllers/ipaddressclaim_address.go:224-237 | without out-of-range addresses that is the change from impossible to possible; in general a change from exhausted to possible wakes somebody exactly when nothing was out of range before it and Free is positive after it; capped totals included while fewer than 2^63 - 1 objects exist |
| Witnesses.MissedWakeUp | internal/controllers/ipaddressclaim_address.go:224-237 | a run from the empty store to such a change, of a pool with an out-of-range address, that wakes nobody |
| ClaimHandlers.EnsureAddress | internal/controllers/ipaddressclaim_address.go:128-160 | an object that is in the list is left alone; any other gets the lowest address or block that the spec offers and no listed object holds, with the prefix length and the gateway of the spec; "none" exactly when there is none, an error exactly for malformed input |
| ClaimHandlers.AllocateMeans | internal/controllers/ipaddressclaim_prefix.go:110-137 | the same of the allocation step for both pool kinds, from the spec and the listed objects |
| ClaimHandlers.AllocateIsSafe | internal/controllers/ipaddressclaim_prefix.go:110-137 | a new allocation is permitted by the spec and overlaps no entry of the list |
| ClaimHandlers.ApartMeans | internal/controllers/ipaddressclaim_prefix.go:110-137 | "apart", as the invariants use it, means that both objects hold something and share no address |
| ClaimHandlers.AllocatesIffServes | internal/controllers/ipaddressclaim_address.go:138-152 | EnsureAddress fails to allocate exactly when the spec or an object in use is malformed or the pool is exhausted, for both pool kinds |
| ClaimHandlers.AllocationIgnoresOrder | internal/controllers/ipaddressclaim_prefix.go:122-131 | what is allocated does not depend on the order in which the list call returns the addresses |
| ClaimHandlers.ReleaseAddress | internal/controllers/ipaddressclaim_address.go:166-195 | a pool that is there to stay with graceSeconds > 0 releases exactly when graceSeconds * 1000000000 ns have passed since the claim's deletion, and otherwise asks for exactly the missing time; any other pool releases at once |
| ClaimHandlers.RequeuedUntilOver | internal/controllers/ipaddressclaim_address.go:184-192 | the requeue time is the first moment at which the same pool releases |
| PoolSafety.StepKeepsInv | internal/webhooks/inclusterprefixpool.go:103-150 | a step keeps "every address in an existing pool, permitted by its current spec, overlapping no other" exactly when it is not a skip-annotated deletion of an unprotected pool in use |
| PoolSafety.StepKeepsSeparate | internal/webhooks/inclusterippool.go:131-152 | every step, such deletions included, keeps the objects of a pool readable and free of overlap |
| PoolSafety.AllocationsStayInSpec | internal/webhooks/inclusterprefixpool.go:103-179 | up to a point of a run that invariant has held exactly when no such deletion has happened |
| PoolSafety.PrefixesStayAllocatable | internal/controllers/ipaddressclaim_prefix.go:110-137 | in every run, as long as no skip-annotated deletion has orphaned addresses, each prefix in use has the allocation length and lies in the listed CIDRs and outside the exclusions of the current spec |
| PoolSafety.PrefixesStayDisjoint | internal/controllers/ipaddressclaim_prefix.go:110-137 | in every run, skip annotation or not, the prefixes of a pool are pairwise disjoint |
| PoolSafety.AddressesStayUsable | internal/webhooks/inclusterippool.go:86-128 | in every run, as long as no skip-annotated deletion has orphaned addresses, each address in use is listed by the current spec and never excluded, the gateway or reserved without permission |
| PoolSafety.AddressesStayDistinct | internal/controllers/ipaddressclaim_address.go:128-160 | in every run, skip annotation or not, the addresses of a pool are pairwise different |
| PoolSafety.ProtectedPoolLeavesEmpty | internal/controllers/inclusterippool.go:179-195 | in every run a pool that once carries ProtectPool keeps it until it leaves, and leaves from a state in which no address refers to it, skip annotation or not |
| PoolSafety.AddressesHavePools | internal/webhooks/inclusterippool.go:131-152 | up to a point of a run every address has had its pool exactly when no skip-annotated deletion hit an unprotected pool in use |
| PoolSafety.DeletionAdmitted | internal/webhooks/inclusterprefixpool.go:153-179 | a deletion is admitted exactly with the annotation or when no address refers to the pool |
| PoolSafety.SkipOrphans | internal/webhooks/inclusterippool.go:131-152 | with the annotation an unprotected pool leaves its addresses behind, whatever they are |
| Witnesses.SkippedDeletionOrphans | internal/webhooks/inclusterippool.go:131-152 | a run of three steps from the empty store that does so |
| ClaimInvariant.StepKeepsInv | pkg/ipamutil/reconciler.go:128-316 | every step of every party keeps the invariant of windows, finalizers, worker position and overlap |
| ClaimInvariant.CacheHoldsLive | pkg/ipamutil/reconciler.go:249-264 | unless the worker still waits for it, a live address is in the cache with its allocation |
| ClaimInvariant.LiveAddressIsKept | pkg/ipamutil/reconciler.go:221-241 | EnsureAddress on an address that is alive finds it and keeps its allocation |
| ClaimInvariant.NewAddressIsClear | pkg/ipamutil/reconciler.go:221-241 | EnsureAddress for a new object allocates away from every live address of the pool, although it reads a lagging list |
| ClaimInvariant.AllocationsStay | pkg/ipamutil/reconciler.go:221-247 | no step changes the allocation of a live address, and only the worker's create brings an address into being |
| ClaimRuns.CacheIsCompleteAtBegin | pkg/ipamutil/reconciler.go:249-264 | in every run the cache at the start of each reconcile holds every live address |
| ClaimRuns.LiveAddressesNeverOverlap | pkg/ipamutil/reconciler.go:221-264 | in every run no two live addresses of a pool share an address |
| ClaimRuns.TimeoutDoublesAllocation | pkg/ipamutil/reconciler.go:249-264 | were the wait to time out before the cache holds the new address, the next reconcile could hand out the same one |
| Witnesses.TimeoutOverlaps | pkg/ipamutil/reconciler.go:249-264 | a run from the initial state to such a wait, and on from its time-out to two live addresses that overlap |
| ClaimRuns.LiveAddressHasClaim | pkg/ipamutil/reconciler.go:180-182 | in every run a live address has a live claim of the same pool that carries ReleaseAddress |
| ClaimRuns.RemovedOnlyWhileClaimIsDeleting | pkg/ipamutil/reconciler.go:280-316 | in every run an address is removed only while its claim is being deleted and still there, for a crash or error at any point |
| ClaimRuns.GracePeriodIsKept | internal/controllers/ipaddressclaim_address.go:166-195 | an address is removed only after a reconcile of its deleted claim found the grace period over, by the clock and by the pool that this reconcile read, a version that had been in force |
| ClaimRuns.PoolVersionsWereLive | internal/controllers/ipaddressclaim_address.go:100-125 | every pool version that a cache holds was the live one in an earlier state of the run |
| ClaimRuns.ReusedOnlyAfterGrace | pkg/ipamutil/reconciler.go:280-287 | an address x that one object held is held by the object of another claim of the pool only after such a removal |
| ClaimRuns.AllocationIsStable | internal/controllers/ipaddressclaim_address.go:134-158 | address, prefix length, gateway and pool never change while the object lives |
| ClaimReconciling.ClaimReconciler.Reconcile | pkg/ipamutil/reconciler.go:127-278 | one undisturbed reconcile: the finalizer first, and nothing else of the claim changes; then a claim without an address gets the lowest choice that the spec offers and no cached object holds, with the spec's prefix length and gateway, and goes unserved exactly when the pool that the worker sees is exhausted or something is malformed; a deleted claim is released exactly when the grace period is over; other claims and addresses stay as they are; all of it is steps of the system |
| ClaimReconciling.ClaimReconciler.ReconcileDelete | pkg/ipamutil/reconciler.go:280-316 | releases both address and claim exactly when the grace period is over, else asks to be run again at the first moment it is |
| ClaimReconciling.ClaimReconciler.CreateOrPatch | pkg/ipamutil/reconciler.go:216-247 | succeeds on every live address and leaves it as it is; a claim without one gets the lowest choice with the spec's prefix length and gateway, live and cached, and fails exactly when there is nothing to choose |
| ClaimReconciling.ClaimReconciler.WaitForCache | pkg/ipamutil/reconciler.go:249-264 | polling ends, and after a create it ends with the address in the cache |

## Left out

- Parsing and printing of addresses, CIDRs and ranges, IPv6 zones and IPv4-mapped addresses: `net/netip` and `netipx` are not part of this model.
- A nil pool configuration or nil set: the Go code guards against them, callers never pass them.
- `slices.SortFunc`: its algorithm is not in the repository; an in-place insertion sort with the same comparison stands for it.
- Manager setup, watches, indexes, schemes, patch helpers, RBAC, certificates and logging: of the API only create, get, list, patch, delete, finalizers and deletion marks are kept.
- Owner references and garbage collection: a collected object is a deletion that may happen at any time.
- Conversion to v1alpha1 and generated code copy fields, predicates by kind compare one string, and warnings and error texts steer nothing: none of them can change what is allocated or released.
- Paused objects and cluster lookups: a reconcile that stops early is the Abort step.
- PoolSafety.StepKeepsInv: admission and allocation see the store as it is; that a spec update judged on a stale list keeps every allocation in range is not claimed.
- ClaimInvariant.StepKeepsInv: pool objects are written arbitrarily, which includes every update, deletion and finalizer change of the pool reconcilers and webhooks.
- ClaimRuns.GracePeriodIsKept: one clock for all parties, and timestamps are not rounded to seconds.
- Several workers: the controller runs one (internal/controllers/ipaddressclaim.go:69-72), and so does the model.
- ClaimReconciling.ClaimReconciler.Reconcile: claim status and conditions are not modelled.
