/** The prefix pool reconciler (internal/controllers/inclusterprefixpool.go) and the wake-up predicate on its status. */
module PrefixPoolStatus {
  import opened Wrappers
  import opened Netip
  import opened IPSets
  import opened Trie
  import opened Api
  import opened PrefixAllocator
  import opened PrefixGuarantees
  import opened PrefixRequirements
  import opened Powers

  datatype Status = Status(total: int, used: int, free: int, outOfRange: int)

  /** The part of a pool object that the reconciler reads and changes; `protect` is the ProtectPool finalizer. */
  class PrefixPool {
    const spec: PrefixPoolSpec
    var protect: bool
    var deleting: bool
    var status: Option<Status>

    constructor (spec: PrefixPoolSpec)
      ensures this.spec == spec && !protect && !deleting && status == None
    {
      this.spec := spec;
      protect, deleting, status := false, false, None;
    }
  }

  predicate InRangeAllocation(a: IPAddress, config: PrefixPoolConfig) {
    var p := PrefixFromIPAddress(a);
    p.Some? && PrefixIsAllocatable(p.value, config)
  }

  function OutOfRange(addresses: seq<IPAddress>, config: PrefixPoolConfig): (n: nat)
    ensures n <= |addresses|
    decreases |addresses|
  {
    if addresses == [] then 0
    else
      var last := |addresses| - 1;
      OutOfRange(addresses[..last], config) + if InRangeAllocation(addresses[last], config) then 0 else 1
  }

  function StatusOf(config: PrefixPoolConfig, total: nat, addresses: seq<IPAddress>): Status {
    var used, outOfRange := |addresses|, OutOfRange(addresses, config);
    var free := total - used + outOfRange;
    Status(total, used, if free > 0 then free else 0, outOfRange)
  }

  /** The status a pool that is not being deleted gets; None when its spec is malformed. */
  function Reported(spec: PrefixPoolSpec, addresses: seq<IPAddress>): (s: Option<Status>)
    ensures s.Some? <==> ConfigOk(NewConfig(spec))
  {
    var total := PrefixCandidateCountSpec(NewConfig(spec));
    if total.Ok? then Some(StatusOf(NewConfig(spec), total.value, addresses)) else None
  }

  // ---------- the status, from the spec ----------

  /** The object records a block that the spec offers. */
  ghost predicate Permitted(spec: PrefixPoolSpec, a: IPAddress) {
    && WellFormed(spec) && HasBlock(a) && a.prefix.value == Length(spec)
    && Offered(spec, BlockStart(a.address.a, BitLen(a.address.a) - Length(spec)))
  }

  ghost function NotPermitted(spec: PrefixPoolSpec, addresses: seq<IPAddress>): set<int> {
    set i | 0 <= i < |addresses| && !Permitted(spec, addresses[i])
  }

  /** Every field of the status: what is offered, listed, out of range, and left. */
  ghost predicate StatusFor(spec: PrefixPoolSpec, addresses: seq<IPAddress>, status: Status) {
    var offered := |OfferedStarts(spec)|;
    && status.total == (if offered <= 0x7FFF_FFFF_FFFF_FFFF then offered else 0x7FFF_FFFF_FFFF_FFFF)
    && status.used == |addresses|
    && status.outOfRange == |NotPermitted(spec, addresses)|
    && var left := status.total - status.used + status.outOfRange; status.free == if left > 0 then left else 0
  }

  lemma PermittedMeans(spec: PrefixPoolSpec, a: IPAddress)
    ensures InRangeAllocation(a, NewConfig(spec)) <==> Permitted(spec, a)
  {
    PrefixStart(a);
    if HasBlock(a) {
      PermittedPrefix(spec, a, PrefixFromIPAddress(a).value);
    }
  }

  lemma PermittedPrefix(spec: PrefixPoolSpec, a: IPAddress, m: Prefix)
    requires HasBlock(a) && IsMasked(m) && m.bits == a.prefix.value
    requires m.addr == BlockStart(a.address.a, BitLen(a.address.a) - m.bits)
    ensures PrefixIsAllocatable(m, NewConfig(spec)) <==> Permitted(spec, a)
  {
    MaskedMeets(spec, m);
  }

  lemma {:induction false} OutOfRangeMeans(spec: PrefixPoolSpec, addresses: seq<IPAddress>)
    ensures OutOfRange(addresses, NewConfig(spec)) == |NotPermitted(spec, addresses)|
    decreases |addresses|
  {
    if addresses == [] {
      assert NotPermitted(spec, addresses) == {};
    } else {
      var k := |addresses| - 1;
      OutOfRangeMeans(spec, addresses[..k]);
      PermittedMeans(spec, addresses[k]);
      NotPermittedGrows(spec, addresses);
    }
  }

  lemma NotPermittedGrows(spec: PrefixPoolSpec, addresses: seq<IPAddress>)
    requires addresses != []
    ensures var k := |addresses| - 1;
      |NotPermitted(spec, addresses)| ==
      |NotPermitted(spec, addresses[..k])| + if Permitted(spec, addresses[k]) then 0 else 1
  {
    var k := |addresses| - 1;
    var front := NotPermitted(spec, addresses[..k]);
    assert NotPermitted(spec, addresses) == front + if Permitted(spec, addresses[k]) then {} else {k};
  }

  /** The reconciler reports that status, and reports one exactly for a well-formed spec. */
  lemma ReportedMeans(spec: PrefixPoolSpec, addresses: seq<IPAddress>)
    ensures Reported(spec, addresses).Some? <==> WellFormed(spec)
    ensures WellFormed(spec) ==> StatusFor(spec, addresses, Reported(spec, addresses).value)
  {
    CandidateCountMeets(spec);
    OutOfRangeMeans(spec, addresses);
  }

  // ---------- genericPrefixReconcile ----------

  /** The counting loop of genericPrefixReconcile. */
  method CountOutOfRange(addressesInUse: seq<IPAddress>, config: PrefixPoolConfig) returns (outOfRange: nat)
    ensures outOfRange == OutOfRange(addressesInUse, config)
  {
    outOfRange := 0;
    var n := 0;
    while n < |addressesInUse|
      invariant 0 <= n <= |addressesInUse| && outOfRange == OutOfRange(addressesInUse[..n], config)
    {
      assert addressesInUse[..n + 1][..n] == addressesInUse[..n];
      var prefix := PrefixFromIPAddress(addressesInUse[n]);
      if prefix.None? || !PrefixIsAllocatable(prefix.value, config) {
        outOfRange := outOfRange + 1;
      }
      n := n + 1;
    }
    assert addressesInUse[..n] == addressesInUse;
  }

  method CountAgainst(config: PrefixPoolConfig, total: nat, addressesInUse: seq<IPAddress>) returns (s: Status)
    ensures s == StatusOf(config, total, addressesInUse)
  {
    var inUseCount := |addressesInUse|;
    var outOfRange := CountOutOfRange(addressesInUse, config);
    var free := total - inUseCount + outOfRange;
    s := Status(total, inUseCount, if free > 0 then free else 0, outOfRange);
  }

  /** The counting part of genericPrefixReconcile; None when the spec is malformed. */
  method CountAddresses(spec: PrefixPoolSpec, addressesInUse: seq<IPAddress>) returns (s: Option<Status>)
    ensures s == Reported(spec, addressesInUse)
  {
    var config := NewConfig(spec);
    var total := PrefixCandidateCount(config);
    if !total.Ok? {
      return None;
    }
    var status := CountAgainst(config, total.value, addressesInUse);
    return Some(status);
  }

  /** genericPrefixReconcile, given the addresses that the list call returned. */
  method GenericPrefixReconcile(pool: PrefixPool, addressesInUse: seq<IPAddress>) returns (ok: bool)
    modifies pool
    ensures pool.deleting == old(pool.deleting)
    ensures pool.protect == !(pool.deleting && |addressesInUse| == 0)
    ensures ok <==> pool.deleting || WellFormed(pool.spec)
    ensures pool.deleting || !ok ==> pool.status == old(pool.status)
    ensures !pool.deleting && ok ==> pool.status == Reported(pool.spec, addressesInUse)
    ensures !pool.deleting && ok ==>
              pool.status.Some? && StatusFor(pool.spec, addressesInUse, pool.status.value)
  {
    var inUseCount := |addressesInUse|;
    if !pool.protect {
      pool.protect := true;
    }
    if pool.deleting {
      if inUseCount == 0 {
        pool.protect := false;
      }
      return true;
    }
    ReportedMeans(pool.spec, addressesInUse);
    var status := CountAddresses(pool.spec, addressesInUse);
    if status.None? {
      return false;
    }
    pool.status := status;
    return true;
  }

  // ---------- what the numbers mean ----------

  /** Every address holds a prefix of the pool's allocation length, as FindFreePrefix hands them out. */
  ghost predicate OfLength(addresses: seq<IPAddress>, bits: int) {
    forall i :: 0 <= i < |addresses| ==>
      PrefixFromIPAddress(addresses[i]).Some? && PrefixFromIPAddress(addresses[i]).value.bits == bits
  }

  ghost predicate DistinctPrefixes(addresses: seq<IPAddress>)
  {
    forall i, j :: 0 <= i < j < |addresses| ==>
      PrefixFromIPAddress(addresses[i]) != PrefixFromIPAddress(addresses[j])
  }

  /** The candidates that the addresses occupy. */
  ghost function Occupied(addresses: seq<IPAddress>, config: PrefixPoolConfig): (s: set<nat>)
    requires OfLength(addresses, config.allocationPrefixLength)
    ensures forall x :: x in s ==> exists i :: 0 <= i < |addresses| && StartOf(addresses[i]) == x
    decreases |addresses|
  {
    if addresses == [] then {}
    else
      var last := |addresses| - 1;
      var front := addresses[..last];
      assert forall i :: 0 <= i < last ==> front[i] == addresses[i];
      Occupied(front, config) + if InRangeAllocation(addresses[last], config) then {StartOf(addresses[last])} else {}
  }

  /** An allocation of the right length that is out of range occupies no candidate, one in range exactly one. */
  lemma {:induction false} FreeAreUnoccupied(addresses: seq<IPAddress>, config: PrefixPoolConfig)
    requires OfLength(addresses, config.allocationPrefixLength)
    ensures AllocationPrefixSet(addresses).Some?
    ensures FreeCandidates(config, AllocationPrefixSet(addresses).value) ==
            Candidates(config) - Occupied(addresses, config)
    decreases |addresses|
  {
    if addresses == [] {
      assert FreeCandidates(config, []) == Candidates(config);
    } else {
      var k := |addresses| - 1;
      var front, a := addresses[..k], addresses[k];
      assert forall i :: 0 <= i < k ==> front[i] == addresses[i];
      FreeAreUnoccupied(front, config);
      var q := PrefixFromIPAddress(a).value;
      assert AllocationRange(a) == Some(RangeOf(q));
      var before, after := AllocationPrefixSet(front).value, AllocationPrefixSet(addresses).value;
      assert after == Insert(before, RangeOf(q));
      TakeOne(config, before, after, q);
      OutOfRangeIsNoCandidate(config, q);
    }
  }

  lemma OutOfRangeIsNoCandidate(config: PrefixPoolConfig, q: Prefix)
    requires IsMasked(q) && q.bits == config.allocationPrefixLength
    ensures q.addr in Candidates(config) <==> PrefixIsAllocatable(q, config)
  {
    FitsBound(q);
    assert Prefix(q.addr, config.allocationPrefixLength) == q;
    if PrefixIsAllocatable(q, config) {
      assert CanHandOut(config, [], q);
    }
  }

  lemma {:induction false} OccupiedAreCandidates(addresses: seq<IPAddress>, config: PrefixPoolConfig)
    requires OfLength(addresses, config.allocationPrefixLength)
    ensures Occupied(addresses, config) <= Candidates(config)
    decreases |addresses|
  {
    if addresses != [] {
      var k := |addresses| - 1;
      assert forall i :: 0 <= i < k ==> addresses[..k][i] == addresses[i];
      OccupiedAreCandidates(addresses[..k], config);
      OutOfRangeIsNoCandidate(config, PrefixFromIPAddress(addresses[k]).value);
    }
  }

  lemma {:induction false} OccupiedSize(addresses: seq<IPAddress>, config: PrefixPoolConfig)
    requires OfLength(addresses, config.allocationPrefixLength)
    ensures |Occupied(addresses, config)| <= |addresses| - OutOfRange(addresses, config)
    ensures DistinctPrefixes(addresses) ==>
              |Occupied(addresses, config)| == |addresses| - OutOfRange(addresses, config)
    decreases |addresses|
  {
    if addresses == [] {
      assert Occupied(addresses, config) == {};
    } else {
      var k := |addresses| - 1;
      assert forall i :: 0 <= i < k ==> addresses[..k][i] == addresses[i];
      OccupiedSize(addresses[..k], config);
      OccupiedGrows(addresses, config);
      if DistinctPrefixes(addresses) {
        LastIsNew(addresses, config);
      }
    }
  }

  lemma OccupiedGrows(addresses: seq<IPAddress>, config: PrefixPoolConfig)
    requires addresses != [] && OfLength(addresses, config.allocationPrefixLength)
    ensures var (k, front) := (|addresses| - 1, addresses[..|addresses| - 1]);
      && OfLength(front, config.allocationPrefixLength)
      && var grown := |Occupied(addresses, config)| - |Occupied(front, config)|;
         var counted := |addresses| - OutOfRange(addresses, config) - (|front| - OutOfRange(front, config));
         grown <= counted && (StartOf(addresses[k]) !in Occupied(front, config) ==> grown == counted)
  {
    var k := |addresses| - 1;
    assert forall i :: 0 <= i < k ==> addresses[..k][i] == addresses[i];
    AddedSize(Occupied(addresses[..k], config), StartOf(addresses[k]));
  }

  lemma AddedSize(s: set<nat>, x: nat)
    ensures |s + {x}| == if x in s then |s| else |s| + 1
  {
    if x in s {
      assert s + {x} == s;
    }
  }

  lemma LastIsNew(addresses: seq<IPAddress>, config: PrefixPoolConfig)
    requires addresses != [] && OfLength(addresses, config.allocationPrefixLength) && DistinctPrefixes(addresses)
    ensures var k := |addresses| - 1;
      && OfLength(addresses[..k], config.allocationPrefixLength) && DistinctPrefixes(addresses[..k])
      && StartOf(addresses[k]) !in Occupied(addresses[..k], config)
  {
    var k := |addresses| - 1;
    var front := addresses[..k];
    assert forall i :: 0 <= i < k ==> front[i] == addresses[i];
    forall i | 0 <= i < k
      ensures StartOf(front[i]) != StartOf(addresses[k])
    {
      assert PrefixFromIPAddress(addresses[i]) != PrefixFromIPAddress(addresses[k]);
    }
  }

  /** A snapshot that the API holds for a pool whose allocations all came from this allocator. */
  ghost predicate Regular(config: PrefixPoolConfig, addresses: seq<IPAddress>) {
    && OfLength(addresses, config.allocationPrefixLength) && DistinctPrefixes(addresses)
    && PrefixCandidateCountSpec(config).Ok? && PrefixCandidateCountSpec(config).value < MAX_INT
  }

  /**
   Free is the number of prefixes that FindFreePrefix can still hand out, even when some allocations are out of
   range, and the subtraction never goes below zero.
   */
  lemma FreeIsExact(config: PrefixPoolConfig, addresses: seq<IPAddress>)
    requires Regular(config, addresses)
    ensures var total := PrefixCandidateCountSpec(config).value;
      && AllocationPrefixSet(addresses).Some?
      && StatusOf(config, total, addresses).free ==
         |FreeCandidates(config, AllocationPrefixSet(addresses).value)|
      && total - |addresses| + OutOfRange(addresses, config) >= 0
  {
    CandidateCountIsExact(config);
    FreeAreUnoccupied(addresses, config);
    OccupiedAreCandidates(addresses, config);
    OccupiedSize(addresses, config);
    DifferenceSize(Candidates(config), Occupied(addresses, config));
  }

  lemma DifferenceSize(all: set<nat>, taken: set<nat>)
    requires taken <= all
    ensures |all - taken| == |all| - |taken|
  {
    assert all == taken + (all - taken);
  }

  /** Without distinctness, and also when the total is capped, a positive Free still means allocation succeeds. */
  lemma FreeMeansAvailable(config: PrefixPoolConfig, addresses: seq<IPAddress>)
    requires OfLength(addresses, config.allocationPrefixLength)
    requires PrefixCandidateCountSpec(config).Ok?
    requires StatusOf(config, PrefixCandidateCountSpec(config).value, addresses).free > 0
    ensures AllocationPrefixSet(addresses).Some?
    ensures FindFreePrefixSpec(config, AllocationPrefixSet(addresses).value).Ok?
  {
    CandidateCountIsExact(config);
    FreeAreUnoccupied(addresses, config);
    OccupiedSize(addresses, config);
    SomeLeft(Candidates(config), Occupied(addresses, config));
    FreeIffFound(config, AllocationPrefixSet(addresses).value);
  }

  lemma SomeLeft(all: set<nat>, taken: set<nat>)
    ensures |taken| < |all| ==> all - taken != {}
  {
    if |taken| < |all| && all - taken == {} {
      forall x | x in all
        ensures x in taken
      {
        assert x !in all - taken;
      }
      SubsetSize(all, taken);
    }
  }

  // ---------- prefixPoolNoLongerEmpty ----------

  /** As Regular, but the total may be capped as long as the list is shorter than the cap. */
  ghost predicate Countable(config: PrefixPoolConfig, addresses: seq<IPAddress>) {
    && OfLength(addresses, config.allocationPrefixLength) && DistinctPrefixes(addresses)
    && PrefixCandidateCountSpec(config).Ok?
    && (PrefixCandidateCountSpec(config).value < MAX_INT || |addresses| < MAX_INT)
  }

  predicate PrefixPoolNoLongerEmpty(oldStatus: Option<Status>, newStatus: Option<Status>) {
    oldStatus.Some? && newStatus.Some? && oldStatus.value.free == 0 && newStatus.value.free > 0
  }

  /**
   Waiting claims are woken exactly when allocation went from impossible to possible, between two statuses that
   the reconciler reported for such snapshots.
   */
  lemma WakesExactlyWhenPossible(c: PrefixPoolSpec, before: seq<IPAddress>, d: PrefixPoolSpec, after: seq<IPAddress>)
    requires Countable(NewConfig(c), before) && Countable(NewConfig(d), after)
    ensures AllocationPrefixSet(before).Some? && AllocationPrefixSet(after).Some?
    ensures PrefixPoolNoLongerEmpty(Reported(c, before), Reported(d, after)) <==>
            && FindFreePrefixSpec(NewConfig(c), AllocationPrefixSet(before).value) == Err(NoneAvailable)
            && FindFreePrefixSpec(NewConfig(d), AllocationPrefixSet(after).value).Ok?
  {
    EmptyIffExhausted(c, before);
    EmptyIffExhausted(d, after);
  }

  lemma EmptyIffExhausted(spec: PrefixPoolSpec, addresses: seq<IPAddress>)
    requires Countable(NewConfig(spec), addresses)
    ensures AllocationPrefixSet(addresses).Some? && Reported(spec, addresses).Some?
    ensures var r := FindFreePrefixSpec(NewConfig(spec), AllocationPrefixSet(addresses).value);
      && (Reported(spec, addresses).value.free == 0 <==> r == Err(NoneAvailable))
      && (Reported(spec, addresses).value.free > 0 <==> r.Ok?)
  {
    if Regular(NewConfig(spec), addresses) {
      FreeIsExact(NewConfig(spec), addresses);
    } else {
      CandidateCountIsExact(NewConfig(spec));
      FreeMeansAvailable(NewConfig(spec), addresses);
    }
    FreeIffFound(NewConfig(spec), AllocationPrefixSet(addresses).value);
  }
}
