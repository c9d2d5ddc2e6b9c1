/** What the prefix allocator promises, stated with PrefixIsAllocatable and overlap only. */
module PrefixGuarantees {
  import opened Wrappers
  import opened Powers
  import opened Netip
  import opened IPSets
  import opened Trie
  import opened Api
  import opened PrefixAllocator

  /** q is a network-aligned prefix that may be handed out while inUse is taken. */
  ghost predicate CanHandOut(config: PrefixPoolConfig, inUse: IPSet, q: Prefix) {
    IsMasked(q) && PrefixIsAllocatable(q, config) && !Overlaps(inUse, RangeOf(q))
  }

  lemma BlockedBy(config: PrefixPoolConfig, inUse: IPSet, r: Range)
    requires Normal(inUse) && ConfigOk(config) && r.from <= r.to
    ensures BlockedIPSet(config, inUse).Some? && BlockedIPSet(config, []).Some?
    ensures Overlaps(BlockedIPSet(config, inUse).value, r) <==>
            Overlaps(BlockedIPSet(config, []).value, r) || Overlaps(inUse, r)
  {
    OverlapsIffSome(BlockedIPSet(config, inUse).value, r);
    OverlapsIffSome(BlockedIPSet(config, []).value, r);
    OverlapsIffSome(inUse, r);
  }

  lemma AllocatableMeans(config: PrefixPoolConfig, q: Prefix)
    requires ConfigOk(config) && IsMasked(q) && BlockedIPSet(config, []).Some?
    ensures PrefixIsAllocatable(q, config) <==>
            && q.bits == config.allocationPrefixLength
            && Contains(PrefixesToIPSet(config.prefixes).value, RangeOf(q))
            && !Overlaps(BlockedIPSet(config, []).value, RangeOf(q))
  {
    MaskedRange(q);
  }

  lemma SlotMeans(pool: IPSet, blocked: IPSet, q: Prefix)
    requires IsMasked(q) && 0 < q.bits
    ensures IsSlot(pool, blocked, q.bits, q.addr) <==>
            Contains(pool, RangeOf(q)) && !Overlaps(blocked, RangeOf(q))
  {
    MaskedRange(q);
    assert RangeOf(q) == Block(q.addr, BitLen(q.addr) - q.bits);
  }

  lemma HandOutIffSlot(config: PrefixPoolConfig, inUse: IPSet, q: Prefix)
    requires Normal(inUse) && ConfigOk(config) && IsMasked(q)
    ensures CanHandOut(config, inUse, q) <==>
            q.bits == config.allocationPrefixLength
            && IsSlot(PrefixesToIPSet(config.prefixes).value, BlockedIPSet(config, inUse).value, q.bits, q.addr)
  {
    BlockedBy(config, inUse, RangeOf(q));
    AllocatableMeans(config, q);
    if q.bits == config.allocationPrefixLength {
      SlotMeans(PrefixesToIPSet(config.prefixes).value, BlockedIPSet(config, inUse).value, q);
    }
  }

  lemma HandOutIffInSome(config: PrefixPoolConfig, inUse: IPSet, q: Prefix)
    requires Normal(inUse) && ConfigOk(config) && IsMasked(q)
    ensures BlockedIPSet(config, inUse).Some?
    ensures CanHandOut(config, inUse, q) <==>
            && q.bits == config.allocationPrefixLength
            && SlotInSome(Prefixes(PrefixesToIPSet(config.prefixes).value), config.allocationPrefixLength,
                          BlockedIPSet(config, inUse).value, q.addr)
  {
    var pool, blocked := PrefixesToIPSet(config.prefixes).value, BlockedIPSet(config, inUse).value;
    HandOutIffSlot(config, inUse, q);
    SlotInAggregate(pool, Prefixes(pool), blocked, config.allocationPrefixLength, q.addr);
  }

  /**
   FindFreePrefix returns the lowest prefix that may be handed out, reports "no prefix available" exactly when
   there is none, and reports any other error exactly when the configuration is malformed.
   */
  lemma FindFreePrefixIsFirst(config: PrefixPoolConfig, inUse: IPSet)
    requires Normal(inUse)
    ensures match FindFreePrefixSpec(config, inUse)
      case Ok(q) => CanHandOut(config, inUse, q) && forall p :: CanHandOut(config, inUse, p) ==> q.addr <= p.addr
      case Err(NoneAvailable) => ConfigOk(config) && forall p :: !CanHandOut(config, inUse, p)
      case Err(BadConfig) => !ConfigOk(config)
      case Panic => false
  {
    if ConfigOk(config) {
      var ps, t := Prefixes(PrefixesToIPSet(config.prefixes).value), config.allocationPrefixLength;
      forall p | IsMasked(p)
        ensures CanHandOut(config, inUse, p) <==>
                p.bits == t && SlotInSome(ps, t, BlockedIPSet(config, inUse).value, p.addr)
      {
        HandOutIffInSome(config, inUse, p);
      }
    }
  }

  /** The starts of all prefixes the configuration could ever hand out. */
  ghost function Candidates(config: PrefixPoolConfig): set<nat> {
    set x: nat | x < ADDR_BOUND && CanHandOut(config, [], Prefix(x, config.allocationPrefixLength))
  }

  lemma SlotIsMasked(pool: IPSet, blocked: IPSet, t: int, x: nat)
    requires IsSlot(pool, blocked, t, x)
    ensures IsMasked(Prefix(x, t)) && x < ADDR_BOUND
  {
    FamilySize(FamilyOf(x));
  }

  lemma CandidateIffSlot(config: PrefixPoolConfig, pool: IPSet, blocked: IPSet, t: int, x: nat)
    requires ConfigOk(config) && t == config.allocationPrefixLength
    requires Some(pool) == PrefixesToIPSet(config.prefixes) && Some(blocked) == BlockedIPSet(config, [])
    ensures CanHandOut(config, [], Prefix(x, t)) <==> IsSlot(pool, blocked, t, x)
  {
    if IsSlot(pool, blocked, t, x) {
      SlotIsMasked(pool, blocked, t, x);
    }
    if IsMasked(Prefix(x, t)) {
      HandOutIffSlot(config, [], Prefix(x, t));
    }
  }

  /** PrefixCandidateCount is the number of allocatable prefixes, saturated at MaxInt. */
  lemma CandidateCountIsExact(config: PrefixPoolConfig)
    ensures PrefixCandidateCountSpec(config) ==
            if ConfigOk(config) then Ok(Capped(|Candidates(config)|)) else Err(BadConfig)
  {
    if ConfigOk(config) {
      var pool, t := PrefixesToIPSet(config.prefixes).value, config.allocationPrefixLength;
      var blocked, ps := BlockedIPSet(config, []).value, Prefixes(pool);
      forall x: nat
        ensures CanHandOut(config, [], Prefix(x, t)) <==> SlotInSome(ps, t, blocked, x)
      {
        SlotInAggregate(pool, ps, blocked, t, x);
        CandidateIffSlot(config, pool, blocked, t, x);
      }
      assert Candidates(config) == SlotsIn(ps, t, blocked);
    }
  }

  /** Same length, same union of pool prefixes, same blocked addresses: same choice, however the lists are written. */
  lemma ChoiceDependsOnUnions(c: PrefixPoolConfig, d: PrefixPoolConfig, inUseC: IPSet, inUseD: IPSet)
    requires Normal(inUseC) && Normal(inUseD) && ConfigOk(c) && ConfigOk(d)
    requires c.allocationPrefixLength == d.allocationPrefixLength
    requires forall a: nat :: Listed(c.prefixes, PoolPrefixRange, a) <==> Listed(d.prefixes, PoolPrefixRange, a)
    requires forall a: nat ::
               Listed(c.excludedPrefixes, EntryRange, a) || Has(inUseC, a) <==>
               Listed(d.excludedPrefixes, EntryRange, a) || Has(inUseD, a)
    ensures FindFreePrefixSpec(c, inUseC) == FindFreePrefixSpec(d, inUseD)
  {
    CollectCanonical(c.prefixes, d.prefixes, PoolPrefixRange);
    BlockedCanonical(c, d, inUseC, inUseD);
  }

  lemma BlockedCanonical(c: PrefixPoolConfig, d: PrefixPoolConfig, inUseC: IPSet, inUseD: IPSet)
    requires Normal(inUseC) && Normal(inUseD) && ConfigOk(c) && ConfigOk(d)
    requires forall a: nat ::
               Listed(c.excludedPrefixes, EntryRange, a) || Has(inUseC, a) <==>
               Listed(d.excludedPrefixes, EntryRange, a) || Has(inUseD, a)
    ensures BlockedIPSet(c, inUseC) == BlockedIPSet(d, inUseD)
  {
    var s, t := BlockedIPSet(c, inUseC).value, BlockedIPSet(d, inUseD).value;
    forall a: nat
      ensures Has(s, a) <==> Has(t, a)
    {
      CollectHas(c.excludedPrefixes, EntryRange, a);
      CollectHas(d.excludedPrefixes, EntryRange, a);
    }
    Canonical(s, t);
  }

  lemma CountDependsOnUnions(c: PrefixPoolConfig, d: PrefixPoolConfig)
    requires ConfigOk(c) && ConfigOk(d) && c.allocationPrefixLength == d.allocationPrefixLength
    requires forall a: nat :: Listed(c.prefixes, PoolPrefixRange, a) <==> Listed(d.prefixes, PoolPrefixRange, a)
    requires forall a: nat ::
               Listed(c.excludedPrefixes, EntryRange, a) <==> Listed(d.excludedPrefixes, EntryRange, a)
    ensures PrefixCandidateCountSpec(c) == PrefixCandidateCountSpec(d)
  {
    CollectCanonical(c.prefixes, d.prefixes, PoolPrefixRange);
    BlockedCanonical(c, d, [], []);
  }

  // ---------- exact capacity ----------

  /** The candidates that inUse leaves free. */
  ghost function FreeCandidates(config: PrefixPoolConfig, inUse: IPSet): set<nat> {
    set x: nat | x < ADDR_BOUND && CanHandOut(config, inUse, Prefix(x, config.allocationPrefixLength))
  }

  ghost predicate Disjoint(p: Prefix, q: Prefix)
    requires ValidPrefix(p) && ValidPrefix(q)
  {
    !Meets(RangeOf(p), RangeOf(q))
  }

  /** Two aligned prefixes of one length are equal or disjoint, also across families. */
  lemma SameLengthDisjoint(p: Prefix, q: Prefix)
    requires IsMasked(p) && IsMasked(q) && p.bits == q.bits && p != q
    ensures Disjoint(p, q)
  {
    MaskedRange(p);
    MaskedRange(q);
    if FamilyOf(p.addr) == FamilyOf(q.addr) {
      if p.addr < q.addr {
        AlignedApart(p.addr, q.addr, HostBits(p));
      } else {
        AlignedApart(q.addr, p.addr, HostBits(p));
      }
    }
  }

  /** Taking a prefix of the allocation length makes that candidate unavailable and no other. */
  lemma TakeOne(config: PrefixPoolConfig, before: IPSet, after: IPSet, q: Prefix)
    requires Normal(before) && Normal(after)
    requires IsMasked(q) && q.bits == config.allocationPrefixLength
    requires forall a: nat :: Has(after, a) <==> Has(before, a) || InRange(RangeOf(q), a)
    ensures FreeCandidates(config, after) == FreeCandidates(config, before) - {q.addr}
  {
    forall p: Prefix | IsMasked(p) && p.bits == q.bits
      ensures Overlaps(after, RangeOf(p)) <==> Overlaps(before, RangeOf(p)) || p == q
    {
      OverlapsIffSome(after, RangeOf(p));
      OverlapsIffSome(before, RangeOf(p));
      if p == q {
        assert InRange(RangeOf(q), q.addr);
      } else {
        SameLengthDisjoint(p, q);
      }
    }
    forall x: nat
      ensures x in FreeCandidates(config, after) <==> x in FreeCandidates(config, before) && x != q.addr
    {
      assert Prefix(x, q.bits) == q <==> x == q.addr;
    }
  }

  /** A history of allocations, the latest last. */
  datatype Run = Start | Then(before: Run, a: IPAddress)

  function Allocated(run: Run): seq<IPAddress> {
    match run
    case Start => []
    case Then(before, a) => Allocated(before) + [a]
  }

  /** Every allocation of the run is what FindFreePrefix chose while the earlier ones were in use. */
  ghost predicate Greedy(config: PrefixPoolConfig, run: Run) {
    run.Then? ==> Greedy(config, run.before) && ChosenNext(config, Allocated(run.before), run.a)
  }

  ghost predicate ChosenNext(config: PrefixPoolConfig, inUse: seq<IPAddress>, a: IPAddress) {
    && AllocationPrefixSet(inUse).Some?
    && PrefixFromIPAddress(a).Some?
    && FindFreePrefixSpec(config, AllocationPrefixSet(inUse).value) == Ok(PrefixFromIPAddress(a).value)
  }

  ghost function StartOf(a: IPAddress): nat
    requires PrefixFromIPAddress(a).Some?
  {
    PrefixFromIPAddress(a).value.addr
  }

  lemma ChosenIsFree(config: PrefixPoolConfig, inUse: seq<IPAddress>, a: IPAddress)
    requires ChosenNext(config, inUse, a)
    ensures var taken, q := AllocationPrefixSet(inUse).value, PrefixFromIPAddress(a).value;
      && CanHandOut(config, taken, q) && q.bits == config.allocationPrefixLength
      && StartOf(a) in FreeCandidates(config, taken)
  {
    FindFreePrefixIsFirst(config, AllocationPrefixSet(inUse).value);
    FitsBound(PrefixFromIPAddress(a).value);
  }

  lemma ChosenIsLeast(config: PrefixPoolConfig, inUse: seq<IPAddress>, a: IPAddress, x: nat)
    requires ChosenNext(config, inUse, a) && x in FreeCandidates(config, AllocationPrefixSet(inUse).value)
    ensures StartOf(a) <= x
  {
    FindFreePrefixIsFirst(config, AllocationPrefixSet(inUse).value);
    assert CanHandOut(config, AllocationPrefixSet(inUse).value, Prefix(x, config.allocationPrefixLength));
  }

  lemma OneMore(config: PrefixPoolConfig, inUse: seq<IPAddress>, a: IPAddress)
    requires ChosenNext(config, inUse, a)
    ensures AllocationPrefixSet(inUse + [a]).Some?
    ensures FreeCandidates(config, AllocationPrefixSet(inUse + [a]).value) ==
            FreeCandidates(config, AllocationPrefixSet(inUse).value) - {StartOf(a)}
    ensures StartOf(a) in FreeCandidates(config, AllocationPrefixSet(inUse).value)
  {
    var before, q := AllocationPrefixSet(inUse).value, PrefixFromIPAddress(a).value;
    ChosenIsFree(config, inUse, a);
    OneMoreInSet(inUse, a);
    TakeOne(config, before, Insert(before, RangeOf(q)), q);
  }

  lemma OneMoreInSet(inUse: seq<IPAddress>, a: IPAddress)
    requires AllocationPrefixSet(inUse).Some? && PrefixFromIPAddress(a).Some?
    ensures AllocationPrefixSet(inUse + [a]) ==
            Some(Insert(AllocationPrefixSet(inUse).value, RangeOf(PrefixFromIPAddress(a).value)))
  {
    var all := inUse + [a];
    assert all[..|inUse|] == inUse && all[|inUse|] == a;
    assert AllocationRange(a) == Some(RangeOf(PrefixFromIPAddress(a).value));
  }

  lemma FitsBound(q: Prefix)
    requires IsMasked(q)
    ensures q.addr < ADDR_BOUND
  {
    FamilySize(FamilyOf(q.addr));
  }

  ghost predicate HasRoom(config: PrefixPoolConfig, inUse: Option<IPSet>, room: int) {
    inUse.Some? && Normal(inUse.value) && |FreeCandidates(config, inUse.value)| == room
  }

  /** Along a greedy run every allocation lowers the remaining capacity by exactly one. */
  lemma {:induction false} GreedyCapacity(config: PrefixPoolConfig, run: Run)
    requires ConfigOk(config) && Greedy(config, run)
    ensures HasRoom(config, AllocationPrefixSet(Allocated(run)), |Candidates(config)| - |Allocated(run)|)
    decreases run
  {
    match run
    case Start =>
      assert FreeCandidates(config, []) == Candidates(config);
    case Then(before, a) =>
      GreedyCapacity(config, before);
      OneMore(config, Allocated(before), a);
  }

  /** x is above every allocation of the list. */
  ghost predicate AboveAll(addresses: seq<IPAddress>, x: nat) {
    forall i :: 0 <= i < |addresses| ==>
      PrefixFromIPAddress(addresses[i]).Some? && StartOf(addresses[i]) < x
  }

  /** First fit never leaves a hole behind: what is still free lies above everything allocated. */
  lemma {:induction false} FreeLiesAbove(config: PrefixPoolConfig, run: Run, x: nat)
    requires Greedy(config, run) && AllocationPrefixSet(Allocated(run)).Some?
    requires x in FreeCandidates(config, AllocationPrefixSet(Allocated(run)).value)
    ensures AboveAll(Allocated(run), x)
    decreases run
  {
    if run.Then? {
      StillFreeIsAbove(config, Allocated(run.before), run.a, x);
      FreeLiesAbove(config, run.before, x);
      AboveExtend(Allocated(run.before), run.a, x);
    }
  }

  lemma StillFreeIsAbove(config: PrefixPoolConfig, inUse: seq<IPAddress>, a: IPAddress, x: nat)
    requires ChosenNext(config, inUse, a) && AllocationPrefixSet(inUse + [a]).Some?
    requires x in FreeCandidates(config, AllocationPrefixSet(inUse + [a]).value)
    ensures x in FreeCandidates(config, AllocationPrefixSet(inUse).value) && StartOf(a) < x
  {
    OneMore(config, inUse, a);
    ChosenIsLeast(config, inUse, a, x);
  }

  lemma AboveExtend(addresses: seq<IPAddress>, a: IPAddress, x: nat)
    requires AboveAll(addresses, x) && PrefixFromIPAddress(a).Some? && StartOf(a) < x
    ensures AboveAll(addresses + [a], x)
  {
  }

  ghost predicate Increasing(addresses: seq<IPAddress>, bits: int) {
    && (forall i :: 0 <= i < |addresses| ==>
          PrefixFromIPAddress(addresses[i]).Some? && PrefixFromIPAddress(addresses[i]).value.bits == bits)
    && (forall i, j :: 0 <= i < j < |addresses| ==> StartOf(addresses[i]) < StartOf(addresses[j]))
  }

  /** A greedy run hands out prefixes of the allocation length in strictly increasing address order. */
  lemma {:induction false} GreedyIncreases(config: PrefixPoolConfig, run: Run)
    requires Greedy(config, run)
    ensures Increasing(Allocated(run), config.allocationPrefixLength)
    decreases run
  {
    if run.Then? {
      var inUse := Allocated(run.before);
      GreedyIncreases(config, run.before);
      OneMore(config, inUse, run.a);
      FreeLiesAbove(config, run.before, StartOf(run.a));
      ChosenIsFree(config, inUse, run.a);
      IncreasingExtend(inUse, run.a, config.allocationPrefixLength);
    }
  }

  lemma IncreasingExtend(addresses: seq<IPAddress>, a: IPAddress, bits: int)
    requires Increasing(addresses, bits)
    requires PrefixFromIPAddress(a).Some? && PrefixFromIPAddress(a).value.bits == bits
    requires AboveAll(addresses, StartOf(a))
    ensures Increasing(addresses + [a], bits)
  {
  }

  /** Prefixes of one length in strictly increasing order are pairwise disjoint. */
  lemma IncreasingDisjoint(addresses: seq<IPAddress>, bits: int, i: nat, j: nat)
    requires Increasing(addresses, bits) && i < |addresses| && j < |addresses| && i != j
    ensures Disjoint(PrefixFromIPAddress(addresses[i]).value, PrefixFromIPAddress(addresses[j]).value)
  {
    SameLengthDisjoint(PrefixFromIPAddress(addresses[i]).value, PrefixFromIPAddress(addresses[j]).value);
  }

  /** A pool that only allocates serves exactly as many claims as it has candidates, then reports exhaustion. */
  lemma ExactCapacity(config: PrefixPoolConfig, run: Run)
    requires ConfigOk(config) && Greedy(config, run)
    ensures |Allocated(run)| <= |Candidates(config)|
    ensures AllocationPrefixSet(Allocated(run)).Some?
    ensures FindFreePrefixSpec(config, AllocationPrefixSet(Allocated(run)).value) == Err(NoneAvailable) <==>
            |Allocated(run)| == |Candidates(config)|
    ensures PrefixCandidateCountSpec(config).Ok? && PrefixCandidateCountSpec(config).value < MAX_INT ==>
              (FindFreePrefixSpec(config, AllocationPrefixSet(Allocated(run)).value) == Err(NoneAvailable) <==>
               |Allocated(run)| == PrefixCandidateCountSpec(config).value)
  {
    GreedyCapacity(config, run);
    CandidateCountIsExact(config);
    FreeIffFound(config, AllocationPrefixSet(Allocated(run)).value);
  }

  /** Allocation succeeds exactly while a candidate is free. */
  lemma FreeIffFound(config: PrefixPoolConfig, inUse: IPSet)
    requires Normal(inUse) && ConfigOk(config)
    ensures FindFreePrefixSpec(config, inUse).Ok? <==> FreeCandidates(config, inUse) != {}
    ensures FindFreePrefixSpec(config, inUse) == Err(NoneAvailable) <==> FreeCandidates(config, inUse) == {}
  {
    FindFreePrefixIsFirst(config, inUse);
    var r := FindFreePrefixSpec(config, inUse);
    if r.Ok? {
      FoundIsFree(config, inUse, r.value);
    }
  }

  lemma FoundIsFree(config: PrefixPoolConfig, inUse: IPSet, q: Prefix)
    requires CanHandOut(config, inUse, q)
    ensures q.addr in FreeCandidates(config, inUse)
  {
    FitsBound(q);
    assert q == Prefix(q.addr, config.allocationPrefixLength);
  }
}
