/**
 Pools and addresses under atomic steps: every interleaving of allocations, releases, accepted pool changes and pool
 reconciles. Each step sees the store as it is; ClaimSystem.dfy drops that assumption.
 */
module PoolSafety {
  import opened Wrappers
  import opened Powers
  import opened Netip
  import opened IPSets
  import opened Api
  import opened PrefixAllocator
  import opened PrefixRequirements
  import opened AddressAllocator
  import opened ClaimHandlers
  import AddressPools
  import PrefixWebhook
  import PrefixPoolStatus

  datatype Store = Store(pools: map<PoolRef, Pool>, addrs: map<Name, IPAddress>)

  const EMPTY := Store(map[], map[])

  /** inUse lists exactly the addresses that refer to the pool, in any order. */
  ghost predicate Listing(s: Store, ref: PoolRef, inUse: seq<IPAddress>) {
    && (forall i :: 0 <= i < |inUse| ==>
          inUse[i].name in s.addrs && s.addrs[inUse[i].name] == inUse[i] && inUse[i].pool == ref)
    && (forall k :: k in s.addrs && s.addrs[k].pool == ref ==> s.addrs[k] in inUse)
  }

  datatype Action =
    | CreatePool(ref: PoolRef, spec: PoolSpec)
    | UpdatePool(ref: PoolRef, spec: PoolSpec)
    | DeletePool(ref: PoolRef, skip: bool)
    | ReconcilePool(ref: PoolRef)
    | AllocateFor(name: Name, ref: PoolRef)
    | ReleaseOf(name: Name)

  ghost predicate UpdateAccepted(oldSpec: PoolSpec, newSpec: PoolSpec, inUse: seq<IPAddress>) {
    match (oldSpec, newSpec)
    case (IPSpec(_), IPSpec(ip)) => AddressPools.UpdateAccepted(ip, inUse)
    case (PrefixSpec(before), PrefixSpec(px)) => PrefixWebhook.UpdateAccepted(before, px, inUse)
    case _ => false
  }

  /** One step: who may do what, with the list the step reads, and the store afterwards. */
  ghost predicate Step(s: Store, a: Action, inUse: seq<IPAddress>, t: Store) {
    match a
    case CreatePool(ref, spec) =>
      && ref !in s.pools && KindMatches(ref, spec) && Accepted(spec)
      && t == s.(pools := s.pools[ref := Pool(spec, false, false)])
    case UpdatePool(ref, spec) =>
      && ref in s.pools && Listing(s, ref, inUse) && UpdateAccepted(s.pools[ref].spec, spec, inUse)
      && t == s.(pools := s.pools[ref := s.pools[ref].(spec := spec)])
    case DeletePool(ref, skip) =>
      && ref in s.pools && Listing(s, ref, inUse) && PrefixWebhook.ValidateDelete(skip, inUse)
      && t == if s.pools[ref].protect
              then s.(pools := s.pools[ref := s.pools[ref].(deleting := true)])
              else s.(pools := s.pools - {ref})
    case ReconcilePool(ref) =>
      && ref in s.pools && Listing(s, ref, inUse)
      && t == if s.pools[ref].deleting && |inUse| == 0
              then s.(pools := s.pools - {ref})
              else s.(pools := s.pools[ref := s.pools[ref].(protect := true)])
    case AllocateFor(name, ref) =>
      && ref in s.pools && name !in s.addrs && Listing(s, ref, inUse)
      && Allocate(s.pools[ref].spec, NewAddress(name, ref), inUse).Ok?
      && t == s.(addrs := s.addrs[name := Allocate(s.pools[ref].spec, NewAddress(name, ref), inUse).value])
    case ReleaseOf(name) =>
      name in s.addrs && t == s.(addrs := s.addrs - {name})
  }

  // ---------- the invariant ----------

  ghost predicate PoolsOk(s: Store) {
    forall ref :: ref in s.pools ==> KindMatches(ref, s.pools[ref].spec) && Accepted(s.pools[ref].spec)
  }

  /** Every address sits in an existing pool and is permitted by that pool's current spec. */
  ghost predicate AddressesOk(s: Store) {
    forall k :: k in s.addrs ==>
      && s.addrs[k].name == k && s.addrs[k].pool in s.pools
      && InSpec(s.pools[s.addrs[k].pool].spec, s.addrs[k])
  }

  ghost predicate NoOverlap(s: Store) {
    forall j, k :: j in s.addrs && k in s.addrs && j != k && s.addrs[j].pool == s.addrs[k].pool ==>
      Apart(s.addrs[j], s.addrs[k])
  }

  ghost predicate Inv(s: Store) {
    PoolsOk(s) && AddressesOk(s) && NoOverlap(s)
  }

  /** An accepted update keeps every allocation that the list names permitted. */
  lemma UpdateKeepsInSpec(oldSpec: PoolSpec, newSpec: PoolSpec, inUse: seq<IPAddress>, a: IPAddress)
    requires UpdateAccepted(oldSpec, newSpec, inUse) && a in inUse && InSpec(oldSpec, a)
    ensures InSpec(newSpec, a) && Accepted(newSpec)
  {
    var i :| 0 <= i < |inUse| && inUse[i] == a;
    InSpecMeans(oldSpec, a);
    InSpecMeans(newSpec, a);
    match newSpec
    case IPSpec(ip) =>
      HasBound(PoolSpecToIPSetSpec(oldSpec.ip).value, a.address.a);
      assert UsedBy(inUse, a.address.a);
    case PrefixSpec(px) =>
      assert PrefixPoolStatus.InRangeAllocation(inUse[i], NewConfig(px));
  }

  /** The one harmful step: the skip annotation lets an unprotected pool leave its addresses behind. */
  predicate Orphans(s: Store, a: Action, inUse: seq<IPAddress>) {
    a.DeletePool? && a.skip && a.ref in s.pools && !s.pools[a.ref].protect && |inUse| > 0
  }

  ghost predicate HavePools(s: Store) {
    forall k :: k in s.addrs ==> s.addrs[k].pool in s.pools
  }

  lemma OrphansHaveNoPool(s: Store, a: Action, inUse: seq<IPAddress>, t: Store)
    requires Step(s, a, inUse, t) && Orphans(s, a, inUse)
    ensures !HavePools(t)
  {
    assert inUse[0].name in t.addrs && t.addrs[inUse[0].name].pool == a.ref;
  }

  /** A step keeps the invariant exactly when it orphans nothing. */
  lemma StepKeepsInv(s: Store, a: Action, inUse: seq<IPAddress>, t: Store)
    requires Inv(s) && Step(s, a, inUse, t)
    ensures Inv(t) <==> !Orphans(s, a, inUse)
  {
    if Orphans(s, a, inUse) {
      OrphansHaveNoPool(s, a, inUse, t);
    } else {
      HarmlessStepKeepsInv(s, a, inUse, t);
    }
  }

  lemma HarmlessStepKeepsInv(s: Store, a: Action, inUse: seq<IPAddress>, t: Store)
    requires Inv(s) && Step(s, a, inUse, t) && !Orphans(s, a, inUse)
    ensures Inv(t)
  {
    match a
    case CreatePool(ref, spec) =>
    case UpdatePool(ref, spec) => UpdateKeepsInv(s, ref, spec, inUse, t);
    case DeletePool(_, _) => LeavingKeepsInv(s, a, inUse, t);
    case ReconcilePool(_) => LeavingKeepsInv(s, a, inUse, t);
    case AllocateFor(name, ref) => AllocationKeepsInv(s, name, ref, inUse, t);
    case ReleaseOf(name) =>
  }

  lemma LeavingKeepsInv(s: Store, a: Action, inUse: seq<IPAddress>, t: Store)
    requires Inv(s) && Step(s, a, inUse, t) && !Orphans(s, a, inUse) && (a.DeletePool? || a.ReconcilePool?)
    ensures Inv(t)
  {
    if |inUse| == 0 {
      RemovalKeepsInv(s, a.ref, inUse);
    }
  }

  lemma UpdateKeepsInv(s: Store, ref: PoolRef, spec: PoolSpec, inUse: seq<IPAddress>, t: Store)
    requires Inv(s) && Step(s, UpdatePool(ref, spec), inUse, t)
    ensures Inv(t)
  {
    forall k | k in s.addrs && s.addrs[k].pool == ref
      ensures InSpec(spec, s.addrs[k])
    {
      UpdateKeepsInSpec(s.pools[ref].spec, spec, inUse, s.addrs[k]);
    }
  }

  /** A pool that nothing refers to may leave. */
  lemma RemovalKeepsInv(s: Store, ref: PoolRef, inUse: seq<IPAddress>)
    requires Inv(s) && Listing(s, ref, inUse) && |inUse| == 0
    ensures Inv(s.(pools := s.pools - {ref}))
  {
  }

  lemma AllocationKeepsInv(s: Store, name: Name, ref: PoolRef, inUse: seq<IPAddress>, t: Store)
    requires Inv(s) && Step(s, AllocateFor(name, ref), inUse, t)
    ensures Inv(t)
  {
    var spec, blank := s.pools[ref].spec, NewAddress(name, ref);
    AllocateIsSafe(spec, blank, inUse);
    var b := Allocate(spec, blank, inUse).value;
    forall k | k in s.addrs && s.addrs[k].pool == ref
      ensures Apart(s.addrs[k], b)
    {
      var i :| 0 <= i < |inUse| && inUse[i] == s.addrs[k];
    }
    AdditionKeepsInv(s, name, b);
  }

  /** An object that is permitted and apart from the rest of its pool may join. */
  lemma AdditionKeepsInv(s: Store, name: Name, b: IPAddress)
    requires Inv(s) && name !in s.addrs && b.name == name && b.pool in s.pools && InSpec(s.pools[b.pool].spec, b)
    requires forall k :: k in s.addrs && s.addrs[k].pool == b.pool ==> Apart(s.addrs[k], b)
    ensures Inv(s.(addrs := s.addrs[name := b]))
  {
    AdditionKeepsNoOverlap(s, name, b);
  }

  lemma AdditionKeepsNoOverlap(s: Store, name: Name, b: IPAddress)
    requires NoOverlap(s) && name !in s.addrs
    requires forall k :: k in s.addrs && s.addrs[k].pool == b.pool ==> Apart(s.addrs[k], b)
    ensures NoOverlap(s.(addrs := s.addrs[name := b]))
  {
    var addrs := s.addrs[name := b];
    forall j, k | j in addrs && k in addrs && j != k && addrs[j].pool == addrs[k].pool
      ensures Apart(addrs[j], addrs[k])
    {
      if j == name {
        assert Apart(s.addrs[k], b);
      }
    }
  }

  // ---------- separation, whatever is skipped ----------

  /** The object holds what the code of its pool kind reads back: an address, or a prefix. */
  predicate Readable(a: IPAddress) {
    match a.pool.kind
    case AddressPool => ParsedAddr(a).Some?
    case PrefixPool => PrefixFromIPAddress(a).Some?
  }

  ghost predicate AllReadable(s: Store) {
    forall k :: k in s.addrs ==> s.addrs[k].name == k && Readable(s.addrs[k])
  }

  /** What survives every step: readable objects of which no two overlap within a pool. */
  ghost predicate Separate(s: Store) {
    PoolsOk(s) && AllReadable(s) && NoOverlap(s)
  }

  lemma InSpecIsReadable(spec: PoolSpec, a: IPAddress)
    requires InSpec(spec, a) && KindMatches(a.pool, spec)
    ensures Readable(a)
  {
    InSpecMeans(spec, a);
    if spec.IPSpec? {
      HasBound(PoolSpecToIPSetSpec(spec.ip).value, a.address.a);
    }
  }

  lemma AllocationKeepsSeparate(s: Store, name: Name, ref: PoolRef, inUse: seq<IPAddress>, t: Store)
    requires Separate(s) && Step(s, AllocateFor(name, ref), inUse, t)
    ensures Separate(t)
  {
    var spec, blank := s.pools[ref].spec, NewAddress(name, ref);
    AllocateIsSafe(spec, blank, inUse);
    var b := Allocate(spec, blank, inUse).value;
    InSpecIsReadable(spec, b);
    forall k | k in s.addrs && s.addrs[k].pool == ref
      ensures Apart(s.addrs[k], b)
    {
      var i :| 0 <= i < |inUse| && inUse[i] == s.addrs[k];
    }
    AdditionKeepsNoOverlap(s, name, b);
  }

  /** Every step keeps the objects of a pool separate, also a deletion that orphans them. */
  lemma StepKeepsSeparate(s: Store, a: Action, inUse: seq<IPAddress>, t: Store)
    requires Separate(s) && Step(s, a, inUse, t)
    ensures Separate(t)
  {
    if a.AllocateFor? {
      AllocationKeepsSeparate(s, a.name, a.ref, inUse, t);
    }
  }

  // ---------- runs ----------

  /** One entry of a run: the action and the list it read. */
  datatype Event = Event(action: Action, inUse: seq<IPAddress>)

  ghost predicate IsRun(states: seq<Store>, events: seq<Event>) {
    && |states| == |events| + 1
    && states[0] == EMPTY
    && forall i :: 0 <= i < |events| ==> StepAt(states, events, i)
  }

  ghost predicate StepAt(states: seq<Store>, events: seq<Event>, i: nat)
    requires i < |events| && |states| == |events| + 1
  {
    Step(states[i], events[i].action, events[i].inUse, states[i + 1])
  }

  /** None of the first n events leaves addresses without their pool. */
  ghost predicate NoOrphans(states: seq<Store>, events: seq<Event>, n: nat)
    requires |states| == |events| + 1 && n <= |events|
  {
    forall i :: 0 <= i < n ==> !Orphans(states[i], events[i].action, events[i].inUse)
  }

  lemma {:induction false} RunKeepsInv(states: seq<Store>, events: seq<Event>, n: nat)
    requires IsRun(states, events) && n < |states| && NoOrphans(states, events, n)
    ensures Inv(states[n])
    decreases n
  {
    if n > 0 {
      RunKeepsInv(states, events, n - 1);
      assert StepAt(states, events, n - 1);
      StepKeepsInv(states[n - 1], events[n - 1].action, events[n - 1].inUse, states[n]);
    }
  }

  lemma {:induction false} RunKeepsSeparate(states: seq<Store>, events: seq<Event>, n: nat)
    requires IsRun(states, events) && n < |states|
    ensures Separate(states[n])
    decreases n
  {
    if n > 0 {
      RunKeepsSeparate(states, events, n - 1);
      assert StepAt(states, events, n - 1);
      StepKeepsSeparate(states[n - 1], events[n - 1].action, events[n - 1].inUse, states[n]);
    }
  }

  /** Up to a point of a run every address has had its pool exactly when nothing was orphaned on the way. */
  lemma AddressesHavePools(states: seq<Store>, events: seq<Event>, n: nat)
    requires IsRun(states, events) && n < |states|
    ensures (forall m :: 0 <= m <= n ==> HavePools(states[m])) <==> NoOrphans(states, events, n)
  {
    if NoOrphans(states, events, n) {
      forall m | 0 <= m <= n
        ensures HavePools(states[m])
      {
        RunKeepsInv(states, events, m);
      }
    } else {
      var i :| 0 <= i < n && Orphans(states[i], events[i].action, events[i].inUse);
      assert StepAt(states, events, i);
      OrphansHaveNoPool(states[i], events[i].action, events[i].inUse, states[i + 1]);
      assert !HavePools(states[i + 1]);
    }
  }

  /** And so has every address been permitted by the spec of its pool. */
  lemma AllocationsStayInSpec(states: seq<Store>, events: seq<Event>, n: nat)
    requires IsRun(states, events) && n < |states|
    ensures (forall m :: 0 <= m <= n ==> Inv(states[m])) <==> NoOrphans(states, events, n)
  {
    if NoOrphans(states, events, n) {
      forall m | 0 <= m <= n
        ensures Inv(states[m])
      {
        RunKeepsInv(states, events, m);
      }
    } else {
      AddressesHavePools(states, events, n);
      var m :| 0 <= m <= n && !HavePools(states[m]);
      assert !Inv(states[m]);
    }
  }

  /** A permitted prefix has the allocation length and lies in the listed CIDRs, outside the exclusions. */
  lemma PermittedBlock(px: PrefixPoolSpec, a: IPAddress)
    requires PrefixPoolStatus.Permitted(px, a)
    ensures HasBlock(a) && a.prefix == Some(Length(px))
    ensures forall x: nat :: InBlockOf(a, x) ==> InListedCIDR(px, x) && !InExclusion(px, x)
  {
    var p := Prefix(a.address.a, Length(px));
    MaskedFacts(p);
    var start := BlockStart(p.addr, HostBits(p));
    assert BitLen(start) == BitLen(p.addr);
    forall x: nat | InBlockOf(a, x)
      ensures InBlock(start, Length(px), x)
    {
      RangeIsSameBits(p, x);
    }
  }

  /**
   While nothing was orphaned, each prefix in use has its pool's allocation length and lies in the listed CIDRs and
   outside the exclusions of the current spec.
   */
  lemma PrefixesStayAllocatable(states: seq<Store>, events: seq<Event>, n: nat, k: Name)
    requires IsRun(states, events) && n < |states| && NoOrphans(states, events, n)
    requires k in states[n].addrs && states[n].addrs[k].pool.kind == PrefixPool
    ensures var (s, a) := (states[n], states[n].addrs[k]);
      && a.pool in s.pools && s.pools[a.pool].spec.PrefixSpec?
      && HasBlock(a) && var px := s.pools[a.pool].spec.px;
      && a.prefix == Some(Length(px))
      && forall x: nat :: InBlockOf(a, x) ==> InListedCIDR(px, x) && !InExclusion(px, x)
  {
    var spec := SpecOfAddress(states, events, n, k);
    PermittedBlock(spec.px, states[n].addrs[k]);
  }

  lemma SpecOfAddress(states: seq<Store>, events: seq<Event>, n: nat, k: Name) returns (spec: PoolSpec)
    requires IsRun(states, events) && n < |states| && NoOrphans(states, events, n)
    requires k in states[n].addrs
    ensures var (s, a) := (states[n], states[n].addrs[k]);
      && a.pool in s.pools && spec == s.pools[a.pool].spec
      && KindMatches(a.pool, spec) && Accepted(spec) && InSpec(spec, a)
  {
    RunKeepsInv(states, events, n);
    spec := states[n].pools[states[n].addrs[k].pool].spec;
  }

  /** At every point of every run the prefixes of a pool are pairwise disjoint. */
  lemma PrefixesStayDisjoint(states: seq<Store>, events: seq<Event>, n: nat, j: Name, k: Name)
    requires IsRun(states, events) && n < |states|
    requires j in states[n].addrs && k in states[n].addrs && j != k
    requires states[n].addrs[j].pool == states[n].addrs[k].pool && states[n].addrs[j].pool.kind == PrefixPool
    ensures var (a, b) := (states[n].addrs[j], states[n].addrs[k]);
      HasBlock(a) && HasBlock(b) && forall x: nat :: !(InBlockOf(a, x) && InBlockOf(b, x))
  {
    RunKeepsSeparate(states, events, n);
    assert Apart(states[n].addrs[j], states[n].addrs[k]);
    DisjointBlocks(states[n].addrs[j], states[n].addrs[k]);
  }

  lemma DisjointBlocks(a: IPAddress, b: IPAddress)
    requires Apart(a, b) && a.pool.kind == b.pool.kind == PrefixPool
    ensures HasBlock(a) && HasBlock(b) && forall x: nat :: !(InBlockOf(a, x) && InBlockOf(b, x))
  {
    FootprintMeans(a);
    FootprintMeans(b);
    ApartMeans(a, b);
    assert forall x: nat :: Holds(a, x) <==> InBlockOf(a, x);
    assert forall x: nat :: Holds(b, x) <==> InBlockOf(b, x);
  }

  /**
   While nothing was orphaned, each address in use is listed by its pool's current spec, is not excluded, not the
   gateway and not reserved unless the spec permits it.
   */
  lemma AddressesStayUsable(states: seq<Store>, events: seq<Event>, n: nat, k: Name)
    requires IsRun(states, events) && n < |states| && NoOrphans(states, events, n)
    requires k in states[n].addrs && states[n].addrs[k].pool.kind == AddressPool
    ensures var (s, a) := (states[n], states[n].addrs[k]);
      && a.pool in s.pools && s.pools[a.pool].spec.IPSpec? && AddressPools.Admissible(s.pools[a.pool].spec.ip)
      && a.address.Single? && AddressPools.Usable(s.pools[a.pool].spec.ip, a.address.a)
  {
    var spec := SpecOfAddress(states, events, n, k);
    PermittedIsUsable(spec.ip, states[n].addrs[k]);
  }

  lemma PermittedIsUsable(ip: IPPoolSpec, a: IPAddress)
    requires AddressPools.Acceptable(ip) && InSpec(IPSpec(ip), a)
    ensures AddressPools.Admissible(ip) && a.address.Single? && AddressPools.Usable(ip, a.address.a)
  {
    InSpecMeans(IPSpec(ip), a);
    AddressPools.AcceptableMeans(ip);
    AddressPools.AcceptedSpecIsExact(ip);
  }

  /** At every point of every run the objects of an IP pool hold pairwise different addresses. */
  lemma AddressesStayDistinct(states: seq<Store>, events: seq<Event>, n: nat, j: Name, k: Name)
    requires IsRun(states, events) && n < |states|
    requires j in states[n].addrs && k in states[n].addrs && j != k
    requires states[n].addrs[j].pool == states[n].addrs[k].pool && states[n].addrs[j].pool.kind == AddressPool
    ensures var (a, b) := (states[n].addrs[j].address, states[n].addrs[k].address);
      a.Single? && b.Single? && a.a != b.a
  {
    RunKeepsSeparate(states, events, n);
    assert Apart(states[n].addrs[j], states[n].addrs[k]);
  }

  // ---------- the pool finalizer ----------

  /** A deletion is admitted exactly with the annotation or when no address refers to the pool. */
  lemma DeletionAdmitted(s: Store, ref: PoolRef, skip: bool, inUse: seq<IPAddress>)
    requires Listing(s, ref, inUse)
    ensures PrefixWebhook.ValidateDelete(skip, inUse) <==> skip || Unused(s, ref)
  {
    if |inUse| > 0 {
      assert inUse[0].name in s.addrs;
    }
  }

  predicate Protected(s: Store, ref: PoolRef) {
    ref in s.pools && s.pools[ref].protect
  }

  ghost predicate Unused(s: Store, ref: PoolRef) {
    forall k :: k in s.addrs ==> s.addrs[k].pool != ref
  }

  /** ProtectPool stays until the pool leaves, and the step at which it leaves has seen no address of it. */
  lemma ProtectedStep(s: Store, a: Action, inUse: seq<IPAddress>, t: Store, ref: PoolRef)
    requires Step(s, a, inUse, t) && Protected(s, ref)
    ensures Protected(t, ref) || (ref !in t.pools && Unused(s, ref) && t.addrs == s.addrs)
  {
  }

  /**
   In every run, from a state that carries ProtectPool on: when the pool is gone, it stayed protected up to the state i
   in which no address referred to it, and left with the next step, skip annotation or not.
   */
  lemma {:induction false} ProtectedPoolLeavesEmpty(states: seq<Store>, events: seq<Event>, m: nat, n: nat,
                                                    ref: PoolRef)
    returns (i: nat)
    requires IsRun(states, events) && m <= n < |states| && Protected(states[m], ref) && ref !in states[n].pools
    ensures m <= i < n && (forall x :: m <= x <= i ==> Protected(states[x], ref))
    ensures ref !in states[i + 1].pools && Unused(states[i], ref) && Unused(states[i + 1], ref)
    decreases n - m
  {
    assert StepAt(states, events, m);
    ProtectedStep(states[m], events[m].action, events[m].inUse, states[m + 1], ref);
    if Protected(states[m + 1], ref) {
      i := ProtectedPoolLeavesEmpty(states, events, m + 1, n, ref);
    } else {
      i := m;
    }
  }

  /** With the annotation an unprotected pool can leave its addresses behind. */
  lemma SkipOrphans(s: Store, ref: PoolRef, k: Name, inUse: seq<IPAddress>)
    requires ref in s.pools && !s.pools[ref].protect
    requires k in s.addrs && s.addrs[k].pool == ref && Listing(s, ref, inUse)
    ensures exists t ::
              && Step(s, DeletePool(ref, true), inUse, t)
              && k in t.addrs && t.addrs[k].pool == ref && ref !in t.pools
  {
    var t := s.(pools := s.pools - {ref});
    assert Step(s, DeletePool(ref, true), inUse, t);
  }
}
