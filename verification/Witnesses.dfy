/** Runs from the empty state in which the code fails: orphaned addresses, a missed wake-up, a doubled allocation. */
module Witnesses {
  import opened Wrappers
  import opened Netip
  import opened IPSets
  import opened Api
  import opened PrefixAllocator
  import opened AddressAllocator
  import opened AddressRequirements
  import opened ClaimHandlers
  import AddressPools
  import PoolSafety
  import ClaimSystem
  import ClaimInvariant
  import ClaimRuns

  // ---------- a pool of one address ----------

  const POOL := PoolRef(AddressPool, 0)

  function OneAddress(a: nat): IPPoolSpec {
    IPPoolSpec([Single(a)], 24, NoGateway, true, [], None)
  }

  predicate IsIPv4(a: nat) {
    a < V4_COUNT
  }

  lemma OneAddressPool(a: nat)
    requires IsIPv4(a)
    ensures Accepted(IPSpec(OneAddress(a))) && PoolSpecToIPSetSpec(OneAddress(a)).Ok?
    ensures forall x: nat :: Has(PoolSpecToIPSetSpec(OneAddress(a)).value, x) <==> x == a
  {
    var spec := OneAddress(a);
    assert EntryRange(spec.addresses[0]) == Some(Range(a, a));
    CollectHas(spec.addresses, EntryRange, a);
    var s := AddressesToIPSet(spec.addresses).value;
    assert Has(s, s[0].from) by {
      assert InRange(s[0], s[0].from);
    }
    CollectHas(spec.addresses, EntryRange, s[0].from);
    assert AddressPools.Acceptable(spec);
    AddressPools.AcceptedSpecIsExact(spec);
  }

  function Holding(name: Name, a: nat): IPAddress {
    NewAddress(name, POOL).(address := Single(a), prefix := Some(24))
  }

  lemma HeldMeansUsed(inUse: seq<IPAddress>, a: nat)
    requires AddressPools.AllSingle(inUse)
    ensures AllAddresses(inUse)
    ensures HeldBySome(inUse, a) <==> UsedBy(inUse, a)
  {
    forall i | 0 <= i < |inUse|
      ensures inUse[i].address.Single? && IsAddr(inUse[i].address.a)
    {
      assert ParsedAddr(inUse[i]).Some?;
    }
  }

  /** The pool of the one address a hands out just that, unless it is in use. */
  lemma OneAddressAllocation(a: nat, name: Name, inUse: seq<IPAddress>)
    requires IsIPv4(a) && AddressPools.AllSingle(inUse)
    ensures Allocate(IPSpec(OneAddress(a)), NewAddress(name, POOL), inUse).Ok? <==> !UsedBy(inUse, a)
    ensures !UsedBy(inUse, a) ==>
              Allocate(IPSpec(OneAddress(a)), NewAddress(name, POOL), inUse) == Ok(Holding(name, a))
  {
    OneAddressServes(a, inUse);
    AllocatesIffServes(IPSpec(OneAddress(a)), NewAddress(name, POOL), inUse);
    OneAddressPool(a);
  }

  lemma OneAddressServes(a: nat, inUse: seq<IPAddress>)
    requires IsIPv4(a) && AddressPools.AllSingle(inUse)
    ensures Serves(IPSpec(OneAddress(a)), inUse) <==> !UsedBy(inUse, a)
  {
    OneAddressPool(a);
    HeldMeansUsed(inUse, a);
    BuildableMeans(OneAddress(a));
    forall x: nat
      ensures InPool(OneAddress(a), x) <==> x == a
    {
      AddressRequirements.PoolMeans(OneAddress(a), x);
    }
    assert !UsedBy(inUse, a) ==> Available(IPSpec(OneAddress(a)), inUse, a);
  }

  // ---------- atomic steps: orphans, and a wake-up that does not come ----------

  function PoolOf(a: nat): Pool {
    Pool(IPSpec(OneAddress(a)), false, false)
  }

  ghost predicate Ends(states: seq<PoolSafety.Store>, events: seq<PoolSafety.Event>, s: PoolSafety.Store) {
    PoolSafety.IsRun(states, events) && states[|events|] == s
  }

  lemma RunGrows(states: seq<PoolSafety.Store>, events: seq<PoolSafety.Event>, s: PoolSafety.Store,
                 a: PoolSafety.Action, inUse: seq<IPAddress>, t: PoolSafety.Store)
    requires Ends(states, events, s) && PoolSafety.Step(s, a, inUse, t)
    ensures Ends(states + [t], events + [PoolSafety.Event(a, inUse)], t)
  {
    var longer, more := states + [t], events + [PoolSafety.Event(a, inUse)];
    forall i | 0 <= i < |more|
      ensures PoolSafety.StepAt(longer, more, i)
    {
      assert i < |events| ==> PoolSafety.StepAt(states, events, i);
    }
  }

  /** A run may go on with a pool of the one address a. */
  lemma CreateOne(states: seq<PoolSafety.Store>, events: seq<PoolSafety.Event>, s: PoolSafety.Store, a: nat)
    returns (longer: seq<PoolSafety.Store>, more: seq<PoolSafety.Event>, t: PoolSafety.Store)
    requires Ends(states, events, s) && s.pools == map[] && IsIPv4(a)
    ensures Ends(longer, more, t) && t == PoolSafety.Store(map[POOL := PoolOf(a)], s.addrs)
    ensures longer == states + [t] && |more| == |events| + 1
  {
    var action := PoolSafety.CreatePool(POOL, IPSpec(OneAddress(a)));
    t := PoolSafety.Store(map[POOL := PoolOf(a)], s.addrs);
    OneAddressPool(a);
    RunGrows(states, events, s, action, [], t);
    longer, more := states + [t], events + [PoolSafety.Event(action, [])];
  }

  /** And with an allocation from it. */
  lemma AllocateOne(states: seq<PoolSafety.Store>, events: seq<PoolSafety.Event>, s: PoolSafety.Store,
                    a: nat, name: Name, inUse: seq<IPAddress>)
    returns (longer: seq<PoolSafety.Store>, more: seq<PoolSafety.Event>, t: PoolSafety.Store)
    requires Ends(states, events, s) && s.pools == map[POOL := PoolOf(a)] && name !in s.addrs && IsIPv4(a)
    requires PoolSafety.Listing(s, POOL, inUse) && AddressPools.AllSingle(inUse) && !UsedBy(inUse, a)
    ensures Ends(longer, more, t) && t == s.(addrs := s.addrs[name := Holding(name, a)])
    ensures longer == states + [t] && |more| == |events| + 1
  {
    t := s.(addrs := s.addrs[name := Holding(name, a)]);
    OneAddressAllocation(a, name, inUse);
    RunGrows(states, events, s, PoolSafety.AllocateFor(name, POOL), inUse, t);
    longer, more := states + [t], events + [PoolSafety.Event(PoolSafety.AllocateFor(name, POOL), inUse)];
  }

  /** From the empty store, two steps and a deletion with the skip annotation leave an address without its pool. */
  lemma SkippedDeletionOrphans(a: nat)
    returns (states: seq<PoolSafety.Store>, events: seq<PoolSafety.Event>, t: PoolSafety.Store)
    requires IsIPv4(a)
    ensures Ends(states, events, t) && t == PoolSafety.Store(map[], map[0 := Holding(0, a)])
    ensures !PoolSafety.HavePools(t)
  {
    assert PoolSafety.IsRun([PoolSafety.EMPTY], []);
    var s;
    states, events, s := CreateOne([PoolSafety.EMPTY], [], PoolSafety.EMPTY, a);
    states, events, s := AllocateOne(states, events, s, a, 0, []);
    t := PoolSafety.Store(map[], map[0 := Holding(0, a)]);
    assert s.pools - {POOL} == map[] && s.addrs == t.addrs;
    RunGrows(states, events, s, PoolSafety.DeletePool(POOL, true), [Holding(0, a)], t);
    states, events := states + [t], events + [PoolSafety.Event(PoolSafety.DeletePool(POOL, true), [Holding(0, a)])];
    assert 0 in t.addrs;
  }

  function StatusOf(total: nat, used: nat, outOfRange: nat): AddressPools.Status {
    AddressPools.Status(total, used, total - used, outOfRange)
  }

  /** The status of the pool of the one address b while out is in use outside it, and maybe b inside. */
  lemma OneAddressStatus(b: nat, inUse: seq<IPAddress>, out: nat)
    requires IsIPv4(b) && IsIPv4(out) && out != b
    requires inUse == [Holding(0, out)] || inUse == [Holding(0, out), Holding(1, b)]
    ensures AddressPools.Regular(OneAddress(b), inUse, StatusOf(1, |inUse|, 1))
  {
    OneAddressPool(b);
    var pool := PoolSpecToIPSetSpec(OneAddress(b)).value;
    assert Addrs(pool) == {b};
    OneOutside(b, inUse, out, pool);
  }

  lemma OneOutside(b: nat, inUse: seq<IPAddress>, out: nat, pool: IPSet)
    requires IsIPv4(b) && IsIPv4(out) && out != b && forall x: nat :: Has(pool, x) <==> x == b
    requires inUse == [Holding(0, out)] || inUse == [Holding(0, out), Holding(1, b)]
    ensures AddressPools.AllSingle(inUse) && AddressPools.DistinctAddrs(inUse)
    ensures AddressPools.UsedOutside(inUse, pool) == {out}
  {
    assert ParsedAddr(inUse[0]) == Some(out) && (|inUse| == 2 ==> ParsedAddr(inUse[1]) == Some(b));
  }

  /** The pool {out} hands out its address, is deleted with the annotation and comes back as {b}, which hands out b. */
  lemma ExhaustedPool(out: nat, b: nat)
    returns (states: seq<PoolSafety.Store>, events: seq<PoolSafety.Event>, s: PoolSafety.Store)
    requires IsIPv4(out) && IsIPv4(b) && out != b
    ensures Ends(states, events, s)
    ensures s == PoolSafety.Store(map[POOL := PoolOf(b)], map[0 := Holding(0, out), 1 := Holding(1, b)])
  {
    states, events, s := SkippedDeletionOrphans(out);
    states, events, s := CreateOne(states, events, s, b);
    assert ParsedAddr(Holding(0, out)) == Some(out);
    states, events, s := AllocateOne(states, events, s, b, 1, [Holding(0, out)]);
  }

  /**
   The missed wake-up, from the empty store: in that state b is given back. The step turns allocation from impossible
   to possible, and the statuses before and after it wake nobody.
   */
  lemma MissedWakeUp(out: nat, b: nat)
    returns (states: seq<PoolSafety.Store>, events: seq<PoolSafety.Event>, s: PoolSafety.Store, t: PoolSafety.Store)
    requires IsIPv4(out) && IsIPv4(b) && out != b
    ensures Ends(states, events, s) && PoolSafety.Step(s, PoolSafety.ReleaseOf(1), [], t)
    ensures s.pools == t.pools == map[POOL := PoolOf(b)]
    ensures PoolSafety.Listing(s, POOL, [Holding(0, out), Holding(1, b)])
    ensures PoolSafety.Listing(t, POOL, [Holding(0, out)])
    ensures WakesNobody(b, [Holding(0, out), Holding(1, b)], [Holding(0, out)])
  {
    states, events, s := ExhaustedPool(out, b);
    BothListed(s, out, b);
    t := ReleaseInner(s, out, b);
    ReleaseWakesNobody(out, b);
  }

  lemma ReleaseInner(s: PoolSafety.Store, out: nat, b: nat) returns (t: PoolSafety.Store)
    requires s.addrs == map[0 := Holding(0, out), 1 := Holding(1, b)]
    ensures PoolSafety.Step(s, PoolSafety.ReleaseOf(1), [], t) && t.pools == s.pools
    ensures PoolSafety.Listing(t, POOL, [Holding(0, out)])
  {
    t := s.(addrs := s.addrs - {1});
    assert t.addrs == map[0 := Holding(0, out)];
  }

  lemma BothListed(s: PoolSafety.Store, out: nat, b: nat)
    requires s.addrs == map[0 := Holding(0, out), 1 := Holding(1, b)]
    ensures PoolSafety.Listing(s, POOL, [Holding(0, out), Holding(1, b)])
  {
    var inUse := [Holding(0, out), Holding(1, b)];
    assert inUse[0] in inUse && inUse[1] in inUse;
  }

  /** Allocation went from exhausted to possible between the two regular snapshots, without a wake-up. */
  ghost predicate WakesNobody(b: nat, before: seq<IPAddress>, after: seq<IPAddress>) {
    PoolSpecToIPSetSpec(OneAddress(b)).Ok? &&
    exists s, t ::
      && AddressPools.Regular(OneAddress(b), before, s) && AddressPools.Regular(OneAddress(b), after, t)
      && InUseIPSet(before, NoGateway).Some? && InUseIPSet(after, NoGateway).Some?
      && AddressPools.Choice(OneAddress(b), before).Err? && AddressPools.Choice(OneAddress(b), after).Ok?
      && !AddressPools.PoolNoLongerEmpty(Some(s), Some(t))
  }

  lemma ReleaseWakesNobody(out: nat, b: nat)
    requires IsIPv4(out) && IsIPv4(b) && out != b
    ensures WakesNobody(b, [Holding(0, out), Holding(1, b)], [Holding(0, out)])
  {
    var before, after := [Holding(0, out), Holding(1, b)], [Holding(0, out)];
    var s, t := StatusOf(1, 2, 1), StatusOf(1, 1, 1);
    OneAddressStatus(b, before, out);
    OneAddressStatus(b, after, out);
    AddressPools.WakesWhenPossible(OneAddress(b), before, s, OneAddress(b), after, t);
    ChoiceIfUnused(b, before);
    ChoiceIfUnused(b, after);
    assert ParsedAddr(before[1]) == Some(b);
    assert ParsedAddr(after[0]) == Some(out);
  }

  lemma ChoiceIfUnused(b: nat, inUse: seq<IPAddress>)
    requires IsIPv4(b) && PoolSpecToIPSetSpec(OneAddress(b)).Ok? && AddressPools.AllSingle(inUse)
    requires InUseIPSet(inUse, NoGateway).Some?
    ensures AddressPools.Choice(OneAddress(b), inUse).Ok? <==> !UsedBy(inUse, b)
    ensures AddressPools.Choice(OneAddress(b), inUse).Err? <==> UsedBy(inUse, b)
  {
    OneAddressAllocation(b, 0, inUse);
  }

  // ---------- calls and caches: a wait that times out ----------

  ghost predicate Reachable(s: ClaimSystem.State) {
    exists states, actions :: ClaimRuns.IsRun(states, actions) && states[|actions|] == s
  }

  lemma ReachedNext(s: ClaimSystem.State, a: ClaimSystem.Action, t: ClaimSystem.State)
    requires Reachable(s) && ClaimSystem.Step(s, a, t)
    ensures Reachable(t)
  {
    var states, actions :| ClaimRuns.IsRun(states, actions) && states[|actions|] == s;
    var longer, more := states + [t], actions + [a];
    forall i | 0 <= i < |more|
      ensures ClaimSystem.StepAt(longer, more, i)
    {
      assert i < |actions| ==> ClaimSystem.StepAt(states, actions, i);
    }
    assert ClaimRuns.IsRun(longer, more);
  }

  /** Before anything is allocated: the pool {a} and claims 0 and 1 with the finalizer, seen by everybody. */
  ghost predicate Prepared(s: ClaimSystem.State, a: nat) {
    && s.worker == ClaimSystem.Idle
    && ClaimSystem.At(s.pools, POOL) == [Some(PoolOf(a))]
    && (forall k: Name :: ClaimSystem.At(s.addrs, k) == [None])
    && (forall k: Name :: k < 2 ==> ClaimSystem.At(s.claims, k) == [Some(ClaimSystem.Claim(POOL, true, None))])
  }

  lemma Prepare(a: nat) returns (s: ClaimSystem.State)
    ensures Reachable(s) && Prepared(s, a)
  {
    s := ClaimSystem.State(map[], map[], map[], 0, ClaimSystem.Idle);
    assert ClaimRuns.IsRun([s], []);
    s := WriteOne(s, a);
    s := ClaimOne(s, 0);
    s := ClaimOne(s, 1);
  }

  lemma WriteOne(s: ClaimSystem.State, a: nat) returns (t: ClaimSystem.State)
    requires Reachable(s) && s.worker == ClaimSystem.Idle && ClaimSystem.At(s.pools, POOL) == [None]
    ensures Reachable(t) && t == s.(pools := t.pools) && ClaimSystem.At(t.pools, POOL) == [Some(PoolOf(a))]
  {
    var u := s.(pools := ClaimSystem.Put(s.pools, POOL, Some(PoolOf(a))));
    ReachedNext(s, ClaimSystem.WritePool(POOL, Some(PoolOf(a))), u);
    t := u.(pools := ClaimSystem.Advance(u.pools, POOL));
    ReachedNext(u, ClaimSystem.SyncPool(POOL), t);
  }

  /** A claim is created, seen, and given the finalizer, which is seen too. */
  lemma ClaimOne(s: ClaimSystem.State, k: Name) returns (t: ClaimSystem.State)
    requires Reachable(s) && s.worker == ClaimSystem.Idle && ClaimSystem.At(s.claims, k) == [None]
    ensures Reachable(t) && t == s.(claims := t.claims)
    ensures ClaimSystem.At(t.claims, k) == [Some(ClaimSystem.Claim(POOL, true, None))]
    ensures forall j: Name :: j != k ==> ClaimSystem.At(t.claims, j) == ClaimSystem.At(s.claims, j)
  {
    var plain, kept := ClaimSystem.Claim(POOL, false, None), ClaimSystem.Claim(POOL, true, None);
    var u := ClaimSystem.PutClaim(s, k, Some(plain));
    ReachedNext(s, ClaimSystem.CreateClaim(k, POOL), u);
    var v := u.(claims := ClaimSystem.Advance(u.claims, k));
    ReachedNext(u, ClaimSystem.SyncClaim(k), v);
    var w := v.(worker := ClaimSystem.AddingFinalizer(k));
    ReachedNext(v, ClaimSystem.Begin(k), w);
    var x := ClaimSystem.PutClaim(w, k, Some(kept)).(worker := ClaimSystem.Idle);
    ReachedNext(w, ClaimSystem.Work([]), x);
    t := x.(claims := ClaimSystem.Advance(x.claims, k));
    ReachedNext(x, ClaimSystem.SyncClaim(k), t);
  }

  lemma {:induction false} PathReaches(states: seq<ClaimSystem.State>, actions: seq<ClaimSystem.Action>, n: nat)
    requires ClaimSystem.IsPath(states, actions) && Reachable(states[0]) && n < |states|
    ensures Reachable(states[n])
    decreases n
  {
    if n > 0 {
      PathReaches(states, actions, n - 1);
      assert ClaimSystem.StepAt(states, actions, n - 1);
      ReachedNext(states[n - 1], actions[n - 1], states[n]);
    }
  }

  lemma OwnPathReaches(s: ClaimSystem.State, t: ClaimSystem.State)
    requires Reachable(s) && ClaimSystem.OwnPath(s, t)
    ensures Reachable(t)
  {
    var states, actions :|
      ClaimSystem.IsPath(states, actions) && states[0] == s && states[|actions|] == t;
    PathReaches(states, actions, |actions|);
  }

  lemma FirstChoice(a: nat, name: Name)
    requires IsIPv4(a)
    ensures ClaimSystem.Mutated(NewAddress(name, POOL), IPSpec(OneAddress(a)), []) == Ok(Holding(name, a))
  {
    OneAddressAllocation(a, name, []);
  }

  lemma NobodyListed(s: ClaimSystem.State)
    requires forall k: Name :: ClaimSystem.Cached(s.addrs, k).None?
    ensures ClaimSystem.Listing(s, POOL, [])
  {
  }

  /** The calls that give a to claim 0, of which the cache does not know yet. */
  lemma FirstAllocation(p: ClaimSystem.State, a: nat) returns (s: ClaimSystem.State)
    requires IsIPv4(a) && Reachable(p) && Prepared(p, a)
    ensures Reachable(s)
    ensures s == ClaimSystem.PutAddr(p, 0, Some(Holding(0, a))).(worker := ClaimSystem.Waiting(0, true))
  {
    var claim, pool := ClaimSystem.Claim(POOL, true, None), PoolOf(a);
    assert ClaimSystem.At(p.claims, 0) == [Some(claim)] && ClaimSystem.At(p.addrs, 0) == [None];
    ClaimRuns.ReadsToEnsure(p, 0, claim, pool);
    FirstChoice(a, 0);
    NobodyListed(p);
    s := ClaimSystem.PutAddr(p, 0, Some(Holding(0, a))).(worker := ClaimSystem.Waiting(0, true));
    ReachedByAllocation(p, a, claim, pool);
  }

  lemma ReachedByAllocation(p: ClaimSystem.State, a: nat, claim: ClaimSystem.Claim, pool: Pool)
    requires Reachable(p) && p.worker == ClaimSystem.Idle && ClaimSystem.LiveAddr(p, 0).None?
    requires ClaimSystem.Listing(p, claim.pool, []) && claim.pool == POOL
    requires ClaimSystem.Mutated(NewAddress(0, POOL), pool.spec, []) == Ok(Holding(0, a))
    requires ClaimSystem.OwnPath(p.(worker := ClaimSystem.Idle),
                                 p.(worker := ClaimSystem.GotAddress(0, claim, None, pool.spec)))
    ensures Reachable(ClaimSystem.PutAddr(p, 0, Some(Holding(0, a))).(worker := ClaimSystem.Waiting(0, true)))
  {
    ClaimRuns.EnsureToCreate(p, [], 0, claim, pool, Holding(0, a));
    assert p.(worker := ClaimSystem.Idle) == p;
    OwnPathReaches(p, ClaimSystem.PutAddr(p, 0, Some(Holding(0, a))).(worker := ClaimSystem.Waiting(0, true)));
  }

  /** A run from the initial state to a wait whose time-out leads to two live addresses of one pool that overlap. */
  lemma TimeoutOverlaps(a: nat) returns (s: ClaimSystem.State, t: ClaimSystem.State)
    requires IsIPv4(a)
    ensures Reachable(s) && s.worker == ClaimSystem.Waiting(0, true)
    ensures ClaimSystem.OwnPath(s.(worker := ClaimSystem.Idle), t) && !ClaimInvariant.NoOverlap(t)
    ensures ClaimSystem.LiveAddr(t, 0) == Some(Holding(0, a)) && ClaimSystem.LiveAddr(t, 1) == Some(Holding(1, a))
  {
    var p := Prepare(a);
    s := FirstAllocation(p, a);
    assert forall k: Name :: k != 0 ==> ClaimSystem.At(s.addrs, k) == ClaimSystem.At(p.addrs, k);
    FirstChoice(a, 0);
    NobodyListed(s);
    t := ClaimRuns.TimeoutDoublesAllocation(s, [], 1, 0, ClaimSystem.Claim(POOL, true, None), PoolOf(a));
  }
}
