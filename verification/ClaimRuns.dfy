/** What the claim lifecycle guarantees over whole runs, with every interleaving, crash and cache delay. */
module ClaimRuns {
  import opened Wrappers
  import opened Netip
  import opened Api
  import opened ClaimHandlers
  import opened ClaimSystem
  import opened ClaimInvariant

  ghost predicate IsRun(states: seq<State>, actions: seq<Action>) {
    IsPath(states, actions) && Initial(states[0])
  }

  lemma {:induction false} RunKeepsInv(states: seq<State>, actions: seq<Action>, n: nat)
    requires IsRun(states, actions) && n < |states|
    ensures Inv(states[n])
    decreases n
  {
    if n == 0 {
      InitialInv(states[0]);
    } else {
      RunKeepsInv(states, actions, n - 1);
      assert StepAt(states, actions, n - 1);
      StepKeepsInv(states[n - 1], actions[n - 1], states[n]);
    }
  }

  // ---------- the cache and double allocation ----------

  /** When a reconcile starts, the cache holds every live address with its allocation. */
  lemma CacheIsCompleteAtBegin(states: seq<State>, actions: seq<Action>, n: nat, j: Name)
    requires IsRun(states, actions) && n < |actions| && actions[n].Begin?
    requires LiveAddr(states[n], j).Some?
    ensures Cached(states[n].addrs, j).Some?
    ensures SameAllocation(Cached(states[n].addrs, j).value, LiveAddr(states[n], j).value)
  {
    RunKeepsInv(states, actions, n);
    assert StepAt(states, actions, n);
    CacheHoldsLive(states[n], j);
  }

  /** No two live addresses of a pool ever overlap. */
  lemma LiveAddressesNeverOverlap(states: seq<State>, actions: seq<Action>, n: nat, j: Name, k: Name)
    requires IsRun(states, actions) && n < |states| && j != k
    requires LiveAddr(states[n], j).Some? && LiveAddr(states[n], k).Some?
    requires LiveAddr(states[n], j).value.pool == LiveAddr(states[n], k).value.pool
    ensures var (a, b) := (LiveAddr(states[n], j).value, LiveAddr(states[n], k).value);
            HoldsSome(a) && HoldsSome(b) && NoneShared(a, b)
  {
    RunKeepsInv(states, actions, n);
    assert ApartAt(states[n], j, k);
    ApartMeans(LiveAddr(states[n], j).value, LiveAddr(states[n], k).value);
  }

  // ---------- the claim outlives its address ----------

  /** A live address has a live claim of the same pool that carries the ReleaseAddress finalizer. */
  lemma LiveAddressHasClaim(states: seq<State>, actions: seq<Action>, n: nat, k: Name)
    requires IsRun(states, actions) && n < |states| && LiveAddr(states[n], k).Some?
    ensures LiveClaim(states[n], k).Some? && LiveClaim(states[n], k).value.fin
    ensures LiveClaim(states[n], k).value.pool == LiveAddr(states[n], k).value.pool
  {
    RunKeepsInv(states, actions, n);
    assert KeyAt(states[n], k);
  }

  /** The claim that a releasing worker works for. */
  function ReleaseOf(w: Worker, k: Name): Option<Claim> {
    if (w.Releasing? || w.Unprotecting? || w.Deleting? || w.Clearing?) && w.k == k then Some(w.claim) else None
  }

  ghost predicate Removed(s: State, t: State, k: Name) {
    LiveAddr(s, k).Some? && LiveAddr(t, k).None?
  }

  lemma RemovalStep(s: State, a: Action, t: State, k: Name)
    requires Step(s, a, t) && Removed(s, t, k)
    ensures t.claims == s.claims
    ensures || (a == DeleteAddress(k) && !LiveAddr(s, k).value.protect)
            || (a.Work? && (s.worker.Unprotecting? || s.worker.Deleting?) && s.worker.k == k)
  {
    if a.Work? {
      WorkRemoval(s, a.inUse, t, k);
    }
  }

  lemma WorkRemoval(s: State, inUse: seq<IPAddress>, t: State, k: Name)
    requires t == Worked(s, inUse) && Removed(s, t, k)
    ensures t.claims == s.claims && (s.worker.Unprotecting? || s.worker.Deleting?) && s.worker.k == k
  {
    if s.worker.Idle? || s.worker.k != k || !WritesAddress(s.worker) {
      ElsewhereUntouched(s, inUse, t, k);
    }
  }

  lemma ElsewhereUntouched(s: State, inUse: seq<IPAddress>, t: State, k: Name)
    requires t == Worked(s, inUse) && (s.worker.Idle? || s.worker.k != k || !WritesAddress(s.worker))
    ensures LiveAddr(t, k) == LiveAddr(s, k)
  {
  }

  /** A removal is a release, or the deletion of an address that a release has unprotected. */
  lemma RemovalIsRelease(s: State, a: Action, t: State, k: Name)
    requires KeysOk(s) && Step(s, a, t) && Removed(s, t, k)
    ensures Fin(LiveClaim(s, k)) && Deleted(LiveClaim(s, k)) && LiveClaim(t, k) == LiveClaim(s, k)
    ensures ReleaseOf(s.worker, k) == LiveClaim(s, k) || !LiveAddr(s, k).value.protect
  {
    assert KeyAt(s, k);
    RemovalStep(s, a, t, k);
  }

  /** An address is removed only while its claim is being deleted and still there. */
  lemma RemovedOnlyWhileClaimIsDeleting(states: seq<State>, actions: seq<Action>, n: nat, k: Name)
    requires IsRun(states, actions) && n < |actions| && Removed(states[n], states[n + 1], k)
    ensures LiveClaim(states[n], k).Some? && LiveClaim(states[n], k).value.deletedAt.Some?
    ensures LiveClaim(states[n], k).value.fin && LiveClaim(states[n + 1], k) == LiveClaim(states[n], k)
  {
    RunKeepsInv(states, actions, n);
    assert StepAt(states, actions, n);
    RemovalIsRelease(states[n], actions[n], states[n + 1], k);
  }

  // ---------- stability ----------

  ghost predicate LiveThroughout(states: seq<State>, m: nat, n: nat, k: Name)
    requires m <= n < |states|
  {
    forall i :: m <= i <= n ==> LiveAddr(states[i], k).Some?
  }

  /** While an address lives, its address, prefix length, gateway and pool never change. */
  lemma {:induction false} AllocationIsStable(states: seq<State>, actions: seq<Action>, m: nat, n: nat, k: Name)
    requires IsRun(states, actions) && m <= n < |states| && LiveThroughout(states, m, n, k)
    ensures SameAllocation(LiveAddr(states[m], k).value, LiveAddr(states[n], k).value)
    decreases n
  {
    if m < n {
      AllocationIsStable(states, actions, m, n - 1, k);
      NextAllocationIsSame(states, actions, n - 1, k);
    }
  }

  lemma NextAllocationIsSame(states: seq<State>, actions: seq<Action>, n: nat, k: Name)
    requires IsRun(states, actions) && n < |actions|
    requires LiveAddr(states[n], k).Some? && LiveAddr(states[n + 1], k).Some?
    ensures SameAllocation(LiveAddr(states[n], k).value, LiveAddr(states[n + 1], k).value)
  {
    RunKeepsInv(states, actions, n);
    assert StepAt(states, actions, n);
    AllocationsStay(states[n], actions[n], states[n + 1], k);
  }

  // ---------- the grace period ----------

  /** v was the live version of the pool in some state up to n. */
  ghost predicate WasLive(states: seq<State>, n: nat, ref: PoolRef, v: Option<Pool>)
    requires n < |states|
  {
    exists h: nat :: h <= n && Live(states[h].pools, ref) == v
  }

  lemma PoolWindowStep(s: State, a: Action, t: State, ref: PoolRef, x: nat) returns (y: int)
    requires Step(s, a, t) && x < |At(t.pools, ref)|
    ensures At(t.pools, ref)[x] == Live(t.pools, ref)
            || (0 <= y < |At(s.pools, ref)| && At(t.pools, ref)[x] == At(s.pools, ref)[y])
  {
    y := if a == SyncPool(ref) && |At(s.pools, ref)| > 1 then x + 1 else x;
  }

  /** In every run each version of a pool that a cache holds or will hold was once in force. */
  lemma {:induction false} PoolVersionsWereLive(states: seq<State>, actions: seq<Action>, n: nat, ref: PoolRef, x: nat)
    requires IsRun(states, actions) && n < |states| && x < |At(states[n].pools, ref)|
    ensures WasLive(states, n, ref, At(states[n].pools, ref)[x])
    decreases n
  {
    if n == 0 || At(states[n].pools, ref)[x] == Live(states[n].pools, ref) {
      assert Live(states[n].pools, ref) == At(states[n].pools, ref)[x];
    } else {
      assert StepAt(states, actions, n - 1);
      var y := PoolWindowStep(states[n - 1], actions[n - 1], states[n], ref, x);
      PoolVersionsWereLive(states, actions, n - 1, ref, y);
      var h: nat :| h <= n - 1 && Live(states[h].pools, ref) == At(states[n].pools, ref)[x];
    }
  }

  /**
   At j the worker, holding the pool that it read from the cache at i in the same reconcile, decides to release. The
   version it judges was once in force.
   */
  ghost predicate DecidedAt(states: seq<State>, i: nat, j: nat, k: Name, claim: Claim, pool: Option<Pool>)
    requires i < j < |states|
  {
    && states[i].worker == GotClaim(k, claim) && Cached(states[i].pools, claim.pool) == pool
    && WasLive(states, i, claim.pool, pool)
    && (forall m :: i < m <= j ==> states[m].worker == GotPool(k, claim, pool))
    && claim.deletedAt.Some? && GraceOver(claim.deletedAt.value, pool, states[j].now)
  }

  /** Such a decision has been taken by n, and it still stands. */
  ghost predicate Decided(states: seq<State>, n: nat, k: Name, claim: Claim)
    requires n < |states|
  {
    claim.deletedAt.Some? && exists i: nat, j: nat, pool ::
      i < j <= n && DecidedAt(states, i, j, k, claim, pool)
      && GraceOver(claim.deletedAt.value, pool, states[n].now)
  }

  /** The pool in the worker's hands came from the cache, in this reconcile. */
  ghost predicate PoolWasRead(states: seq<State>, n: nat)
    requires n < |states|
  {
    states[n].worker.GotPool? ==>
      exists i: nat :: i < n && ReadAt(states, i, n)
  }

  ghost predicate ReadAt(states: seq<State>, i: nat, n: nat)
    requires i < n < |states| && states[n].worker.GotPool?
  {
    var w := states[n].worker;
    && states[i].worker == GotClaim(w.k, w.claim) && Cached(states[i].pools, w.claim.pool) == w.pool
    && WasLive(states, i, w.claim.pool, w.pool)
    && forall m :: i < m <= n ==> states[m].worker == w
  }

  ghost predicate History(states: seq<State>, n: nat, k: Name)
    requires n < |states|
  {
    && PoolWasRead(states, n)
    && (ReleaseOf(states[n].worker, k).Some? ==> Decided(states, n, k, ReleaseOf(states[n].worker, k).value))
    && (Unprotected(states[n], k) ==>
          LiveClaim(states[n], k).Some? && Decided(states, n, k, LiveClaim(states[n], k).value))
  }

  lemma GotPoolComesFrom(s: State, a: Action, t: State)
    requires Step(s, a, t) && t.worker.GotPool?
    ensures t.worker == s.worker
            || (s.worker == GotClaim(t.worker.k, t.worker.claim)
                && Cached(s.pools, t.worker.claim.pool) == t.worker.pool)
  {
  }

  /** A release starts with a decision. */
  lemma ReleaseComesFrom(s: State, a: Action, t: State, k: Name)
    requires Step(s, a, t) && ReleaseOf(t.worker, k).Some?
    ensures var claim := ReleaseOf(t.worker, k).value;
      || ReleaseOf(s.worker, k) == Some(claim)
      || (&& s.worker.GotPool? && s.worker.k == k && s.worker.claim == claim && claim.deletedAt.Some?
          && GraceOver(claim.deletedAt.value, s.worker.pool, s.now))
  {
    if a.Work? {
      WorkReleases(s, a.inUse, k);
    }
  }

  lemma WorkReleases(s: State, inUse: seq<IPAddress>, k: Name)
    requires ReleaseOf(Worked(s, inUse).worker, k).Some?
    ensures var claim := ReleaseOf(Worked(s, inUse).worker, k).value;
      || ReleaseOf(s.worker, k) == Some(claim)
      || (&& s.worker.GotPool? && s.worker.k == k && s.worker.claim == claim && claim.deletedAt.Some?
          && GraceOver(claim.deletedAt.value, s.worker.pool, s.now))
  {
    if s.worker.GotPool? && s.worker.claim.deletedAt.Some? {
      RequeuedUntilOver(s.worker.claim.deletedAt.value, s.worker.pool, s.now);
    }
  }

  predicate Unprotected(s: State, k: Name) {
    LiveAddr(s, k).Some? && !LiveAddr(s, k).value.protect
  }

  /** Others neither unprotect an address nor touch a claim that is already being deleted. */
  lemma OutsideUnprotectsNothing(s: State, a: Action, t: State, k: Name)
    requires Step(s, a, t) && !a.Work? && Unprotected(t, k)
    ensures Unprotected(s, k)
  {
  }

  lemma OutsideKeepsDeletedClaim(s: State, a: Action, t: State, k: Name)
    requires Step(s, a, t) && !a.Work? && Fin(LiveClaim(s, k)) && Deleted(LiveClaim(s, k))
    ensures LiveClaim(t, k) == LiveClaim(s, k)
  {
  }

  /** The worker unprotects only while it releases, and touches no claim that has an unprotected address. */
  lemma WorkUnprotects(s: State, inUse: seq<IPAddress>, t: State, k: Name)
    requires KeyAt(s, k) && t == Worked(s, inUse) && Unprotected(t, k)
    ensures Unprotected(s, k) || (s.worker.Unprotecting? && s.worker.k == k && LiveAddr(s, k).Some?)
  {
    if s.worker.Idle? || s.worker.k != k || !WritesAddress(s.worker) {
      ElsewhereUntouched(s, inUse, t, k);
    } else if s.worker.Patching? {
      PatchKeepsAllocation(s, inUse, t);
    }
  }

  lemma WorkKeepsDeletedClaim(s: State, inUse: seq<IPAddress>, t: State, k: Name)
    requires KeyAt(s, k) && t == Worked(s, inUse) && LiveAddr(s, k).Some? && Fin(LiveClaim(s, k))
    ensures LiveClaim(t, k) == LiveClaim(s, k)
  {
    if s.worker.Idle? || s.worker.k != k || !WritesClaim(s.worker) {
      assert LiveClaim(t, k) == LiveClaim(s, k);
    }
  }

  /** An unprotected address was unprotected by a release for the claim that is still there. */
  lemma UnprotectedComesFrom(s: State, a: Action, t: State, k: Name)
    requires KeysOk(s) && Step(s, a, t) && Unprotected(t, k)
    ensures LiveClaim(t, k).Some? && LiveClaim(t, k) == LiveClaim(s, k)
    ensures Unprotected(s, k) || ReleaseOf(s.worker, k) == LiveClaim(t, k)
  {
    assert KeyAt(s, k);
    if a.Work? {
      WorkUnprotects(s, a.inUse, t, k);
      WorkKeepsDeletedClaim(s, a.inUse, t, k);
    } else {
      OutsideUnprotectsNothing(s, a, t, k);
      OutsideKeepsDeletedClaim(s, a, t, k);
    }
  }

  lemma DecidedLater(states: seq<State>, n: nat, k: Name, claim: Claim)
    requires n + 1 < |states| && states[n].now <= states[n + 1].now && Decided(states, n, k, claim)
    ensures Decided(states, n + 1, k, claim)
  {
    var i: nat, j: nat, pool :| i < j <= n && DecidedAt(states, i, j, k, claim, pool)
                                && GraceOver(claim.deletedAt.value, pool, states[n].now);
    assert i < j <= n + 1 && DecidedAt(states, i, j, k, claim, pool);
  }

  lemma ClockAdvances(s: State, a: Action, t: State)
    requires Step(s, a, t)
    ensures s.now <= t.now
  {
  }

  ghost predicate CachedWereLive(states: seq<State>, n: nat)
    requires n < |states|
  {
    forall ref: PoolRef :: CachedWasLive(states, n, ref)
  }

  ghost predicate CachedWasLive(states: seq<State>, n: nat, ref: PoolRef)
    requires n < |states|
  {
    WasLive(states, n, ref, Cached(states[n].pools, ref))
  }

  lemma RunCachedWereLive(states: seq<State>, actions: seq<Action>, n: nat)
    requires IsRun(states, actions) && n < |states|
    ensures CachedWereLive(states, n)
  {
    forall ref: PoolRef
      ensures CachedWasLive(states, n, ref)
    {
      PoolVersionsWereLive(states, actions, n, ref, 0);
    }
  }

  lemma PoolWasReadStep(states: seq<State>, n: nat, a: Action)
    requires 0 < n < |states| && Step(states[n - 1], a, states[n]) && PoolWasRead(states, n - 1)
    requires CachedWereLive(states, n - 1)
    ensures PoolWasRead(states, n)
  {
    if states[n].worker.GotPool? {
      GotPoolComesFrom(states[n - 1], a, states[n]);
      if states[n].worker == states[n - 1].worker {
        var i: nat :| i < n - 1 && ReadAt(states, i, n - 1);
        assert ReadAt(states, i, n);
      } else {
        assert CachedWasLive(states, n - 1, states[n].worker.claim.pool);
        assert ReadAt(states, n - 1, n);
      }
    }
  }

  lemma DecidedNow(states: seq<State>, n: nat, k: Name, claim: Claim)
    requires n < |states| && PoolWasRead(states, n)
    requires states[n].worker.GotPool? && states[n].worker.k == k && states[n].worker.claim == claim
    requires claim.deletedAt.Some? && GraceOver(claim.deletedAt.value, states[n].worker.pool, states[n].now)
    ensures Decided(states, n, k, claim)
  {
    var i: nat :| i < n && ReadAt(states, i, n);
    assert DecidedAt(states, i, n, k, claim, states[n].worker.pool);
  }

  lemma ReleaseHasHistory(states: seq<State>, n: nat, a: Action, k: Name, claim: Claim)
    requires 0 < n < |states| && Step(states[n - 1], a, states[n]) && History(states, n - 1, k)
    requires ReleaseOf(states[n].worker, k) == Some(claim)
    ensures Decided(states, n, k, claim)
  {
    ReleaseComesFrom(states[n - 1], a, states[n], k);
    if ReleaseOf(states[n - 1].worker, k) != Some(claim) {
      DecidedNow(states, n - 1, k, claim);
    }
    ClockAdvances(states[n - 1], a, states[n]);
    DecidedLater(states, n - 1, k, claim);
  }

  lemma UnprotectedHasHistory(states: seq<State>, n: nat, a: Action, k: Name)
    requires 0 < n < |states| && KeysOk(states[n - 1]) && Step(states[n - 1], a, states[n])
    requires History(states, n - 1, k) && Unprotected(states[n], k)
    ensures LiveClaim(states[n], k).Some? && Decided(states, n, k, LiveClaim(states[n], k).value)
  {
    UnprotectedComesFrom(states[n - 1], a, states[n], k);
    ClockAdvances(states[n - 1], a, states[n]);
    DecidedLater(states, n - 1, k, LiveClaim(states[n], k).value);
  }

  lemma HistoryStep(states: seq<State>, n: nat, a: Action, k: Name)
    requires 0 < n < |states| && KeysOk(states[n - 1]) && Step(states[n - 1], a, states[n])
    requires History(states, n - 1, k) && CachedWereLive(states, n - 1)
    ensures History(states, n, k)
  {
    PoolWasReadStep(states, n, a);
    if ReleaseOf(states[n].worker, k).Some? {
      ReleaseHasHistory(states, n, a, k, ReleaseOf(states[n].worker, k).value);
    }
    if Unprotected(states[n], k) {
      UnprotectedHasHistory(states, n, a, k);
    }
  }

  lemma {:induction false} RunHasHistory(states: seq<State>, actions: seq<Action>, n: nat, k: Name)
    requires IsRun(states, actions) && n < |states|
    ensures History(states, n, k)
    decreases n
  {
    if n > 0 {
      RunHasHistory(states, actions, n - 1, k);
      RunKeepsInv(states, actions, n - 1);
      assert StepAt(states, actions, n - 1);
      RunCachedWereLive(states, actions, n - 1);
      HistoryStep(states, n, actions[n - 1], k);
    }
  }

  /**
   The address of a claim is removed only after some reconcile of that deleted claim found its grace period over: by
   the clock of that moment, and by the pool that it had read from the cache.
   */
  lemma GracePeriodIsKept(states: seq<State>, actions: seq<Action>, n: nat, k: Name)
    requires IsRun(states, actions) && n < |actions| && Removed(states[n], states[n + 1], k)
    ensures LiveClaim(states[n], k).Some? && Decided(states, n, k, LiveClaim(states[n], k).value)
  {
    RunKeepsInv(states, actions, n);
    RunHasHistory(states, actions, n, k);
    assert StepAt(states, actions, n);
    RemovalIsRelease(states[n], actions[n], states[n + 1], k);
  }

  lemma {:induction false} FirstRemoval(states: seq<State>, m: nat, n: nat, k: Name) returns (i: nat)
    requires m <= n < |states| && LiveAddr(states[m], k).Some? && !LiveThroughout(states, m, n, k)
    ensures m <= i < n && Removed(states[i], states[i + 1], k)
    decreases n - m
  {
    if LiveAddr(states[m + 1], k).None? {
      i := m;
    } else {
      i := FirstRemoval(states, m + 1, n, k);
    }
  }

  /** While an address lives nobody else in the pool gets anything of what it held all along. */
  lemma KeptApart(states: seq<State>, actions: seq<Action>, m: nat, n: nat, k: Name, j: Name)
    requires IsRun(states, actions) && m <= n < |states| && j != k && LiveThroughout(states, m, n, k)
    requires LiveAddr(states[n], j).Some?
    requires LiveAddr(states[m], k).value.pool == LiveAddr(states[n], j).value.pool
    ensures Apart(LiveAddr(states[m], k).value, LiveAddr(states[n], j).value)
  {
    AllocationIsStable(states, actions, m, n, k);
    RunKeepsInv(states, actions, n);
    assert ApartAt(states[n], k, j);
  }

  /**
   What an address object held is given to another claim of the pool only after it was removed, its own claim deleting
   and the grace period over.
   */
  lemma ReusedOnlyAfterGrace(states: seq<State>, actions: seq<Action>, m: nat, n: nat, k: Name, j: Name, x: nat)
    requires IsRun(states, actions) && m <= n < |states| && j != k
    requires LiveAddr(states[m], k).Some? && LiveAddr(states[n], j).Some?
    requires LiveAddr(states[m], k).value.pool == LiveAddr(states[n], j).value.pool
    requires Holds(LiveAddr(states[m], k).value, x) && Holds(LiveAddr(states[n], j).value, x)
    ensures exists i: nat :: m <= i < n && Removed(states[i], states[i + 1], k)
                    && LiveClaim(states[i], k).Some? && Decided(states, i, k, LiveClaim(states[i], k).value)
  {
    if LiveThroughout(states, m, n, k) {
      KeptApart(states, actions, m, n, k, j);
      ApartMeans(LiveAddr(states[m], k).value, LiveAddr(states[n], j).value);
    }
    var i := FirstRemoval(states, m, n, k);
    GracePeriodIsKept(states, actions, i, k);
  }

  // ---------- why the worker waits for its cache ----------

  /** EnsureAddress looks at the list and the spec only: against the same list two claims get the same. */
  lemma SameListSameAllocation(spec: PoolSpec, ref: PoolRef, j: Name, k: Name, inUse: seq<IPAddress>)
    requires !Allocated(j, inUse) && !Allocated(k, inUse) && Mutated(NewAddress(k, ref), spec, inUse).Ok?
    ensures var a := Mutated(NewAddress(k, ref), spec, inUse).value;
            Mutated(NewAddress(j, ref), spec, inUse) == Ok(a.(name := j)) && !Apart(a, a.(name := j))
  {
    SharesWithItself(Mutated(NewAddress(k, ref), spec, inUse).value, j);
    var b := Allocate(spec, NewAddress(k, ref), inUse).value;
    assert Allocate(spec, NewAddress(j, ref), inUse) == Ok(b.(name := j));
  }

  lemma SharesWithItself(a: IPAddress, j: Name)
    ensures !Apart(a, a.(name := j))
  {
    assert Footprint(a) == Footprint(a.(name := j));
    FootprintMeans(a);
  }

  /**
   Were the wait after a create to time out before the cache holds the new address, the next claim could be given the
   same one: four calls of its reconcile and the pool has two live addresses that overlap.
   */
  lemma TimeoutDoublesAllocation(s: State, inUse: seq<IPAddress>, j: Name, k: Name, claim: Claim, pool: Pool)
    returns (t: State)
    requires s.worker == Waiting(k, true) && j != k && Cached(s.addrs, k).None? && At(s.addrs, j) == [None]
    requires Cached(s.claims, j) == Some(claim) && claim.fin && claim.deletedAt.None?
    requires Cached(s.pools, claim.pool) == Some(pool) && Listing(s, claim.pool, inUse)
    requires LiveAddr(s, k).Some?
    requires Mutated(NewAddress(k, claim.pool), pool.spec, inUse) == Ok(LiveAddr(s, k).value)
    ensures OwnPath(s.(worker := Idle), t) && !NoOverlap(t)
    ensures LiveAddr(t, k) == LiveAddr(s, k) && LiveAddr(t, j) == Some(LiveAddr(s, k).value.(name := j))
  {
    var b := LiveAddr(s, k).value.(name := j);
    ChosenAgain(s, inUse, j, k, claim, pool.spec, LiveAddr(s, k).value);
    ReadsToEnsure(s, j, claim, pool);
    EnsureToCreate(s, inUse, j, claim, pool, b);
    t := PutAddr(s, j, Some(b)).(worker := Waiting(j, true));
    Overlapping(s, t, j, k, b);
  }

  lemma ChosenAgain(s: State, inUse: seq<IPAddress>, j: Name, k: Name, claim: Claim, spec: PoolSpec, a: IPAddress)
    requires Cached(s.addrs, j).None? && Cached(s.addrs, k).None? && Listing(s, claim.pool, inUse)
    requires Mutated(NewAddress(k, claim.pool), spec, inUse) == Ok(a)
    ensures Mutated(NewAddress(j, claim.pool), spec, inUse) == Ok(a.(name := j)) && !Apart(a, a.(name := j))
  {
    NotListed(s, claim.pool, inUse, j);
    NotListed(s, claim.pool, inUse, k);
    SameListSameAllocation(spec, claim.pool, j, k, inUse);
  }

  lemma Overlapping(s: State, t: State, j: Name, k: Name, b: IPAddress)
    requires LiveAddr(s, k).Some? && j != k && t.addrs == Put(s.addrs, j, Some(b))
    requires LiveAddr(s, k).value.pool == b.pool && !Apart(LiveAddr(s, k).value, b)
    ensures !NoOverlap(t) && LiveAddr(t, k) == LiveAddr(s, k) && LiveAddr(t, j) == Some(b)
  {
    assert !ApartAt(t, k, j);
  }

  /** The calls that give a new address to a claim. */
  lemma EnsureToCreate(s: State, inUse: seq<IPAddress>, j: Name, claim: Claim, pool: Pool, b: IPAddress)
    requires OwnPath(s.(worker := Idle), s.(worker := GotAddress(j, claim, None, pool.spec)))
    requires LiveAddr(s, j).None? && Listing(s, claim.pool, inUse)
    requires Mutated(NewAddress(j, claim.pool), pool.spec, inUse) == Ok(b)
    ensures OwnPath(s.(worker := Idle), PutAddr(s, j, Some(b)).(worker := Waiting(j, true)))
  {
    var u, w := s.(worker := GotAddress(j, claim, None, pool.spec)), s.(worker := Creating(j, claim, b));
    OwnPathExtends(s.(worker := Idle), u, Work(inUse), w);
    CreateCall(s.(worker := Idle), s, j, claim, b);
  }

  lemma CreateCall(s0: State, s: State, j: Name, claim: Claim, b: IPAddress)
    requires OwnPath(s0, s.(worker := Creating(j, claim, b))) && LiveAddr(s, j).None?
    ensures OwnPath(s0, PutAddr(s, j, Some(b)).(worker := Waiting(j, true)))
  {
    OwnPathExtends(s0, s.(worker := Creating(j, claim, b)), Work([]),
                   PutAddr(s, j, Some(b)).(worker := Waiting(j, true)));
  }

  /** The calls of a reconcile up to EnsureAddress, for a claim without an address. */
  lemma ReadsToEnsure(s: State, j: Name, claim: Claim, pool: Pool)
    requires Cached(s.claims, j) == Some(claim) && claim.fin && claim.deletedAt.None?
    requires Cached(s.pools, claim.pool) == Some(pool) && Cached(s.addrs, j).None?
    ensures OwnPath(s.(worker := Idle), s.(worker := GotAddress(j, claim, None, pool.spec)))
  {
    var s0, s1, s2 := s.(worker := Idle), s.(worker := GotClaim(j, claim)), s.(worker := GotPool(j, claim, Some(pool)));
    OwnPathStarts(s0);
    OwnPathExtends(s0, s0, Begin(j), s1);
    OwnPathExtends(s0, s1, Work([]), s2);
    OwnPathExtends(s0, s2, Work([]), s.(worker := GotAddress(j, claim, None, pool.spec)));
  }
}
