/**
 ClaimReconciler.Reconcile and reconcileDelete as the controller runs them, call by call, while nobody else acts. Every
 call is one step of the worker in ClaimSystem, so all that is proved of that system holds for what these methods do.
 */
module ClaimReconciling {
  import opened Wrappers
  import opened Api
  import opened IPSets
  import opened ClaimHandlers
  import opened ClaimSystem
  import opened ClaimInvariant

  // ---------- single calls ----------

  /** The worker gets from s, which is in order, to t on its own. */
  ghost predicate Reached(s: State, t: State) {
    Inv(s) && OwnPath(s, t)
  }

  lemma {:induction false} PathKeepsInv(states: seq<State>, actions: seq<Action>, n: nat)
    requires IsPath(states, actions) && Inv(states[0]) && n < |states|
    ensures Inv(states[n])
    decreases n
  {
    if n > 0 {
      PathKeepsInv(states, actions, n - 1);
      assert StepAt(states, actions, n - 1);
      StepKeepsInv(states[n - 1], actions[n - 1], states[n]);
    }
  }

  /** Everything the worker reaches is in order. */
  lemma ReachedInOrder(s: State, t: State)
    requires Reached(s, t)
    ensures Inv(t)
  {
    var states, actions :| IsPath(states, actions) && states[0] == s && states[|actions|] == t;
    PathKeepsInv(states, actions, |actions|);
  }

  lemma Extends(s: State, t: State, a: Action, u: State)
    requires Reached(s, t) && Step(t, a, u) && Own(a)
    ensures Reached(s, u)
  {
    OwnPathExtends(s, t, a, u);
  }

  lemma AddFinalizerCalls(s: State, k: Name)
    requires Inv(s) && s.worker == Idle && Cached(s.claims, k).Some? && !Cached(s.claims, k).value.fin
    ensures var live := LiveClaim(s, k);
            Reached(s, if live.Some? then PutClaim(s, k, Some(live.value.(fin := true))) else s)
  {
    OwnPathStarts(s);
    var t := s.(worker := AddingFinalizer(k));
    Extends(s, s, Begin(k), t);
    Extends(s, t, Work([]), Worked(t, []));
    assert LiveClaim(t, k) == LiveClaim(s, k);
  }

  lemma GetClaimAndPool(s: State, k: Name, claim: Claim, pool: Option<Pool>)
    requires Inv(s) && s.worker == Idle && Cached(s.claims, k) == Some(claim) && claim.fin
    requires Cached(s.pools, claim.pool) == pool
    ensures Reached(s, s.(worker := if pool.None? && claim.deletedAt.None? then Idle else GotPool(k, claim, pool)))
  {
    OwnPathStarts(s);
    var t := s.(worker := GotClaim(k, claim));
    Extends(s, s, Begin(k), t);
    Extends(s, t, Work([]), Worked(t, []));
  }

  lemma DecideRelease(s: State, t: State, k: Name, claim: Claim, pool: Option<Pool>)
    requires Reached(s, t) && t.worker == GotPool(k, claim, pool) && claim.deletedAt.Some?
    ensures Reached(s, t.(worker :=
              if ReleaseAddress(claim.deletedAt, pool, t.now) == ReleaseNow then Releasing(k, claim) else Idle))
  {
    Extends(s, t, Work([]), Worked(t, []));
  }

  lemma GetAddressToRelease(s: State, t: State, k: Name, claim: Claim)
    requires Reached(s, t) && t.worker == Releasing(k, claim)
    ensures var a := Cached(t.addrs, k);
            Reached(s, t.(worker := if a.None? then Clearing(k, claim)
                                    else if a.value.protect then Unprotecting(k, claim) else Deleting(k, claim)))
  {
    Extends(s, t, Work([]), Worked(t, []));
  }

  lemma UnprotectCalls(s: State, t: State, k: Name, claim: Claim)
    requires Reached(s, t) && t.worker == Unprotecting(k, claim)
    ensures var live := LiveAddr(t, k);
            Reached(s, if live.None? then t.(worker := Clearing(k, claim))
                       else PutAddr(t, k, UnprotectedAddress(live.value)).(worker := Deleting(k, claim)))
  {
    Extends(s, t, Work([]), Worked(t, []));
  }

  lemma DeleteCalls(s: State, t: State, k: Name, claim: Claim)
    requires Reached(s, t) && t.worker == Deleting(k, claim)
    ensures var live := LiveAddr(t, k);
            Reached(s, (if live.None? then t
                        else PutAddr(t, k, DeletedAddress(live.value))).(worker := Clearing(k, claim)))
  {
    Extends(s, t, Work([]), Worked(t, []));
  }

  lemma ClearCalls(s: State, t: State, k: Name, claim: Claim)
    requires Reached(s, t) && t.worker == Clearing(k, claim)
    ensures var live := LiveClaim(t, k);
            Reached(s, (if live.None? then t else PutClaim(t, k, ClearedClaim(live.value))).(worker := Idle))
  {
    Extends(s, t, Work([]), Worked(t, []));
  }

  /** The last write of a release leaves neither an address nor a claim that holds one. */
  lemma ClearingIsLast(s: State, t: State, k: Name, claim: Claim)
    requires Reached(s, t) && t.worker == Clearing(k, claim)
    ensures LiveAddr(t, k).None? && (Fin(LiveClaim(t, k)) ==> ClearedClaim(LiveClaim(t, k).value).None?)
  {
    ReachedInOrder(s, t);
    assert KeyAt(t, k);
  }

  lemma GetAddressToEnsure(s: State, t: State, k: Name, claim: Claim, pool: Pool)
    requires Reached(s, t) && t.worker == GotPool(k, claim, Some(pool)) && claim.deletedAt.None?
    ensures Reached(s, t.(worker := GotAddress(k, claim, Cached(t.addrs, k), pool.spec)))
  {
    Extends(s, t, Work([]), Worked(t, []));
  }

  /** What EnsureAddress fills into a new address is permitted by the spec. */
  lemma NewAddressHasAllocation(s: State, inUse: seq<IPAddress>, k: Name, claim: Claim, spec: PoolSpec)
    requires KeysOk(s) && s.worker == GotAddress(k, claim, None, spec) && Listing(s, claim.pool, inUse)
    ensures LiveAddr(s, k).None?
    ensures var wanted := Mutated(NewAddress(k, claim.pool), spec, inUse);
            wanted.Ok? ==> HasAllocation(k, claim, spec, Some(wanted.value))
  {
    assert At(s.addrs, k) == [None] && KindMatches(claim.pool, spec) by {
      assert KeyAt(s, k);
    }
    if Allocate(spec, NewAddress(k, claim.pool), inUse).Ok? {
      AllocateIsSafe(spec, NewAddress(k, claim.pool), inUse);
    }
  }

  /** Two lists of one cache hold the same addresses. */
  lemma ListingsAgree(s: State, ref: PoolRef, xs: seq<IPAddress>, ys: seq<IPAddress>)
    requires Listing(s, ref, xs) && Listing(s, ref, ys)
    ensures SameElements(xs, ys)
  {
  }

  lemma EnsureCalls(s: State, t: State, inUse: seq<IPAddress>, k: Name, claim: Claim, found: Option<IPAddress>,
                   spec: PoolSpec)
    requires Reached(s, t) && t.worker == GotAddress(k, claim, found, spec) && Listing(t, claim.pool, inUse)
    ensures Reached(s, t.(worker := Ensured(k, claim, found, spec, inUse)))
  {
    Extends(s, t, Work(inUse), Worked(t, inUse));
  }

  lemma CreateCalls(s: State, t: State, k: Name, claim: Claim, wanted: IPAddress)
    requires Reached(s, t) && t.worker == Creating(k, claim, wanted)
    ensures LiveAddr(t, k).None? && Reached(s, PutAddr(t, k, Some(wanted)).(worker := Waiting(k, true)))
  {
    ReachedInOrder(s, t);
    assert KeyAt(t, k);
    Extends(s, t, Work([]), Worked(t, []));
  }

  /** A patch of an address that is gone fails, one of a live address changes nothing. */
  lemma PatchCalls(s: State, t: State, k: Name, claim: Claim, wanted: IPAddress, was: IPAddress)
    requires Reached(s, t) && t.worker == Patching(k, claim, wanted, was)
    ensures var live := LiveAddr(t, k);
      if live.None? then Reached(s, t.(worker := Idle))
      else
        && MergePatch(live.value, was, wanted) == live.value
        && Reached(s, PutAddr(t, k, live).(worker := Waiting(k, false)))
  {
    ReachedInOrder(s, t);
    assert KeyAt(t, k);
    if LiveAddr(t, k).Some? {
      PatchIsIdle(LiveAddr(t, k).value, was, wanted);
    }
    Extends(s, t, Work([]), Worked(t, []));
  }

  /** One poll: the address is there, or nothing more can come, or the cache moves on. */
  lemma PollCalls(s: State, t: State, k: Name, created: bool)
    requires Reached(s, t) && t.worker == Waiting(k, created)
    ensures Cached(t.addrs, k).Some? || !created ==> Reached(s, t.(worker := Idle))
    ensures Reached(s, t.(addrs := Advance(t.addrs, k)))
  {
    if Cached(t.addrs, k).Some? {
      Extends(s, t, Work([]), Worked(t, []));
    } else if !created {
      Extends(s, t, Abort, t.(worker := Idle));
    }
    Extends(s, t, SyncAddress(k), t.(addrs := Advance(t.addrs, k)));
  }

  ghost predicate SameLive(xs: map<Name, Window<IPAddress>>, ys: map<Name, Window<IPAddress>>) {
    forall j: Name :: Live(xs, j) == Live(ys, j)
  }

  lemma AdvanceKeepsLive(xs: map<Name, Window<IPAddress>>, k: Name)
    ensures SameLive(xs, Advance(xs, k))
  {
  }

  // ---------- the reconciler ----------

  /** A new address of a claim: protected, in the claim's pool, permitted by the spec, with its length and gateway. */
  ghost predicate HasAllocation(k: Name, claim: Claim, spec: PoolSpec, a: Option<IPAddress>) {
    && a.Some? && a.value.name == k && a.value.pool == claim.pool && a.value.protect && !a.value.deleting
    && InSpec(spec, a.value) && RecordsSpec(spec, a.value)
  }

  /** The claim got the finalizer and kept its pool and its deletion time; one that is gone stays gone. */
  predicate OnlyFinalizer(was: Option<Claim>, now: Option<Claim>) {
    match was
    case None => now == None
    case Some(c) => now == Some(Claim(c.pool, true, c.deletedAt))
  }

  /** A deleted claim leaves; one that is not being deleted, created again in the meantime, keeps its pool. */
  predicate WithoutFinalizer(was: Option<Claim>, now: Option<Claim>) {
    match was
    case None => now == None
    case Some(c) => now == if c.deletedAt.Some? then None else Some(Claim(c.pool, false, None))
  }

  /** The outcome of one reconcile. */
  datatype Outcome = Done | Requeue(delay: int) | Failed

  /**
   A claim without an address, reconciled from `before` to `after`: it is served exactly when the pool that the worker
   sees has something left and nothing is malformed, and it gets the lowest choice, live and in the cache.
   */
  ghost predicate Served(before: State, k: Name, claim: Claim, spec: PoolSpec, r: Outcome, after: State) {
    && (exists inUse :: Listing(before, claim.pool, inUse))
    && forall inUse :: Listing(before, claim.pool, inUse) ==>
         && (r == Done <==> Serves(spec, inUse))
         && (if r == Done then Holding(k, claim, spec, inUse, after) else r == Failed && LiveAddr(after, k).None?)
  }

  /** The claim has a live address, filled in against the list, and the cache knows of it. */
  ghost predicate Holding(k: Name, claim: Claim, spec: PoolSpec, inUse: seq<IPAddress>, s: State) {
    && LiveAddr(s, k).Some? && FilledIn(spec, NewAddress(k, claim.pool), inUse, LiveAddr(s, k).value)
    && Cached(s.addrs, k).Some?
  }

  lemma ServedByList(before: State, k: Name, claim: Claim, spec: PoolSpec, r: Outcome, after: State,
                     inUse: seq<IPAddress>)
    requires Listing(before, claim.pool, inUse)
    requires match Allocate(spec, NewAddress(k, claim.pool), inUse)
      case Ok(b) => r == Done && LiveAddr(after, k) == Some(b.(protect := true)) && Cached(after.addrs, k).Some?
      case _ => r == Failed && LiveAddr(after, k).None?
    ensures Served(before, k, claim, spec, r, after)
  {
    var blank := NewAddress(k, claim.pool);
    forall ys | Listing(before, claim.pool, ys)
      ensures r == Done <==> Serves(spec, ys)
      ensures r == Done ==> Holding(k, claim, spec, ys, after)
    {
      ListingsAgree(before, claim.pool, ys, inUse);
      AllocationIgnoresOrder(spec, blank, ys, inUse);
      AllocatesIffServes(spec, blank, ys);
      AllocateMeans(spec, blank, ys);
    }
  }

  /** Only the cached addresses matter for being served. */
  lemma ServedFrom(before: State, same: State, k: Name, claim: Claim, spec: PoolSpec, r: Outcome, after: State)
    requires Served(same, k, claim, spec, r, after) && before.addrs == same.addrs
    ensures Served(before, k, claim, spec, r, after)
  {
    var inUse :| Listing(same, claim.pool, inUse);
    assert Listing(before, claim.pool, inUse);
    forall ys | Listing(before, claim.pool, ys)
      ensures Listing(same, claim.pool, ys)
    {
    }
  }

  /** The reconciler with the API objects that its client reads, cached, and writes, live. */
  class ClaimReconciler {
    var claims: map<Name, Window<Claim>>
    var addrs: map<Name, Window<IPAddress>>
    var pools: map<PoolRef, Window<Pool>>
    var now: int

    ghost function St(w: Worker): State
      reads this
    {
      State(claims, addrs, pools, now, w)
    }

    method ListAddressesInUse(ref: PoolRef, ghost w: Worker) returns (inUse: seq<IPAddress>)
      requires KeysOk(St(w))
      ensures Listing(St(w), ref, inUse)
    {
      inUse := [];
      var keys := addrs.Keys;
      while keys != {}
        invariant keys <= addrs.Keys
        invariant forall i :: 0 <= i < |inUse| ==>
                    Cached(addrs, inUse[i].name) == Some(inUse[i]) && inUse[i].pool == ref
        invariant forall k: Name :: k !in keys && Cached(addrs, k).Some? && Cached(addrs, k).value.pool == ref ==>
                    Cached(addrs, k).value in inUse
        decreases |keys|
      {
        var k :| k in keys;
        var found := Cached(addrs, k);
        if found.Some? && found.value.pool == ref {
          assert KeyAt(St(w), k);
          inUse := inUse + [found.value];
        }
        keys := keys - {k};
      }
    }

    /** Releases the address of a deleting claim unless its grace period is still running. */
    method ReconcileDelete(k: Name, claim: Claim, pool: Option<Pool>, ghost s: State) returns (r: Outcome)
      requires claim.deletedAt.Some? && Reached(s, St(GotPool(k, claim, pool)))
      modifies this`claims, this`addrs
      ensures Reached(s, St(Idle)) && forall j: Name :: j != k ==> Live(addrs, j) == old(Live(addrs, j))
      ensures forall j: Name :: j != k ==> Live(claims, j) == old(Live(claims, j))
      ensures r.Done? <==> GraceOver(claim.deletedAt.value, pool, now)
      ensures r.Done? ==> Live(addrs, k).None? && WithoutFinalizer(old(Live(claims, k)), Live(claims, k))
      ensures !r.Done? ==> claims == old(claims) && addrs == old(addrs)
                           && r.Requeue? && GraceOver(claim.deletedAt.value, pool, now + r.delay)
                           && !GraceOver(claim.deletedAt.value, pool, now + r.delay - 1)
    {
      DecideRelease(s, St(GotPool(k, claim, pool)), k, claim, pool);
      var release := ReleaseAddress(claim.deletedAt, pool, now);
      if release.RequeueAfter? {
        return Requeue(release.delay);
      }
      GetAddressToRelease(s, St(Releasing(k, claim)), k, claim);
      var address := Cached(addrs, k);
      if address.Some? {
        RemoveAddress(k, claim, address.value, s);
      }
      RemoveClaimFinalizer(k, claim, s);
      r := Done;
    }

    method RemoveClaimFinalizer(k: Name, claim: Claim, ghost s: State)
      requires Reached(s, St(Clearing(k, claim)))
      modifies this`claims
      ensures Reached(s, St(Idle)) && Live(addrs, k).None? && WithoutFinalizer(old(Live(claims, k)), Live(claims, k))
      ensures forall j: Name :: j != k ==> Live(claims, j) == old(Live(claims, j))
    {
      ClearingIsLast(s, St(Clearing(k, claim)), k, claim);
      PatchClaim(k, claim, s);
    }

    method PatchClaim(k: Name, claim: Claim, ghost s: State)
      requires Reached(s, St(Clearing(k, claim)))
      modifies this`claims
      ensures Reached(s, St(Idle)) && WithoutFinalizer(old(Live(claims, k)), Live(claims, k))
      ensures forall j: Name :: j != k ==> Live(claims, j) == old(Live(claims, j))
    {
      ghost var t := St(Clearing(k, claim));
      ClearCalls(s, t, k, claim);
      var live := Live(claims, k);
      if live.None? {
        assert St(Idle) == t.(worker := Idle);
        return;
      }
      claims := Put(claims, k, ClearedClaim(live.value));
      assert St(Idle) == PutClaim(t, k, ClearedClaim(live.value)).(worker := Idle);
    }

    /** Takes the finalizer off the address and deletes it; an address that is gone already is no error. */
    method RemoveAddress(k: Name, claim: Claim, address: IPAddress, ghost s: State)
      requires Reached(s, St(if address.protect then Unprotecting(k, claim) else Deleting(k, claim)))
      modifies this`addrs
      ensures Reached(s, St(Clearing(k, claim)))
      ensures forall j: Name :: j != k ==> Live(addrs, j) == old(Live(addrs, j))
    {
      var there := true;
      if address.protect {
        there := PatchFinalizerAway(k, claim, s);
      }
      if there {
        DeleteAddress(k, claim, s);
      }
    }

    method PatchFinalizerAway(k: Name, claim: Claim, ghost s: State) returns (there: bool)
      requires Reached(s, St(Unprotecting(k, claim)))
      modifies this`addrs
      ensures Reached(s, St(if there then Deleting(k, claim) else Clearing(k, claim)))
      ensures forall j: Name :: j != k ==> Live(addrs, j) == old(Live(addrs, j))
    {
      UnprotectCalls(s, St(Unprotecting(k, claim)), k, claim);
      var live := Live(addrs, k);
      if live.None? {
        return false;
      }
      addrs := Put(addrs, k, UnprotectedAddress(live.value));
      return true;
    }

    method DeleteAddress(k: Name, claim: Claim, ghost s: State)
      requires Reached(s, St(Deleting(k, claim)))
      modifies this`addrs
      ensures Reached(s, St(Clearing(k, claim)))
      ensures forall j: Name :: j != k ==> Live(addrs, j) == old(Live(addrs, j))
    {
      DeleteCalls(s, St(Deleting(k, claim)), k, claim);
      var live := Live(addrs, k);
      if live.Some? {
        addrs := Put(addrs, k, DeletedAddress(live.value));
      }
    }

    /** Polls until the cache holds the address; gives up when nothing more can arrive. */
    method WaitForCache(k: Name, created: bool, ghost s: State) returns (r: Outcome)
      requires Reached(s, St(Waiting(k, created))) && (created ==> Live(addrs, k).Some?)
      modifies this`addrs
      ensures Reached(s, St(Idle)) && r == if Cached(addrs, k).Some? then Done else Failed
      ensures created || old(Cached(addrs, k)).Some? ==> r.Done?
      ensures forall j: Name :: Live(addrs, j) == old(Live(addrs, j))
    {
      while Cached(addrs, k).None?
        invariant Reached(s, St(Waiting(k, created))) && SameLive(old(addrs), addrs)
        invariant old(Cached(addrs, k)).Some? ==> Cached(addrs, k).Some?
        decreases |At(addrs, k)|
      {
        PollCalls(s, St(Waiting(k, created)), k, created);
        if |At(addrs, k)| == 1 {
          return Failed;
        }
        AdvanceKeepsLive(addrs, k);
        addrs := Advance(addrs, k);
      }
      PollCalls(s, St(Waiting(k, created)), k, created);
      return Done;
    }

    /** Creates the address that EnsureAddress fills in, or patches the one that is there, and waits for the cache. */
    method CreateOrPatch(k: Name, claim: Claim, spec: PoolSpec, ghost s: State) returns (r: Outcome)
      requires Reached(s, St(GotAddress(k, claim, Cached(addrs, k), spec)))
      modifies this`addrs
      ensures Reached(s, St(Idle))
      ensures forall j: Name :: j != k || old(Live(addrs, j)).Some? ==> Live(addrs, j) == old(Live(addrs, j))
      ensures old(Cached(addrs, k)).Some? ==> Live(addrs, k) == old(Live(addrs, k))
      ensures old(Live(addrs, k)).Some? ==> r == Done
      ensures old(Cached(addrs, k)).None? ==>
        && Served(old(St(GotAddress(k, claim, Cached(addrs, k), spec))), k, claim, spec, r, St(Idle))
        && (r == Done ==> HasAllocation(k, claim, spec, Live(addrs, k)))
    {
      var found := Cached(addrs, k);
      ghost var t := St(GotAddress(k, claim, found, spec));
      var base := if found.Some? then found.value else NewAddress(k, claim.pool);
      ReachedInOrder(s, t);
      var inUse := ListAddressesInUse(claim.pool, t.worker);
      var ensured := EnsureAddress(spec, base, inUse);
      EnsureCalls(s, t, inUse, k, claim, found, spec);
      if found.None? {
        NewAddressHasAllocation(t, inUse, k, claim, spec);
        NotListed(t, claim.pool, inUse, k);
      } else if Live(addrs, k).Some? {
        LiveAddressIsKept(t, inUse, k, claim, found.value, spec);
      }
      if !ensured.Ok? {
        if found.None? {
          ServedByList(t, k, claim, spec, Failed, St(Idle), inUse);
        }
        return Failed;
      }
      var wanted := ensured.value.(protect := true);
      assert Mutated(base, spec, inUse) == Ok(wanted);
      if found.None? {
        r := Create(k, claim, wanted, s);
        ServedByList(t, k, claim, spec, r, St(Idle), inUse);
      } else if wanted == found.value {
        r := WaitForCache(k, false, s);
      } else {
        r := Patch(k, claim, found.value, wanted, s);
      }
    }

    method Create(k: Name, claim: Claim, wanted: IPAddress, ghost s: State) returns (r: Outcome)
      requires Reached(s, St(Creating(k, claim, wanted)))
      modifies this`addrs
      ensures Reached(s, St(Idle)) && r.Done? && Live(addrs, k) == Some(wanted) && Cached(addrs, k).Some?
      ensures forall j: Name :: j != k ==> Live(addrs, j) == old(Live(addrs, j))
    {
      ghost var t := St(Creating(k, claim, wanted));
      CreateCalls(s, t, k, claim, wanted);
      addrs := Put(addrs, k, Some(wanted));
      assert St(Waiting(k, true)) == PutAddr(t, k, Some(wanted)).(worker := Waiting(k, true));
      assert Live(addrs, k) == Some(wanted) && forall j: Name :: j != k ==> Live(addrs, j) == old(Live(addrs, j));
      r := WaitForCache(k, true, s);
    }

    method Patch(k: Name, claim: Claim, found: IPAddress, wanted: IPAddress, ghost s: State) returns (r: Outcome)
      requires Reached(s, St(Patching(k, claim, wanted, found)))
      modifies this`addrs
      ensures Reached(s, St(Idle))
      ensures forall j: Name :: Live(addrs, j) == old(Live(addrs, j))
      ensures old(Live(addrs, k)).Some? && old(Cached(addrs, k)).Some? ==> r == Done
    {
      ghost var t := St(Patching(k, claim, wanted, found));
      PatchCalls(s, t, k, claim, wanted, found);
      var live := Live(addrs, k);
      if live.None? {
        return Failed;
      }
      addrs := Put(addrs, k, Some(MergePatch(live.value, found, wanted)));
      assert St(Waiting(k, false)) == PutAddr(t, k, live).(worker := Waiting(k, false));
      assert At(addrs, k) == old(At(addrs, k));
      r := WaitForCache(k, false, s);
    }

    /** Reconciles one claim. */
    method Reconcile(k: Name) returns (r: Outcome)
      requires Inv(St(Idle))
      modifies this`claims, this`addrs
      ensures Reached(old(St(Idle)), St(Idle))
      ensures forall j: Name :: j != k ==>
                Live(addrs, j) == old(Live(addrs, j)) && Live(claims, j) == old(Live(claims, j))
      ensures old(Cached(claims, k)).None? ==> r == Done && claims == old(claims) && addrs == old(addrs)
      ensures var c := old(Cached(claims, k)); c.Some? && !c.value.fin ==>
        r == Done && addrs == old(addrs) && OnlyFinalizer(old(Live(claims, k)), Live(claims, k))
      ensures var c := old(Cached(claims, k)); c.Some? && c.value.fin && c.value.deletedAt.None? ==>
        claims == old(claims)
        && var pool := Cached(pools, c.value.pool);
           if pool.None? then r == Done && addrs == old(addrs)
           else
             && (old(Live(addrs, k)).Some? ==> r == Done && Live(addrs, k) == old(Live(addrs, k)))
             && (old(Cached(addrs, k)).Some? ==> Live(addrs, k) == old(Live(addrs, k)))
             && (old(Cached(addrs, k)).None? ==>
                   && Served(old(St(Idle)), k, c.value, pool.value.spec, r, St(Idle))
                   && (r == Done ==> HasAllocation(k, c.value, pool.value.spec, Live(addrs, k))))
      ensures var c := old(Cached(claims, k)); c.Some? && c.value.fin && c.value.deletedAt.Some? ==>
        var (d, pool) := (c.value.deletedAt.value, Cached(pools, c.value.pool));
        && (r.Done? <==> GraceOver(d, pool, now))
        && (r.Done? ==> Live(addrs, k).None? && WithoutFinalizer(old(Live(claims, k)), Live(claims, k)))
        && (!r.Done? ==> r.Requeue? && claims == old(claims) && addrs == old(addrs)
                         && GraceOver(d, pool, now + r.delay) && !GraceOver(d, pool, now + r.delay - 1))
    {
      ghost var s := St(Idle);
      var cached := Cached(claims, k);
      if cached.None? {
        OwnPathStarts(s);
        return Done;
      }
      var claim := cached.value;
      if !claim.fin {
        AddFinalizer(k);
        return Done;
      }
      var pool := Cached(pools, claim.pool);
      GetClaimAndPool(s, k, claim, pool);
      if pool.None? && claim.deletedAt.None? {
        return Done;
      }
      if claim.deletedAt.Some? {
        r := ReconcileDelete(k, claim, pool, s);
      } else {
        GetAddressToEnsure(s, St(GotPool(k, claim, pool)), k, claim, pool.value);
        ghost var u := St(GotAddress(k, claim, Cached(addrs, k), pool.value.spec));
        r := CreateOrPatch(k, claim, pool.value.spec, s);
        if Cached(s.addrs, k).None? {
          ServedFrom(s, u, k, claim, pool.value.spec, r, St(Idle));
        }
      }
    }

    /** The finalizer comes first; the rest waits for the next reconcile. */
    method AddFinalizer(k: Name)
      requires Inv(St(Idle)) && Cached(claims, k).Some? && !Cached(claims, k).value.fin
      modifies this`claims
      ensures Reached(old(St(Idle)), St(Idle)) && OnlyFinalizer(old(Live(claims, k)), Live(claims, k))
      ensures forall j: Name :: j != k ==> Live(claims, j) == old(Live(claims, j))
    {
      AddFinalizerCalls(St(Idle), k);
      var live := Live(claims, k);
      if live.Some? {
        claims := Put(claims, k, Some(live.value.(fin := true)));
      }
    }
  }
}
