/** The inductive invariant of the claim lifecycle, and its preservation by every step. */
module ClaimInvariant {
  import opened Wrappers
  import opened Api
  import opened ClaimHandlers
  import opened ClaimSystem

  // ---------- one key ----------

  function Last<T>(w: Window<T>): Option<T>
    requires |w| > 0
  {
    w[|w| - 1]
  }

  predicate Fin(c: Option<Claim>) {
    c.Some? && c.value.fin
  }

  predicate Deleted(c: Option<Claim>) {
    c.Some? && c.value.deletedAt.Some?
  }

  /**
   A claim is only kept back by ReleaseAddress; once it carries that, it keeps it until it is deleted and released.
   */
  predicate ClaimWindow(w: Window<Claim>) {
    && (forall i :: 0 <= i < |w| && Deleted(w[i]) ==> Fin(w[i]))
    && (forall i, j :: 0 <= i < j < |w| && Fin(w[i]) && !Deleted(w[i]) ==>
          Fin(w[j]) && w[j].value.pool == w[i].value.pool)
    && (forall i, j :: 0 <= i < j < |w| && Fin(w[i]) && Deleted(w[i]) ==> i == 0 && !Fin(w[j]))
  }

  predicate SameAllocation(a: IPAddress, b: IPAddress) {
    a.name == b.name && a.pool == b.pool && a.address == b.address && a.prefix == b.prefix && a.gateway == b.gateway
  }

  /**
   The versions of one address that the cache has not passed: all of one object. Only the worker that waits for its
   own creation can have a cache that misses it.
   */
  predicate AddressWindow(w: Window<IPAddress>, k: Name, waiting: bool) {
    && (forall i :: 0 <= i < |w| && w[i].Some? ==> w[i].value.name == k)
    && (forall i, j :: 0 <= i < j < |w| && w[i].Some? && w[j].Some? ==>
          SameAllocation(w[i].value, w[j].value) && (w[j].value.protect ==> w[i].value.protect))
    && (forall i :: 0 < i < |w| - 1 ==> w[i].Some?)
    && (|w| > 1 && w[0].None? ==> waiting && forall i :: 0 < i < |w| ==> w[i].Some? && w[i].value.protect)
  }

  /** A live address has a live claim with the finalizer; it is unprotected only when everybody sees the deletion. */
  predicate Linked(cw: Window<Claim>, aw: Window<IPAddress>)
    requires |cw| > 0 && |aw| > 0
  {
    Last(aw).Some? ==>
      && Fin(Last(cw)) && Last(cw).value.pool == Last(aw).value.pool
      && (Last(aw).value.protect || (|cw| == 1 && Deleted(Last(cw))))
  }

  /** What a worker that ensures an address may rely on. */
  predicate Ensuring(claim: Claim, cw: Window<Claim>, aw: Window<IPAddress>)
    requires |cw| > 0 && |aw| > 0
  {
    && claim.fin && claim.deletedAt.None?
    && Fin(Last(cw)) && Last(cw).value.pool == claim.pool
    && (Last(aw).Some? ==> Last(aw).value.protect)
  }

  /** What a worker that releases an address may rely on. */
  predicate Leaving(claim: Claim, cw: Window<Claim>)
    requires |cw| > 0
  {
    claim.fin && claim.deletedAt.Some? && (Fin(Last(cw)) ==> cw == [Some(claim)])
  }

  predicate WorkerOk(w: Worker, k: Name, cw: Window<Claim>, aw: Window<IPAddress>)
    requires |cw| > 0 && |aw| > 0
  {
    w.Idle? || w.k != k ||
    match w
    case Idle => true
    case AddingFinalizer(_) => !Fin(Last(cw)) ==> forall i :: 0 <= i < |cw| ==> !Fin(cw[i])
    case GotClaim(_, claim) => if claim.deletedAt.None? then Ensuring(claim, cw, aw) else Leaving(claim, cw)
    case GotPool(_, claim, pool) =>
      && (if claim.deletedAt.None? then Ensuring(claim, cw, aw) else Leaving(claim, cw))
      && (pool.Some? ==> KindMatches(claim.pool, pool.value.spec))
    case GotAddress(_, claim, found, spec) =>
      && Ensuring(claim, cw, aw) && KindMatches(claim.pool, spec)
      && if found.None? then aw == [None]
         else found.value.name == k && (Last(aw).Some? ==> SameAllocation(found.value, Last(aw).value))
    case Creating(_, claim, wanted) =>
      && Ensuring(claim, cw, aw) && aw == [None]
      && wanted.name == k && wanted.pool == claim.pool && wanted.protect
    case Patching(_, claim, wanted, was) =>
      && Ensuring(claim, cw, aw)
      && (Last(aw).Some? ==> SameAllocation(was, Last(aw).value) && wanted == was.(protect := true))
    case Waiting(_, _) => true
    case Releasing(_, claim) => Leaving(claim, cw)
    case Unprotecting(_, claim) => Leaving(claim, cw)
    case Deleting(_, claim) => Leaving(claim, cw) && (Last(aw).Some? ==> !Last(aw).value.protect)
    case Clearing(_, claim) => Leaving(claim, cw) && Last(aw).None?
  }

  predicate KeyOk(k: Name, cw: Window<Claim>, aw: Window<IPAddress>, w: Worker) {
    && |cw| > 0 && |aw| > 0
    && ClaimWindow(cw) && AddressWindow(aw, k, w == Waiting(k, true)) && Linked(cw, aw) && WorkerOk(w, k, cw, aw)
  }

  // ---------- the whole state ----------

  predicate KeyAt(s: State, k: Name) {
    KeyOk(k, At(s.claims, k), At(s.addrs, k), s.worker)
  }

  ghost predicate KeysOk(s: State) {
    forall k: Name :: KeyAt(s, k)
  }

  /** Every version of a pool has the kind that its reference names. */
  ghost predicate PoolsOk(s: State) {
    forall ref: PoolRef, i :: 0 <= i < |At(s.pools, ref)| && At(s.pools, ref)[i].Some? ==>
      KindMatches(ref, At(s.pools, ref)[i].value.spec)
  }

  /** What the worker is about to create overlaps no live address of the pool. */
  ghost predicate Clear(addrs: map<Name, Window<IPAddress>>, wanted: IPAddress) {
    forall j: Name :: j != wanted.name && Live(addrs, j).Some? && Live(addrs, j).value.pool == wanted.pool ==>
      Apart(Live(addrs, j).value, wanted)
  }

  ghost predicate ApartAt(s: State, j: Name, k: Name) {
    j != k && LiveAddr(s, j).Some? && LiveAddr(s, k).Some? && LiveAddr(s, j).value.pool == LiveAddr(s, k).value.pool
    ==> Apart(LiveAddr(s, j).value, LiveAddr(s, k).value)
  }

  ghost predicate NoOverlap(s: State) {
    forall j: Name, k: Name :: ApartAt(s, j, k)
  }

  ghost predicate Inv(s: State) {
    KeysOk(s) && PoolsOk(s) && NoOverlap(s) && (s.worker.Creating? ==> Clear(s.addrs, s.worker.wanted))
  }

  // ---------- windows that grow ----------

  /** What may be written to a claim: nothing new, or a step that keeps the order of a claim's life. */
  lemma ClaimWindowGrows(w: Window<Claim>, v: Option<Claim>)
    requires |w| > 0 && ClaimWindow(w) && v != Last(w)
    requires Deleted(v) ==> Fin(v)
    requires !Fin(v) && Fin(Last(w)) ==> |w| == 1 && Deleted(Last(w))
    requires Fin(v) && Fin(Last(w)) ==> !Deleted(Last(w)) && v.value.pool == Last(w).value.pool
    requires Fin(v) && !Fin(Last(w)) ==> forall i :: 0 <= i < |w| ==> !Fin(w[i])
    ensures ClaimWindow(Append(w, v))
  {
    var r := Append(w, v);
    assert forall i :: 0 <= i < |w| ==> r[i] == w[i];
    forall i, j | 0 <= i < j < |r| && Fin(r[i]) && !Deleted(r[i])
      ensures Fin(r[j]) && r[j].value.pool == r[i].value.pool
    {
      assert i < |w| - 1 ==> Fin(Last(w)) && Last(w).value.pool == w[i].value.pool;
    }
  }

  lemma AddressWindowGrows(w: Window<IPAddress>, k: Name, waiting: bool, v: Option<IPAddress>)
    requires |w| > 0 && AddressWindow(w, k, waiting) && v != Last(w)
    requires v.None? ==> Last(w).Some? && w[0].Some?
    requires v.Some? ==> v.value.name == k
    requires v.Some? && Last(w).Some? ==>
               SameAllocation(Last(w).value, v.value) && (v.value.protect ==> Last(w).value.protect)
    requires v.Some? && Last(w).Some? && w[0].None? ==> v.value.protect
    requires v.Some? && Last(w).None? ==> w == [None] && waiting && v.value.protect
    ensures AddressWindow(Append(w, v), k, waiting)
  {
    var r := Append(w, v);
    assert forall i :: 0 <= i < |w| ==> r[i] == w[i];
  }

  // ---------- windows that shrink ----------

  lemma ClaimWindowTail(w: Window<Claim>)
    requires |w| > 1 && ClaimWindow(w)
    ensures ClaimWindow(w[1..])
  {
    var r := w[1..];
    assert forall i :: 0 <= i < |r| ==> r[i] == w[i + 1];
    forall i | 0 <= i < |r| - 1
      ensures !(Fin(r[i]) && Deleted(r[i]))
    {
      assert r[i] == w[i + 1] && r[i + 1] == w[i + 2];
    }
  }

  lemma AddressWindowTail(w: Window<IPAddress>, k: Name, waiting: bool)
    requires |w| > 1 && AddressWindow(w, k, waiting)
    ensures AddressWindow(w[1..], k, waiting)
  {
    var r := w[1..];
    assert forall i :: 0 <= i < |r| ==> r[i] == w[i + 1];
    forall i, j | 0 <= i < j < |r| && r[i].Some? && r[j].Some?
      ensures SameAllocation(r[i].value, r[j].value) && (r[j].value.protect ==> r[i].value.protect)
    {
      assert r[i] == w[i + 1] && r[j] == w[j + 1];
    }
  }

  // ---------- what others do to one key ----------

  lemma CreateClaimKeepsKey(k: Name, cw: Window<Claim>, aw: Window<IPAddress>, w: Worker, ref: PoolRef)
    requires KeyOk(k, cw, aw, w) && Last(cw).None?
    ensures KeyOk(k, Append(cw, Some(Claim(ref, false, None))), aw, w)
  {
    ClaimWindowGrows(cw, Some(Claim(ref, false, None)));
  }

  lemma DeleteClaimKeepsKey(k: Name, cw: Window<Claim>, aw: Window<IPAddress>, w: Worker, now: int)
    requires KeyOk(k, cw, aw, w) && Last(cw).Some?
    ensures KeyOk(k, Append(cw, DeletedClaim(Last(cw).value, now)), aw, w)
  {
    var v := DeletedClaim(Last(cw).value, now);
    if v != Last(cw) {
      ClaimWindowGrows(cw, v);
    }
  }

  lemma DeleteAddressKeepsKey(k: Name, cw: Window<Claim>, aw: Window<IPAddress>, w: Worker)
    requires KeyOk(k, cw, aw, w) && Last(aw).Some?
    ensures KeyOk(k, cw, Append(aw, DeletedAddress(Last(aw).value)), w)
  {
    var v := DeletedAddress(Last(aw).value);
    if v != Last(aw) {
      AddressWindowGrows(aw, k, w == Waiting(k, true), v);
    }
  }

  lemma SyncClaimKeepsKey(k: Name, cw: Window<Claim>, aw: Window<IPAddress>, w: Worker)
    requires KeyOk(k, cw, aw, w) && |cw| > 1
    ensures KeyOk(k, cw[1..], aw, w)
  {
    ClaimWindowTail(cw);
    assert Last(cw[1..]) == Last(cw);
    assert forall i :: 0 <= i < |cw[1..]| ==> cw[1..][i] == cw[i + 1];
  }

  lemma SyncAddressKeepsKey(k: Name, cw: Window<Claim>, aw: Window<IPAddress>, w: Worker)
    requires KeyOk(k, cw, aw, w) && |aw| > 1
    ensures KeyOk(k, cw, aw[1..], w)
  {
    AddressWindowTail(aw, k, w == Waiting(k, true));
    assert Last(aw[1..]) == Last(aw);
  }

  lemma RestartKeepsKey(k: Name, cw: Window<Claim>, aw: Window<IPAddress>, w: Worker)
    requires KeyOk(k, cw, aw, w)
    ensures KeyOk(k, [Last(cw)], [Last(aw)], Idle)
  {
  }

  // ---------- what the worker does to its key ----------

  lemma BeginKeepsKey(k: Name, cw: Window<Claim>, aw: Window<IPAddress>)
    requires KeyOk(k, cw, aw, Idle) && cw[0].Some?
    ensures KeyOk(k, cw, aw, if cw[0].value.fin then GotClaim(k, cw[0].value) else AddingFinalizer(k))
  {
    var claim := cw[0].value;
    if claim.fin && claim.deletedAt.None? {
      assert Ensuring(claim, cw, aw);
    } else if claim.fin {
      assert Leaving(claim, cw);
    } else {
      assert forall i :: 0 <= i < |cw| && Fin(cw[i]) ==> Fin(Last(cw));
    }
  }

  /** A worker that stops, or waits for nothing, leaves its key in order. */
  lemma StopKeepsKey(k: Name, cw: Window<Claim>, aw: Window<IPAddress>, w: Worker, x: Worker)
    requires KeyOk(k, cw, aw, w) && (x.Idle? || x == Waiting(k, false))
    requires w == Waiting(k, true) ==> aw[0].Some?
    ensures KeyOk(k, cw, aw, x)
  {
  }

  lemma AddFinalizerKeepsKey(k: Name, cw: Window<Claim>, aw: Window<IPAddress>)
    requires KeyOk(k, cw, aw, AddingFinalizer(k)) && Last(cw).Some?
    ensures KeyOk(k, Append(cw, Some(Last(cw).value.(fin := true))), aw, Idle)
  {
    var v := Some(Last(cw).value.(fin := true));
    if v != Last(cw) {
      ClaimWindowGrows(cw, v);
    }
  }

  lemma CreateKeepsKey(k: Name, cw: Window<Claim>, aw: Window<IPAddress>, claim: Claim, wanted: IPAddress)
    requires KeyOk(k, cw, aw, Creating(k, claim, wanted))
    ensures KeyOk(k, cw, Append(aw, Some(wanted)), Waiting(k, true))
  {
    AddressWindowGrows(aw, k, true, Some(wanted));
  }

  /** The merge patch of CreateOrPatch never changes a live address. */
  lemma PatchIsIdle(live: IPAddress, was: IPAddress, wanted: IPAddress)
    requires live.protect && wanted == was.(protect := true)
    ensures MergePatch(live, was, wanted) == live
  {
  }

  lemma UnprotectKeepsKey(k: Name, cw: Window<Claim>, aw: Window<IPAddress>, claim: Claim)
    requires KeyOk(k, cw, aw, Unprotecting(k, claim)) && Last(aw).Some?
    ensures KeyOk(k, cw, Append(aw, UnprotectedAddress(Last(aw).value)), Deleting(k, claim))
  {
    var v := UnprotectedAddress(Last(aw).value);
    if v != Last(aw) {
      AddressWindowGrows(aw, k, false, v);
    }
  }

  lemma ClearKeepsKey(k: Name, cw: Window<Claim>, aw: Window<IPAddress>, claim: Claim)
    requires KeyOk(k, cw, aw, Clearing(k, claim)) && Last(cw).Some?
    ensures KeyOk(k, Append(cw, ClearedClaim(Last(cw).value)), aw, Idle)
  {
    var v := ClearedClaim(Last(cw).value);
    if v != Last(cw) {
      ClaimWindowGrows(cw, v);
    }
  }

  // ---------- one key's order is everybody's ----------

  /** A step that touches only key k and a worker that is at k, or none. */
  ghost predicate OnlyKey(s: State, t: State, k: Name) {
    && (forall j: Name :: j != k ==> At(t.claims, j) == At(s.claims, j) && At(t.addrs, j) == At(s.addrs, j))
    && (t.worker == s.worker || ((s.worker.Idle? || s.worker.k == k) && (t.worker.Idle? || t.worker.k == k)))
  }

  lemma OneKeyKeepsKeys(s: State, t: State, k: Name)
    requires KeysOk(s) && OnlyKey(s, t, k) && KeyAt(t, k)
    ensures KeysOk(t)
  {
    forall j: Name | j != k
      ensures KeyAt(t, j)
    {
      assert KeyAt(s, j);
    }
  }

  /** What users, the garbage collector, the pool controllers, caches and restarts do. */
  ghost predicate Outside(a: Action) {
    !a.Begin? && !a.Work? && !a.Abort?
  }

  lemma RestartKeepsKeys(s: State, t: State)
    requires KeysOk(s)
    requires t.claims == Reload(s.claims) && t.addrs == Reload(s.addrs) && t.worker == Idle
    ensures KeysOk(t)
  {
    forall k: Name
      ensures KeyAt(t, k)
    {
      assert KeyAt(s, k);
      RestartKeepsKey(k, At(s.claims, k), At(s.addrs, k), s.worker);
    }
  }

  lemma OutsideKeepsKeys(s: State, a: Action, t: State)
    requires KeysOk(s) && Step(s, a, t) && Outside(a)
    ensures KeysOk(t)
  {
    if a.Restart? {
      RestartKeepsKeys(s, t);
    } else if !a.WritePool? && !a.SyncPool? && !a.Tick? {
      OutsideKeepsKey(s, a, t);
      OneKeyKeepsKeys(s, t, a.k);
    } else {
      assert KeyAt(s, 0);
      OneKeyKeepsKeys(s, t, 0);
    }
  }

  lemma OutsideKeepsKey(s: State, a: Action, t: State)
    requires KeysOk(s) && Step(s, a, t)
    requires a.CreateClaim? || a.DeleteClaim? || a.DeleteAddress? || a.SyncClaim? || a.SyncAddress?
    ensures OnlyKey(s, t, a.k) && KeyAt(t, a.k)
  {
    var cw, aw, w := At(s.claims, a.k), At(s.addrs, a.k), s.worker;
    assert KeyAt(s, a.k);
    match a
    case CreateClaim(k, ref) => CreateClaimKeepsKey(k, cw, aw, w, ref);
    case DeleteClaim(k) => DeleteClaimKeepsKey(k, cw, aw, w, s.now);
    case DeleteAddress(k) => DeleteAddressKeepsKey(k, cw, aw, w);
    case SyncClaim(k) =>
      if |cw| > 1 {
        SyncClaimKeepsKey(k, cw, aw, w);
      }
    case SyncAddress(k) =>
      if |aw| > 1 {
        SyncAddressKeepsKey(k, cw, aw, w);
      }
    case _ =>
  }

  // ---------- the worker's own calls ----------

  lemma ClaimWritesKeepKey(s: State, t: State, k: Name)
    requires KeysOk(s) && t == Worked(s, []) && (s.worker.AddingFinalizer? || s.worker.Clearing?) && k == s.worker.k
    ensures OnlyKey(s, t, k) && KeyAt(t, k)
  {
    var cw, aw := At(s.claims, k), At(s.addrs, k);
    assert KeyAt(s, k);
    if Last(cw).Some? {
      if s.worker.AddingFinalizer? {
        AddFinalizerKeepsKey(k, cw, aw);
      } else {
        ClearKeepsKey(k, cw, aw, s.worker.claim);
      }
    }
  }

  lemma CreateOrPatchKeepsKey(s: State, t: State, k: Name)
    requires KeysOk(s) && t == Worked(s, []) && (s.worker.Creating? || s.worker.Patching?) && k == s.worker.k
    ensures OnlyKey(s, t, k) && KeyAt(t, k)
  {
    var cw, aw := At(s.claims, k), At(s.addrs, k);
    assert KeyAt(s, k);
    match s.worker
    case Creating(_, claim, wanted) => CreateKeepsKey(k, cw, aw, claim, wanted);
    case Patching(_, claim, wanted, was) =>
      if Last(aw).Some? {
        PatchIsIdle(Last(aw).value, was, wanted);
      }
  }

  lemma ReleaseKeepsKey(s: State, t: State, k: Name)
    requires KeysOk(s) && t == Worked(s, []) && (s.worker.Unprotecting? || s.worker.Deleting?) && k == s.worker.k
    ensures OnlyKey(s, t, k) && KeyAt(t, k)
  {
    var cw, aw := At(s.claims, k), At(s.addrs, k);
    assert KeyAt(s, k);
    if Last(aw).Some? {
      if s.worker.Unprotecting? {
        UnprotectKeepsKey(k, cw, aw, s.worker.claim);
      } else {
        AddressWindowGrows(aw, k, false, None);
      }
    }
  }

  /** Its reads, but for the list of addresses. */
  lemma ReadsKeepKey(s: State, t: State, k: Name)
    requires KeysOk(s) && PoolsOk(s) && t == Worked(s, [])
    requires s.worker.GotClaim? || s.worker.GotPool? || s.worker.Waiting? || s.worker.Releasing?
    requires k == s.worker.k
    ensures OnlyKey(s, t, k) && KeyAt(t, k)
  {
    var cw, aw := At(s.claims, k), At(s.addrs, k);
    assert KeyAt(s, k);
    match s.worker
    case GotPool(_, claim, pool) =>
      if aw[0].None? {
        assert aw == [None];
      }
    case _ =>
  }

  /** EnsureAddress on an address that is alive finds it in the list and keeps its allocation. */
  lemma LiveAddressIsKept(s: State, inUse: seq<IPAddress>, k: Name, claim: Claim, found: IPAddress, spec: PoolSpec)
    requires KeysOk(s) && s.worker == GotAddress(k, claim, Some(found), spec)
    requires Listing(s, claim.pool, inUse) && LiveAddr(s, k).Some?
    ensures Mutated(found, spec, inUse) == Ok(found.(protect := true))
  {
    assert KeyAt(s, k);
    assert Cached(s.addrs, k).Some? && Cached(s.addrs, k).value.pool == claim.pool;
  }

  /** Unless the worker waits for it, a live address is in the cache, with the same allocation. */
  lemma CacheHoldsLive(s: State, j: Name)
    requires KeysOk(s) && s.worker != Waiting(j, true) && LiveAddr(s, j).Some?
    ensures Cached(s.addrs, j).Some? && SameAllocation(Cached(s.addrs, j).value, LiveAddr(s, j).value)
    ensures Cached(s.addrs, j).value.name == j
  {
    assert KeyAt(s, j);
  }

  /** What is apart from the list is apart from every live address of the pool. */
  lemma ApartFromLive(s: State, ref: PoolRef, inUse: seq<IPAddress>, b: IPAddress, j: Name)
    requires KeysOk(s) && s.worker != Waiting(j, true) && Listing(s, ref, inUse)
    requires LiveAddr(s, j).Some? && LiveAddr(s, j).value.pool == ref
    requires forall i :: 0 <= i < |inUse| ==> Apart(inUse[i], b)
    ensures Apart(LiveAddr(s, j).value, b)
  {
    CacheHoldsLive(s, j);
    var i :| 0 <= i < |inUse| && inUse[i] == Cached(s.addrs, j).value;
  }

  /** EnsureAddress for a new address allocates away from every live address of the pool. */
  lemma NewAddressIsClear(s: State, inUse: seq<IPAddress>, k: Name, claim: Claim, spec: PoolSpec)
    requires KeysOk(s) && s.worker == GotAddress(k, claim, None, spec)
    requires Listing(s, claim.pool, inUse) && Mutated(NewAddress(k, claim.pool), spec, inUse).Ok?
    ensures Clear(s.addrs, Mutated(NewAddress(k, claim.pool), spec, inUse).value)
  {
    var base := NewAddress(k, claim.pool);
    assert At(s.addrs, k) == [None] && KindMatches(claim.pool, spec) by {
      assert KeyAt(s, k);
    }
    AllocateIsSafe(spec, base, inUse);
    var b := Allocate(spec, base, inUse).value.(protect := true);
    forall j: Name | j != k && Live(s.addrs, j).Some? && Live(s.addrs, j).value.pool == claim.pool
      ensures Apart(Live(s.addrs, j).value, b)
    {
      ApartFromLive(s, claim.pool, inUse, b, j);
    }
  }

  lemma EnsuredNew(k: Name, cw: Window<Claim>, aw: Window<IPAddress>, claim: Claim, spec: PoolSpec,
                   inUse: seq<IPAddress>)
    requires KeyOk(k, cw, aw, GotAddress(k, claim, None, spec))
    ensures KeyOk(k, cw, aw, Ensured(k, claim, None, spec, inUse))
  {
  }

  lemma EnsuredFound(k: Name, cw: Window<Claim>, aw: Window<IPAddress>, claim: Claim, found: IPAddress,
                     spec: PoolSpec, inUse: seq<IPAddress>)
    requires KeyOk(k, cw, aw, GotAddress(k, claim, Some(found), spec))
    requires Last(aw).Some? ==> Mutated(found, spec, inUse) == Ok(found.(protect := true))
    ensures KeyOk(k, cw, aw, Ensured(k, claim, Some(found), spec, inUse))
  {
  }

  lemma EnsureKeepsKey(s: State, inUse: seq<IPAddress>, k: Name, claim: Claim, found: Option<IPAddress>,
                       spec: PoolSpec)
    requires KeysOk(s) && s.worker == GotAddress(k, claim, found, spec) && Listing(s, claim.pool, inUse)
    ensures KeyOk(k, At(s.claims, k), At(s.addrs, k), Ensured(k, claim, found, spec, inUse))
  {
    var cw, aw := At(s.claims, k), At(s.addrs, k);
    assert KeyAt(s, k);
    if found.None? {
      EnsuredNew(k, cw, aw, claim, spec, inUse);
    } else {
      if LiveAddr(s, k).Some? {
        LiveAddressIsKept(s, inUse, k, claim, found.value, spec);
      }
      EnsuredFound(k, cw, aw, claim, found.value, spec, inUse);
    }
  }

  lemma WorkKeepsKeys(s: State, inUse: seq<IPAddress>, t: State)
    requires KeysOk(s) && PoolsOk(s) && Step(s, Work(inUse), t)
    ensures KeysOk(t)
  {
    if !s.worker.Idle? {
      var k := s.worker.k;
      if s.worker.GotAddress? {
        EnsureKeepsKey(s, inUse, k, s.worker.claim, s.worker.found, s.worker.spec);
      } else if s.worker.AddingFinalizer? || s.worker.Clearing? {
        ClaimWritesKeepKey(s, t, k);
      } else if s.worker.Creating? || s.worker.Patching? {
        CreateOrPatchKeepsKey(s, t, k);
      } else if s.worker.Unprotecting? || s.worker.Deleting? {
        ReleaseKeepsKey(s, t, k);
      } else {
        ReadsKeepKey(s, t, k);
      }
      OneKeyKeepsKeys(s, t, k);
    }
  }

  lemma BeginOrAbortKeepsKeys(s: State, a: Action, t: State)
    requires KeysOk(s) && Step(s, a, t) && (a.Begin? || a.Abort?)
    ensures KeysOk(t)
  {
    var k: Name := if a.Begin? then a.k else if s.worker.Idle? then 0 else s.worker.k;
    var cw, aw := At(s.claims, k), At(s.addrs, k);
    assert KeyAt(s, k);
    if a.Begin? {
      BeginKeepsKey(k, cw, aw);
    } else {
      StopKeepsKey(k, cw, aw, s.worker, Idle);
    }
    OneKeyKeepsKeys(s, t, k);
  }

  // ---------- live addresses ----------

  /** What one step may do to one live address. */
  ghost predicate Evolves(s: State, a: Action, t: State, j: Name) {
    || LiveAddr(t, j).None?
    || (LiveAddr(s, j).Some? && SameAllocation(LiveAddr(s, j).value, LiveAddr(t, j).value))
    || (a.Work? && s.worker.Creating? && s.worker.k == j
        && LiveAddr(s, j).None? && LiveAddr(t, j) == Some(s.worker.wanted))
  }

  lemma PatchKeepsAllocation(s: State, inUse: seq<IPAddress>, t: State)
    requires s.worker.Patching? && KeyAt(s, s.worker.k) && t == Worked(s, inUse)
    ensures At(t.addrs, s.worker.k) == At(s.addrs, s.worker.k)
  {
    if LiveAddr(s, s.worker.k).Some? {
      PatchIsIdle(LiveAddr(s, s.worker.k).value, s.worker.was, s.worker.wanted);
    }
  }

  lemma OwnAllocationsStay(s: State, inUse: seq<IPAddress>, t: State, j: Name)
    requires KeysOk(s) && t == Worked(s, inUse)
    ensures Evolves(s, Work(inUse), t, j)
  {
    if s.worker.Idle? || s.worker.k != j || !WritesAddress(s.worker) {
      assert At(t.addrs, j) == At(s.addrs, j);
    } else if s.worker.Patching? {
      assert KeyAt(s, j);
      PatchKeepsAllocation(s, inUse, t);
    }
  }

  /** No step changes the allocation of a live address; only the worker's create brings one into being. */
  lemma AllocationsStay(s: State, a: Action, t: State, j: Name)
    requires KeysOk(s) && Step(s, a, t)
    ensures Evolves(s, a, t, j)
  {
    if a.Work? {
      OwnAllocationsStay(s, a.inUse, t, j);
    }
  }

  lemma PoolsStayOk(s: State, a: Action, t: State)
    requires PoolsOk(s) && Step(s, a, t)
    ensures PoolsOk(t)
  {
  }

  // ---------- overlap ----------

  lemma StepKeepsNoOverlap(s: State, a: Action, t: State)
    requires Inv(s) && Step(s, a, t)
    ensures NoOverlap(t)
  {
    assert s.worker.Creating? ==> KeyAt(s, s.worker.k);
    forall j: Name, k: Name
      ensures ApartAt(t, j, k)
    {
      AllocationsStay(s, a, t, j);
      AllocationsStay(s, a, t, k);
      StillApart(s, a, t, j, k);
    }
  }

  lemma StillApart(s: State, a: Action, t: State, j: Name, k: Name)
    requires NoOverlap(s) && Evolves(s, a, t, j) && Evolves(s, a, t, k)
    requires s.worker.Creating? ==> Clear(s.addrs, s.worker.wanted) && s.worker.wanted.name == s.worker.k
    ensures ApartAt(t, j, k)
  {
    assert ApartAt(s, j, k);
  }

  ghost predicate JustEnsured(s: State, inUse: seq<IPAddress>, k: Name, claim: Claim, spec: PoolSpec,
                              wanted: IPAddress) {
    && s.worker == GotAddress(k, claim, None, spec) && Listing(s, claim.pool, inUse)
    && Mutated(NewAddress(k, claim.pool), spec, inUse) == Ok(wanted)
  }

  /** A worker about to create has just run EnsureAddress, or was already there. */
  lemma CreatingComesFromEnsure(s: State, a: Action, t: State)
    requires Step(s, a, t) && t.worker.Creating? && t.worker != s.worker
    ensures a.Work? && t.addrs == s.addrs
    ensures exists k, claim, spec :: JustEnsured(s, a.inUse, k, claim, spec, t.worker.wanted)
  {
    assert JustEnsured(s, a.inUse, s.worker.k, s.worker.claim, s.worker.spec, t.worker.wanted);
  }

  lemma PendingStaysClear(s: State, a: Action, t: State)
    requires Inv(s) && !a.Work? && Step(s, a, t) && t.worker.Creating? && t.worker == s.worker
    ensures Clear(t.addrs, t.worker.wanted)
  {
    var wanted := s.worker.wanted;
    forall j: Name | j != wanted.name && Live(t.addrs, j).Some? && Live(t.addrs, j).value.pool == wanted.pool
      ensures Apart(Live(t.addrs, j).value, wanted)
    {
      AllocationsStay(s, a, t, j);
      assert Evolves(s, a, t, j) && !(a.Work? && s.worker.Creating?);
    }
  }

  lemma EnsuredIsClear(s: State, t: State, inUse: seq<IPAddress>, k: Name, claim: Claim, spec: PoolSpec,
                       wanted: IPAddress)
    requires KeysOk(s) && JustEnsured(s, inUse, k, claim, spec, wanted) && t.addrs == s.addrs
    ensures Clear(t.addrs, wanted)
  {
    NewAddressIsClear(s, inUse, k, claim, spec);
  }

  lemma StepKeepsClear(s: State, a: Action, t: State)
    requires Inv(s) && Step(s, a, t) && t.worker.Creating?
    ensures Clear(t.addrs, t.worker.wanted)
  {
    if s.worker == t.worker {
      assert a.Work? ==> !s.worker.Creating?;
      PendingStaysClear(s, a, t);
    } else {
      CreatingComesFromEnsure(s, a, t);
      var k, claim, spec :| JustEnsured(s, a.inUse, k, claim, spec, t.worker.wanted);
      EnsuredIsClear(s, t, a.inUse, k, claim, spec, t.worker.wanted);
    }
  }

  /** Every step of every party keeps the invariant. */
  lemma StepKeepsInv(s: State, a: Action, t: State)
    requires Inv(s) && Step(s, a, t)
    ensures Inv(t)
  {
    if a.Work? {
      WorkKeepsKeys(s, a.inUse, t);
    } else if a.Begin? || a.Abort? {
      BeginOrAbortKeepsKeys(s, a, t);
    } else {
      OutsideKeepsKeys(s, a, t);
    }
    PoolsStayOk(s, a, t);
    StepKeepsNoOverlap(s, a, t);
    if t.worker.Creating? {
      StepKeepsClear(s, a, t);
    }
  }

  lemma InitialInv(s: State)
    requires Initial(s)
    ensures Inv(s)
  {
  }
}
