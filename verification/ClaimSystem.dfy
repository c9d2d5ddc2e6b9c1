/**
 The claim lifecycle (pkg/ipamutil/reconciler.go) as a step system over live API objects and lagging caches.

 Every object key has a window: the versions that the controller's cache has not passed yet, the cached one first and
 the live one last. Users, the garbage collector and the pool controllers change the live end, the cache moves forward
 one version at a time and per key, and a restart reloads it. The single worker reads the cached end and writes the live
 end, one call at a time, so anything may happen between any two of its calls.
 */
module ClaimSystem {
  import opened Wrappers
  import opened Netip
  import opened Api
  import opened ClaimHandlers

  // ---------- windows ----------

  type Window<T> = seq<Option<T>>

  function At<K, T>(m: map<K, Window<T>>, k: K): (w: Window<T>)
    ensures |w| > 0
  {
    if k in m && m[k] != [] then m[k] else [None]
  }

  function Cached<K, T>(m: map<K, Window<T>>, k: K): Option<T> {
    At(m, k)[0]
  }

  function Live<K, T>(m: map<K, Window<T>>, k: K): Option<T> {
    At(m, k)[|At(m, k)| - 1]
  }

  function Append<T(==)>(w: Window<T>, v: Option<T>): (r: Window<T>)
    requires |w| > 0
    ensures |r| > 0 && r[|r| - 1] == v
  {
    if w[|w| - 1] == v then w else w + [v]
  }

  /** Writes a new live version; a write that changes nothing makes no version. */
  function Put<K(!new), T(==)>(m: map<K, Window<T>>, k: K, v: Option<T>): (n: map<K, Window<T>>)
    ensures At(n, k) == Append(At(m, k), v)
    ensures forall j :: j != k ==> At(n, j) == At(m, j)
  {
    m[k := Append(At(m, k), v)]
  }

  /** The cache receives the next version of one object. */
  function Advance<K(!new), T>(m: map<K, Window<T>>, k: K): (n: map<K, Window<T>>)
    ensures At(n, k) == if |At(m, k)| > 1 then At(m, k)[1..] else At(m, k)
    ensures forall j :: j != k ==> At(n, j) == At(m, j)
  {
    if |At(m, k)| > 1 then m[k := At(m, k)[1..]] else m
  }

  /** The cache is loaded afresh. */
  function Reload<K(!new), T>(m: map<K, Window<T>>): (n: map<K, Window<T>>)
    ensures forall k :: At(n, k) == [Live(m, k)]
  {
    map k | k in m :: [Live(m, k)]
  }

  // ---------- objects and state ----------

  /** `fin` is the ReleaseAddress finalizer; deletedAt the deletion timestamp in nanoseconds. */
  datatype Claim = Claim(pool: PoolRef, fin: bool, deletedAt: Option<int>)

  /** Where the worker stands between two API calls, with what it has read so far. */
  datatype Worker =
    | Idle
    | AddingFinalizer(k: Name)
    | GotClaim(k: Name, claim: Claim)
    | GotPool(k: Name, claim: Claim, pool: Option<Pool>)
    | GotAddress(k: Name, claim: Claim, found: Option<IPAddress>, spec: PoolSpec)
    | Creating(k: Name, claim: Claim, wanted: IPAddress)
    | Patching(k: Name, claim: Claim, wanted: IPAddress, was: IPAddress)
    | Waiting(k: Name, created: bool)
    | Releasing(k: Name, claim: Claim)
    | Unprotecting(k: Name, claim: Claim)
    | Deleting(k: Name, claim: Claim)
    | Clearing(k: Name, claim: Claim)

  datatype State = State(
    claims: map<Name, Window<Claim>>,
    addrs: map<Name, Window<IPAddress>>,
    pools: map<PoolRef, Window<Pool>>,
    now: int,
    worker: Worker)

  function LiveClaim(s: State, k: Name): Option<Claim> {
    Live(s.claims, k)
  }

  function LiveAddr(s: State, k: Name): Option<IPAddress> {
    Live(s.addrs, k)
  }

  // ---------- what others do ----------

  datatype Action =
    | CreateClaim(k: Name, ref: PoolRef)
    | DeleteClaim(k: Name)
    | DeleteAddress(k: Name)
    | WritePool(ref: PoolRef, version: Option<Pool>)
    | Tick(until: int)
    | SyncClaim(k: Name)
    | SyncAddress(k: Name)
    | SyncPool(ref: PoolRef)
    | Restart
    | Begin(k: Name)
    | Work(inUse: seq<IPAddress>)
    | Abort

  /** What deleting an object does: mark it while a finalizer is left, else remove it. */
  function DeletedClaim(c: Claim, now: int): Option<Claim> {
    if !c.fin then None
    else if c.deletedAt.Some? then Some(c)
    else Some(c.(deletedAt := Some(now)))
  }

  function DeletedAddress(a: IPAddress): Option<IPAddress> {
    if a.protect then Some(a.(deleting := true)) else None
  }

  function UnprotectedAddress(a: IPAddress): Option<IPAddress> {
    if a.deleting then None else Some(a.(protect := false))
  }

  function ClearedClaim(c: Claim): Option<Claim> {
    if c.deletedAt.Some? then None else Some(c.(fin := false))
  }

  // ---------- what the worker does ----------

  /** ListAddressesInUse reads the cache, in any order. */
  ghost predicate Listing(s: State, ref: PoolRef, inUse: seq<IPAddress>) {
    && (forall i :: 0 <= i < |inUse| ==>
          Cached(s.addrs, inUse[i].name) == Some(inUse[i]) && inUse[i].pool == ref)
    && (forall k: Name :: Cached(s.addrs, k).Some? && Cached(s.addrs, k).value.pool == ref ==>
          Cached(s.addrs, k).value in inUse)
  }

  lemma NotListed(s: State, ref: PoolRef, inUse: seq<IPAddress>, k: Name)
    requires Listing(s, ref, inUse) && Cached(s.addrs, k).None?
    ensures !Allocated(k, inUse)
  {
  }

  /** The mutate function of CreateOrPatch on the cached object, or on a new one: EnsureAddress, then the finalizer. */
  ghost function Mutated(base: IPAddress, spec: PoolSpec, inUse: seq<IPAddress>): (r: Result<IPAddress>)
    ensures r.Ok? ==> r.value.protect && r.value.name == base.name && r.value.pool == base.pool
  {
    if Allocated(base.name, inUse) then Ok(base.(protect := true))
    else
      match Allocate(spec, base, inUse)
      case Ok(b) => Ok(b.(protect := true))
      case Err(e) => Err(e)
      case Panic => Panic
  }

  /** CreateOrPatch before its write: create what was not found, patch what differs. */
  ghost function Ensured(k: Name, claim: Claim, found: Option<IPAddress>, spec: PoolSpec, inUse: seq<IPAddress>)
    : Worker
  {
    var base := if found.Some? then found.value else NewAddress(k, claim.pool);
    match Mutated(base, spec, inUse)
    case Err(_) => Idle
    case Panic => Idle
    case Ok(wanted) =>
      if found.None? then Creating(k, claim, wanted)
      else if wanted == found.value then Waiting(k, false)
      else Patching(k, claim, wanted, found.value)
  }

  /** A merge patch sets what differs between the cached object and the mutated one, and nothing else. */
  function MergePatch(live: IPAddress, was: IPAddress, wanted: IPAddress): IPAddress {
    live.(address := if wanted.address != was.address then wanted.address else live.address,
          prefix := if wanted.prefix != was.prefix then wanted.prefix else live.prefix,
          gateway := if wanted.gateway != was.gateway then wanted.gateway else live.gateway,
          protect := if wanted.protect != was.protect then wanted.protect else live.protect)
  }

  function PutClaim(s: State, k: Name, v: Option<Claim>): State {
    s.(claims := Put(s.claims, k, v))
  }

  function PutAddr(s: State, k: Name, v: Option<IPAddress>): State {
    s.(addrs := Put(s.addrs, k, v))
  }

  predicate WritesAddress(w: Worker) {
    w.Creating? || w.Patching? || w.Unprotecting? || w.Deleting?
  }

  predicate WritesClaim(w: Worker) {
    w.AddingFinalizer? || w.Clearing?
  }

  /**
   The worker's next call. Reads come from the cache, writes go to the live object; an error ends the reconcile.
   Only Ensure reads a list, and only a worker in that position looks at inUse.
   */
  ghost function Worked(s: State, inUse: seq<IPAddress>): (t: State)
    ensures !WritesAddress(s.worker) ==> t.addrs == s.addrs
    ensures !WritesClaim(s.worker) ==> t.claims == s.claims
    ensures t.pools == s.pools && t.now == s.now
  {
    match s.worker
    case Idle => s
    case AddingFinalizer(k) =>
      (match LiveClaim(s, k)
       case None => s
       case Some(c) => PutClaim(s, k, Some(c.(fin := true)))).(worker := Idle)
    case GotClaim(k, claim) =>
      var pool := Cached(s.pools, claim.pool);
      s.(worker := if pool.None? && claim.deletedAt.None? then Idle else GotPool(k, claim, pool))
    case GotPool(k, claim, pool) =>
      s.(worker :=
        if claim.deletedAt.Some? then
          if ReleaseAddress(claim.deletedAt, pool, s.now) == ReleaseNow then Releasing(k, claim) else Idle
        else if pool.None? then Idle
        else GotAddress(k, claim, Cached(s.addrs, k), pool.value.spec))
    case GotAddress(k, claim, found, spec) => s.(worker := Ensured(k, claim, found, spec, inUse))
    case Creating(k, claim, wanted) =>
      if LiveAddr(s, k).Some? then s.(worker := Idle)
      else PutAddr(s, k, Some(wanted)).(worker := Waiting(k, true))
    case Patching(k, claim, wanted, was) =>
      (match LiveAddr(s, k)
       case None => s.(worker := Idle)
       case Some(a) => PutAddr(s, k, Some(MergePatch(a, was, wanted))).(worker := Waiting(k, false)))
    case Waiting(k, _) =>
      if Cached(s.addrs, k).Some? then s.(worker := Idle) else s
    case Releasing(k, claim) =>
      s.(worker :=
        match Cached(s.addrs, k)
        case None => Clearing(k, claim)
        case Some(a) => if a.protect then Unprotecting(k, claim) else Deleting(k, claim))
    case Unprotecting(k, claim) =>
      (match LiveAddr(s, k)
       case None => s.(worker := Clearing(k, claim))
       case Some(a) => PutAddr(s, k, UnprotectedAddress(a)).(worker := Deleting(k, claim)))
    case Deleting(k, claim) =>
      (match LiveAddr(s, k)
       case None => s
       case Some(a) => PutAddr(s, k, DeletedAddress(a))).(worker := Clearing(k, claim))
    case Clearing(k, claim) =>
      (match LiveClaim(s, k)
       case None => s
       case Some(c) => PutClaim(s, k, ClearedClaim(c))).(worker := Idle)
  }

  ghost predicate Step(s: State, a: Action, t: State) {
    match a
    case CreateClaim(k, ref) =>
      LiveClaim(s, k).None? && t == PutClaim(s, k, Some(Claim(ref, false, None)))
    case DeleteClaim(k) =>
      LiveClaim(s, k).Some? && t == PutClaim(s, k, DeletedClaim(LiveClaim(s, k).value, s.now))
    case DeleteAddress(k) =>
      LiveAddr(s, k).Some? && t == PutAddr(s, k, DeletedAddress(LiveAddr(s, k).value))
    case WritePool(ref, version) =>
      (version.Some? ==> KindMatches(ref, version.value.spec)) && t == s.(pools := Put(s.pools, ref, version))
    case Tick(until) => until >= s.now && t == s.(now := until)
    case SyncClaim(k) => t == s.(claims := Advance(s.claims, k))
    case SyncAddress(k) => t == s.(addrs := Advance(s.addrs, k))
    case SyncPool(ref) => t == s.(pools := Advance(s.pools, ref))
    case Restart =>
      t == State(Reload(s.claims), Reload(s.addrs), Reload(s.pools), s.now, Idle)
    case Begin(k) =>
      && s.worker == Idle && Cached(s.claims, k).Some?
      && var c := Cached(s.claims, k).value;
         t == s.(worker := if c.fin then GotClaim(k, c) else AddingFinalizer(k))
    case Work(inUse) =>
      && (s.worker.GotAddress? ==> Listing(s, s.worker.claim.pool, inUse))
      && t == Worked(s, inUse)
    case Abort =>
      // the wait after a create does not time out
      !(s.worker.Waiting? && s.worker.created) && t == s.(worker := Idle)
  }

  predicate Initial(s: State) {
    s.claims == map[] && s.addrs == map[] && s.pools == map[] && s.worker == Idle
  }

  // ---------- paths ----------

  ghost predicate StepAt(states: seq<State>, actions: seq<Action>, i: nat)
    requires i < |actions| && |states| == |actions| + 1
  {
    Step(states[i], actions[i], states[i + 1])
  }

  ghost predicate IsPath(states: seq<State>, actions: seq<Action>) {
    && |states| == |actions| + 1
    && forall i :: 0 <= i < |actions| ==> StepAt(states, actions, i)
  }

  /** What happens when nobody else acts: the worker's calls and the cache catching up on one address. */
  predicate Own(a: Action) {
    a.Begin? || a.Work? || a.Abort? || a.SyncAddress?
  }

  ghost predicate OwnPath(s: State, t: State) {
    exists states, actions ::
      && IsPath(states, actions) && states[0] == s && states[|actions|] == t
      && forall i :: 0 <= i < |actions| ==> Own(actions[i])
  }

  lemma OwnPathStarts(s: State)
    ensures OwnPath(s, s)
  {
    assert IsPath([s], []);
  }

  lemma OwnPathExtends(s: State, t: State, a: Action, u: State)
    requires OwnPath(s, t) && Step(t, a, u) && Own(a)
    ensures OwnPath(s, u)
  {
    var states, actions :|
      && IsPath(states, actions) && states[0] == s && states[|actions|] == t
      && forall i :: 0 <= i < |actions| ==> Own(actions[i]);
    var longer, more := states + [u], actions + [a];
    forall i | 0 <= i < |more|
      ensures StepAt(longer, more, i)
    {
      assert i < |actions| ==> StepAt(states, actions, i);
    }
    assert IsPath(longer, more);
  }
}
