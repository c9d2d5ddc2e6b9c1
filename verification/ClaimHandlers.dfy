/** The two claim handlers (internal/controllers/ipaddressclaim_address.go, ipaddressclaim_prefix.go). */
module ClaimHandlers {
  import opened Wrappers
  import opened Powers
  import opened Netip
  import opened IPSets
  import opened Api
  import opened PrefixAllocator
  import opened PrefixGuarantees
  import opened PrefixRequirements
  import opened AddressAllocator
  import opened AddressRequirements
  import AddressPools
  import PrefixWebhook
  import PrefixPoolStatus

  datatype PoolSpec = IPSpec(ip: IPPoolSpec) | PrefixSpec(px: PrefixPoolSpec)

  /** A pool object of the API; `protect` is the ProtectPool finalizer. */
  datatype Pool = Pool(spec: PoolSpec, protect: bool, deleting: bool)

  predicate KindMatches(ref: PoolRef, spec: PoolSpec) {
    ref.kind == AddressPool <==> spec.IPSpec?
  }

  ghost predicate Accepted(spec: PoolSpec) {
    match spec
    case IPSpec(ip) => AddressPools.Acceptable(ip)
    case PrefixSpec(px) => PrefixWebhook.Acceptable(px)
  }

  // ---------- what an allocation is, from the spec ----------

  /** Spec and list are well-formed. */
  ghost predicate WellFormedInput(spec: PoolSpec, inUse: seq<IPAddress>) {
    match spec
    case IPSpec(ip) => Buildable(ip) && AllAddresses(inUse)
    case PrefixSpec(px) => WellFormed(px) && AllBlocks(inUse)
  }

  ghost predicate AllAddresses(inUse: seq<IPAddress>) {
    forall i :: 0 <= i < |inUse| ==> Parses(inUse[i].address)
  }

  ghost predicate AllBlocks(inUse: seq<IPAddress>) {
    forall i :: 0 <= i < |inUse| ==> HasBlock(inUse[i])
  }

  /** The code indexes an empty set: all parses, nothing is listed and reserved addresses are to be taken out. */
  ghost predicate Panics(spec: PoolSpec, inUse: seq<IPAddress>) {
    && spec.IPSpec? && spec.ip.addresses == [] && !spec.ip.allocateReserved
    && EntriesParse(spec.ip) && GatewayParses(spec.ip) && AllAddresses(inUse)
  }

  predicate GatewayParses(ip: IPPoolSpec) {
    ip.gateway != BadGateway && (ip.gateway.Gateway? ==> IsAddr(ip.gateway.a))
  }

  ghost predicate HeldBySome(inUse: seq<IPAddress>, a: nat) {
    exists i :: 0 <= i < |inUse| && Parses(inUse[i].address) && Covers(inUse[i].address, a)
  }

  /** a may be handed out: an address, or the start of a block, that the spec offers and no object of the list holds. */
  ghost predicate Available(spec: PoolSpec, inUse: seq<IPAddress>, a: nat) {
    match spec
    case IPSpec(ip) => InPool(ip, a) && !HeldBySome(inUse, a)
    case PrefixSpec(px) =>
      Offered(px, a) && forall x: nat :: InBlock(a, Length(px), x) ==> !InSomeBlock(inUse, x)
  }

  /** b carries the prefix length and the gateway of the spec. */
  predicate RecordsSpec(spec: PoolSpec, b: IPAddress) {
    match spec
    case IPSpec(ip) => b.prefix == Some(ip.prefix) && b.gateway == ip.gateway
    case PrefixSpec(px) => b.prefix == Some(Length(px)) && b.gateway == px.gateway
  }

  /** b is `address` with the lowest available choice, the prefix length and the gateway of the spec filled in. */
  ghost predicate FilledIn(spec: PoolSpec, address: IPAddress, inUse: seq<IPAddress>, b: IPAddress) {
    && b.address.Single? && Available(spec, inUse, b.address.a)
    && (forall x: nat :: Available(spec, inUse, x) ==> b.address.a <= x)
    && RecordsSpec(spec, b) && b == address.(address := b.address, prefix := b.prefix, gateway := b.gateway)
  }

  /** What the allocation step of EnsureAddress may answer. */
  ghost predicate IsAllocation(spec: PoolSpec, address: IPAddress, inUse: seq<IPAddress>, r: Result<IPAddress>) {
    match r
    case Ok(b) => WellFormedInput(spec, inUse) && FilledIn(spec, address, inUse, b)
    case Err(NoneAvailable) => WellFormedInput(spec, inUse) && forall x: nat :: !Available(spec, inUse, x)
    case Err(BadConfig) => !WellFormedInput(spec, inUse) && !Panics(spec, inUse)
    case Panic => Panics(spec, inUse)
  }

  /** The configuration and the list are well-formed and the pool has something left. */
  ghost predicate Serves(spec: PoolSpec, inUse: seq<IPAddress>) {
    WellFormedInput(spec, inUse) && exists a: nat :: Available(spec, inUse, a)
  }

  // ---------- EnsureAddress ----------

  /** NewIPAddress: names and references, nothing allocated yet. */
  function NewAddress(name: Name, ref: PoolRef): IPAddress {
    IPAddress(name, ref, Garbage, None, NoGateway, true, false)
  }

  ghost predicate Allocated(name: Name, inUse: seq<IPAddress>) {
    exists i :: 0 <= i < |inUse| && inUse[i].name == name
  }

  /** The allocation step of EnsureAddress: fills in address, prefix and gateway of a new address object. */
  function Allocate(spec: PoolSpec, address: IPAddress, inUse: seq<IPAddress>): (r: Result<IPAddress>)
    ensures r.Ok? ==> r.value.name == address.name && r.value.pool == address.pool
  {
    match spec
    case IPSpec(ip) =>
      var taken := InUseIPSet(inUse, ip.gateway);
      if taken.None? then Err(BadConfig)
      else
        (match PoolSpecToIPSetSpec(ip)
         case Panic => Panic
         case Err(e) => Err(e)
         case Ok(pool) =>
           match FindFreeAddressSpec(pool, taken.value)
           case Panic => Panic
           case Err(e) => Err(e)
           case Ok(free) =>
             Ok(address.(address := Single(free), prefix := Some(ip.prefix), gateway := ip.gateway)))
    case PrefixSpec(px) =>
      var taken := AllocationPrefixSet(inUse);
      if taken.None? then Err(BadConfig)
      else
        match FindFreePrefixSpec(NewConfig(px), taken.value)
        case Panic => Panic
        case Err(e) => Err(e)
        case Ok(free) =>
          Ok(address.(address := Single(free.addr), prefix := Some(free.bits), gateway := px.gateway))
  }

  /** EnsureAddress: a claim whose address is already in the list keeps it; otherwise one is allocated. */
  method EnsureAddress(spec: PoolSpec, address: IPAddress, inUse: seq<IPAddress>) returns (r: Result<IPAddress>)
    ensures Allocated(address.name, inUse) ==> r == Ok(address)
    ensures !Allocated(address.name, inUse) ==> IsAllocation(spec, address, inUse, r)
    ensures !Allocated(address.name, inUse) ==> r == Allocate(spec, address, inUse)
  {
    AllocateMeans(spec, address, inUse);
    var n := 0;
    while n < |inUse|
      invariant 0 <= n <= |inUse| && forall i :: 0 <= i < n ==> inUse[i].name != address.name
    {
      if inUse[n].name == address.name {
        return Ok(address);
      }
      n := n + 1;
    }
    match spec {
      case IPSpec(ip) =>
        var texts := BuildAddressList(inUse, ip.gateway);
        var taken := BuildAddressSet(texts);
        if taken.None? {
          return Err(BadConfig);
        }
        var pool := PoolSpecToIPSet(ip);
        if !pool.Ok? {
          return if pool == Panic then Panic else Err(pool.error);
        }
        var free, _ := FindFreeAddress(pool.value, taken.value);
        if !free.Ok? {
          return Err(free.error);
        }
        return Ok(address.(address := Single(free.value), prefix := Some(ip.prefix), gateway := ip.gateway));
      case PrefixSpec(px) =>
        var taken := AddressesToAllocationPrefixSet(inUse);
        if taken.None? {
          return Err(BadConfig);
        }
        var free := FindFreePrefix(NewConfig(px), taken.value);
        if !free.Ok? {
          return if free == Panic then Panic else Err(free.error);
        }
        return Ok(address.(address := Single(free.value.addr), prefix := Some(free.value.bits), gateway := px.gateway));
    }
  }

  // ---------- EnsureAddress, from the spec ----------

  /**
   A new address gets the lowest address or block that its spec offers and that no object of the list holds, with the
   prefix length and the gateway of the spec. It fails exactly when there is none or when something is malformed.
   */
  lemma AllocateMeans(spec: PoolSpec, address: IPAddress, inUse: seq<IPAddress>)
    ensures IsAllocation(spec, address, inUse, Allocate(spec, address, inUse))
  {
    match spec
    case IPSpec(ip) => AllocateAddressMeans(ip, address, inUse);
    case PrefixSpec(px) => AllocatePrefixMeans(px, address, inUse);
  }

  lemma TakenMeans(inUse: seq<IPAddress>, ip: IPPoolSpec, a: nat)
    ensures InUseIPSet(inUse, ip.gateway).Some? <==> AllAddresses(inUse) && GatewayParses(ip)
    ensures InUseIPSet(inUse, ip.gateway).Some? ==>
              (Has(InUseIPSet(inUse, ip.gateway).value, a) <==>
               HeldBySome(inUse, a) || ip.gateway == Gateway.Gateway(a))
  {
    var texts := AddressList(inUse, ip.gateway);
    EntriesMean(texts, a);
    assert forall i :: 0 <= i < |inUse| ==> texts[i] == inUse[i].address;
    if ip.gateway != NoGateway {
      assert texts[|inUse|] == if ip.gateway.Gateway? then Single(ip.gateway.a) else Garbage;
    }
  }

  lemma AllocateAddressMeans(ip: IPPoolSpec, address: IPAddress, inUse: seq<IPAddress>)
    ensures IsAllocation(IPSpec(ip), address, inUse, Allocate(IPSpec(ip), address, inUse))
  {
    TakenMeans(inUse, ip, 0);
    BuildableMeans(ip);
    PanicMeans(ip);
    if InUseIPSet(inUse, ip.gateway).Some? && PoolSpecToIPSetSpec(ip).Ok? {
      var pool, taken := PoolSpecToIPSetSpec(ip).value, InUseIPSet(inUse, ip.gateway).value;
      forall a: nat
        ensures IsFree(pool, taken, a) <==> Available(IPSpec(ip), inUse, a)
      {
        TakenMeans(inUse, ip, a);
        AddressRequirements.PoolMeans(ip, a);
      }
      LeastAvailable(ip, address, inUse, pool, taken);
    }
  }

  lemma LeastAvailable(ip: IPPoolSpec, address: IPAddress, inUse: seq<IPAddress>, pool: IPSet, taken: IPSet)
    requires Normal(pool) && forall a: nat :: IsFree(pool, taken, a) <==> Available(IPSpec(ip), inUse, a)
    ensures match FindFreeAddressSpec(pool, taken)
      case Ok(free) =>
        FilledIn(IPSpec(ip), address, inUse,
                 address.(address := Single(free), prefix := Some(ip.prefix), gateway := ip.gateway))
      case _ => forall x: nat :: !Available(IPSpec(ip), inUse, x)
  {
  }

  lemma AllocatePrefixMeans(px: PrefixPoolSpec, address: IPAddress, inUse: seq<IPAddress>)
    ensures IsAllocation(PrefixSpec(px), address, inUse, Allocate(PrefixSpec(px), address, inUse))
  {
    AllocationPrefixSetMeans(inUse, 0);
    WellFormedMeans(px);
    if AllocationPrefixSet(inUse).Some? {
      var taken := AllocationPrefixSet(inUse).value;
      forall x: nat
        ensures Has(taken, x) <==> InSomeBlock(inUse, x)
      {
        AllocationPrefixSetMeans(inUse, x);
      }
      FindFreePrefixMeets(px, taken);
      ChoiceIsAllocation(px, address, inUse, taken, FindFreePrefixSpec(NewConfig(px), taken));
    }
  }

  lemma ChoiceIsAllocation(px: PrefixPoolSpec, address: IPAddress, inUse: seq<IPAddress>, taken: IPSet,
                           r: Result<Prefix>)
    requires IsChoice(px, taken, r) && AllBlocks(inUse)
    requires forall x: nat :: Has(taken, x) <==> InSomeBlock(inUse, x)
    ensures IsAllocation(PrefixSpec(px), address, inUse,
              match r
              case Ok(q) => Ok(address.(address := Single(q.addr), prefix := Some(q.bits), gateway := px.gateway))
              case Err(e) => Err(e)
              case Panic => Panic)
  {
    forall x: nat
      ensures FreeAt(px, taken, x) <==> Available(PrefixSpec(px), inUse, x)
    {
    }
  }

  // ---------- what an allocation occupies ----------

  /** The addresses an object occupies: its one address in an IP pool, its whole block in a prefix pool. */
  function Footprint(a: IPAddress): Option<Range> {
    match a.pool.kind
    case AddressPool => EntryRange(a.address)
    case PrefixPool => AllocationRange(a)
  }

  ghost predicate Apart(a: IPAddress, b: IPAddress) {
    Footprint(a).Some? && Footprint(b).Some? && !Meets(Footprint(a).value, Footprint(b).value)
  }

  /** The allocation is one that the spec permits. */
  ghost predicate InSpec(spec: PoolSpec, a: IPAddress) {
    match spec
    case IPSpec(ip) => Buildable(ip) && a.address.Single? && InPool(ip, a.address.a)
    case PrefixSpec(px) => PrefixPoolStatus.Permitted(px, a)
  }

  /** That is what the code's own tests say: membership in the pool set, and PrefixIsAllocatable. */
  lemma InSpecMeans(spec: PoolSpec, a: IPAddress)
    ensures InSpec(spec, a) <==>
            match spec
            case IPSpec(ip) =>
              a.address.Single? && PoolSpecToIPSetSpec(ip).Ok? && Has(PoolSpecToIPSetSpec(ip).value, a.address.a)
            case PrefixSpec(px) => PrefixPoolStatus.InRangeAllocation(a, NewConfig(px))
  {
    match spec
    case IPSpec(ip) =>
      BuildableMeans(ip);
      if a.address.Single? && Buildable(ip) {
        AddressRequirements.PoolMeans(ip, a.address.a);
      }
    case PrefixSpec(px) => PrefixPoolStatus.PermittedMeans(px, a);
  }

  /** What an object holds, address by address. */
  ghost predicate Holds(a: IPAddress, x: nat) {
    match a.pool.kind
    case AddressPool => Parses(a.address) && Covers(a.address, x)
    case PrefixPool => HasBlock(a) && InBlockOf(a, x)
  }

  lemma FootprintMeans(a: IPAddress)
    ensures Footprint(a).Some? <==> if a.pool.kind == AddressPool then Parses(a.address) else HasBlock(a)
    ensures Footprint(a).Some? ==> ValidRange(Footprint(a).value) && Holds(a, Footprint(a).value.from)
    ensures Footprint(a).Some? ==> forall x: nat :: InRange(Footprint(a).value, x) <==> Holds(a, x)
    ensures Footprint(a).None? ==> forall x: nat :: !Holds(a, x)
  {
    match a.pool.kind
    case AddressPool =>
      EntryRangeMeans(a.address);
      EntryRangeValid(a.address);
      assert Footprint(a).Some? ==> InRange(Footprint(a).value, Footprint(a).value.from);
    case PrefixPool =>
      AllocationRangeMeans(a);
      assert Footprint(a).Some? ==> InRange(Footprint(a).value, Footprint(a).value.from);
  }

  /** Apart means that both hold something and share no address. */
  lemma ApartMeans(a: IPAddress, b: IPAddress)
    ensures Apart(a, b) <==> HoldsSome(a) && HoldsSome(b) && NoneShared(a, b)
  {
    FootprintMeans(a);
    FootprintMeans(b);
    if Footprint(a).Some? && Footprint(b).Some? {
      var (p, q) := (Footprint(a).value, Footprint(b).value);
      var x := if p.from <= q.from then q.from else p.from;
      assert Meets(p, q) ==> Holds(a, x) && Holds(b, x);
      assert !NoneShared(a, b) ==> exists y: nat :: InRange(p, y) && InRange(q, y);
    }
  }

  ghost predicate HoldsSome(a: IPAddress) {
    exists x: nat :: Holds(a, x)
  }

  ghost predicate NoneShared(a: IPAddress, b: IPAddress) {
    forall x: nat :: !(Holds(a, x) && Holds(b, x))
  }

  /** A new allocation is permitted by the spec and overlaps nothing in the list it was chosen against. */
  lemma AllocateIsSafe(spec: PoolSpec, address: IPAddress, inUse: seq<IPAddress>)
    requires Allocate(spec, address, inUse).Ok? && KindMatches(address.pool, spec)
    requires forall i :: 0 <= i < |inUse| ==> inUse[i].pool.kind == address.pool.kind
    ensures InSpec(spec, Allocate(spec, address, inUse).value)
    ensures forall i :: 0 <= i < |inUse| ==> Apart(inUse[i], Allocate(spec, address, inUse).value)
  {
    AllocateMeans(spec, address, inUse);
    var b := Allocate(spec, address, inUse).value;
    if spec.PrefixSpec? {
      OfferedIsPermitted(spec.px, b);
    }
    forall i | 0 <= i < |inUse|
      ensures Apart(inUse[i], b)
    {
      FilledInIsApart(spec, address, inUse, b, i);
    }
  }

  lemma OfferedIsPermitted(px: PrefixPoolSpec, b: IPAddress)
    requires WellFormed(px) && b.address.Single? && Offered(px, b.address.a) && b.prefix == Some(Length(px))
    ensures PrefixPoolStatus.Permitted(px, b)
    ensures forall x: nat :: InBlockOf(b, x) <==> InBlock(b.address.a, Length(px), x)
  {
    var p := Prefix(b.address.a, Length(px));
    AlignedIffDivisible(p.addr, HostBits(p));
    MaskedRange(p);
    assert BlockStart(p.addr, HostBits(p)) == p.addr;
    forall x: nat
      ensures InBlockOf(b, x) <==> InBlock(p.addr, Length(px), x)
    {
      RangeIsSameBits(p, x);
    }
  }

  lemma FilledInIsApart(spec: PoolSpec, address: IPAddress, inUse: seq<IPAddress>, b: IPAddress, i: nat)
    requires WellFormedInput(spec, inUse) && FilledIn(spec, address, inUse, b) && KindMatches(b.pool, spec)
    requires i < |inUse| && inUse[i].pool.kind == b.pool.kind
    ensures Apart(inUse[i], b)
  {
    FootprintMeans(inUse[i]);
    FootprintMeans(b);
    ApartMeans(inUse[i], b);
    match spec
    case IPSpec(ip) => HeldIsApart(ip, inUse, b, i);
    case PrefixSpec(px) => BlockIsApart(px, inUse, b, i);
  }

  lemma HeldIsApart(ip: IPPoolSpec, inUse: seq<IPAddress>, b: IPAddress, i: nat)
    requires Buildable(ip) && b.address.Single? && Available(IPSpec(ip), inUse, b.address.a)
    requires i < |inUse| && inUse[i].pool.kind == b.pool.kind == AddressPool
    ensures Footprint(b).Some? && NoneShared(inUse[i], b)
  {
    BuildableMeans(ip);
    AddressRequirements.PoolMeans(ip, b.address.a);
    HasBound(PoolSpecToIPSetSpec(ip).value, b.address.a);
  }

  lemma BlockIsApart(px: PrefixPoolSpec, inUse: seq<IPAddress>, b: IPAddress, i: nat)
    requires WellFormed(px) && b.address.Single? && Available(PrefixSpec(px), inUse, b.address.a)
    requires b.prefix == Some(Length(px)) && i < |inUse| && inUse[i].pool.kind == b.pool.kind == PrefixPool
    ensures Footprint(b).Some? && NoneShared(inUse[i], b)
  {
    OfferedIsPermitted(px, b);
    FootprintMeans(b);
    forall x: nat | Holds(b, x)
      ensures !Holds(inUse[i], x)
    {
      assert InBlock(b.address.a, Length(px), x);
    }
  }

  // ---------- when a claim is served ----------

  /** EnsureAddress fails to allocate exactly when the pool is exhausted or something is malformed. */
  lemma AllocatesIffServes(spec: PoolSpec, address: IPAddress, inUse: seq<IPAddress>)
    ensures Allocate(spec, address, inUse).Ok? <==> Serves(spec, inUse)
  {
    AllocateMeans(spec, address, inUse);
    assert spec.IPSpec? && Buildable(spec.ip) ==> !Panics(spec, inUse);
  }

  /** The order in which the list call returns the addresses makes no difference. */
  lemma AllocationIgnoresOrder(spec: PoolSpec, address: IPAddress, xs: seq<IPAddress>, ys: seq<IPAddress>)
    requires SameElements(xs, ys)
    ensures Allocate(spec, address, xs) == Allocate(spec, address, ys)
  {
    match spec
    case IPSpec(ip) =>
      TakenIgnoresOrder(xs, ys, ip.gateway);
      SameTakenSameAddress(ip, address, xs, ys);
    case PrefixSpec(px) =>
      CollectIgnoresOrder(xs, ys, AllocationRange);
      SameTakenSamePrefix(px, address, xs, ys);
  }

  lemma SameTakenSameAddress(ip: IPPoolSpec, address: IPAddress, xs: seq<IPAddress>, ys: seq<IPAddress>)
    requires InUseIPSet(xs, ip.gateway) == InUseIPSet(ys, ip.gateway)
    ensures Allocate(IPSpec(ip), address, xs) == Allocate(IPSpec(ip), address, ys)
  {
  }

  lemma SameTakenSamePrefix(px: PrefixPoolSpec, address: IPAddress, xs: seq<IPAddress>, ys: seq<IPAddress>)
    requires AllocationPrefixSet(xs) == AllocationPrefixSet(ys)
    ensures Allocate(PrefixSpec(px), address, xs) == Allocate(PrefixSpec(px), address, ys)
  {
  }

  lemma TakenIgnoresOrder(xs: seq<IPAddress>, ys: seq<IPAddress>, gateway: Gateway)
    requires SameElements(xs, ys)
    ensures InUseIPSet(xs, gateway) == InUseIPSet(ys, gateway)
  {
    TextsIgnoreOrder(xs, ys, gateway);
    CollectIgnoresOrder(AddressList(xs, gateway), AddressList(ys, gateway), EntryRange);
  }

  lemma TextsIgnoreOrder(xs: seq<IPAddress>, ys: seq<IPAddress>, gateway: Gateway)
    requires SameElements(xs, ys)
    ensures SameElements(AddressList(xs, gateway), AddressList(ys, gateway))
  {
    TextsAmong(xs, ys, gateway);
    TextsAmong(ys, xs, gateway);
  }

  lemma TextsAmong(xs: seq<IPAddress>, ys: seq<IPAddress>, gateway: Gateway)
    requires forall i :: 0 <= i < |xs| ==> xs[i] in ys
    ensures forall i :: 0 <= i < |AddressList(xs, gateway)| ==> AddressList(xs, gateway)[i] in AddressList(ys, gateway)
  {
    var texts, others := AddressList(xs, gateway), AddressList(ys, gateway);
    forall i | 0 <= i < |texts|
      ensures texts[i] in others
    {
      if i < |xs| {
        var j :| 0 <= j < |ys| && ys[j] == xs[i];
        assert others[j] == texts[i];
      } else {
        assert others[i - |xs| + |ys|] == texts[i];
      }
    }
  }

  // ---------- ReleaseAddress ----------

  datatype Release = ReleaseNow | RequeueAfter(delay: int)

  const SECOND: int := 1_000_000_000

  /** The grace period is over, or nothing enforces one. Time is in nanoseconds. */
  ghost predicate GraceOver(deletedAt: int, pool: Option<Pool>, now: int) {
    match pool
    case Some(Pool(IPSpec(ip), _, false)) =>
      && ip.graceSeconds.Some? && ip.graceSeconds.value > 0 ==>
           now - deletedAt >= ip.graceSeconds.value * 1_000_000_000
    case _ => true
  }

  /** A pool that is there to stay with a grace period of its own. */
  predicate Enforces(pool: Option<Pool>) {
    && pool.Some? && !pool.value.deleting && pool.value.spec.IPSpec?
    && pool.value.spec.ip.graceSeconds.Some? && pool.value.spec.ip.graceSeconds.value > 0
  }

  /**
   ReleaseAddress of both handlers. A pool that is gone or being deleted, or that has no grace period, releases
   at once; otherwise the release waits until the grace period after the claim's deletion has passed, and the delay
   is what is missing of it.
   */
  function ReleaseAddress(deletedAt: Option<int>, pool: Option<Pool>, now: int): (r: Release)
    ensures deletedAt.None? || !Enforces(pool) ==> r == ReleaseNow
    ensures deletedAt.Some? && Enforces(pool) ==>
              var missing := pool.value.spec.ip.graceSeconds.value * 1_000_000_000 - (now - deletedAt.value);
              && (r == ReleaseNow <==> missing <= 0)
              && (r != ReleaseNow ==> r == RequeueAfter(missing))
  {
    if deletedAt.None? then ReleaseNow
    else if pool.None? || pool.value.deleting then ReleaseNow
    else
      match pool.value.spec
      case PrefixSpec(_) => ReleaseNow
      case IPSpec(ip) =>
        if ip.graceSeconds.None? || ip.graceSeconds.value <= 0 then ReleaseNow
        else
          var remaining := ip.graceSeconds.value * SECOND - (now - deletedAt.value);
          if remaining > 0 then RequeueAfter(remaining) else ReleaseNow
  }

  /** The requeue time is the first moment at which the same pool releases. */
  lemma RequeuedUntilOver(deletedAt: int, pool: Option<Pool>, now: int)
    ensures var r := ReleaseAddress(Some(deletedAt), pool, now);
      && (r == ReleaseNow <==> GraceOver(deletedAt, pool, now))
      && (r.RequeueAfter? ==>
            r.delay > 0 && forall later :: GraceOver(deletedAt, pool, later) <==> later >= now + r.delay)
  {
    assert Enforces(pool) ==> pool.value == Pool(IPSpec(pool.value.spec.ip), pool.value.protect, false);
  }
}
