/** Admission and status of IP pools (internal/webhooks/inclusterippool.go, internal/controllers/inclusterippool.go). */
module AddressPools {
  import opened Wrappers
  import opened Powers
  import opened Netip
  import opened IPSets
  import opened Trie
  import opened Api
  import opened PrefixAllocator
  import opened AddressAllocator
  import opened AddressRequirements

  // ---------- validate ----------

  datatype FieldError =
    | AddressesRequired
    | PrefixNegative
    | AddressInvalid(index: nat)
    | AddressesMixed
    | GatewayUnparsable
    | GatewayMixed
    | ExcludedInvalid(index: nat)
    | ExcludedMixed
    | AddressesAndExcludedMixed
    | GraceNegative
    | PrefixInvalid
    | OutsideSubnet(index: nat)

  /** Which families the parsable entries of a list belong to. */
  ghost predicate HasFamily(entries: seq<Entry>, f: Family) {
    exists i :: 0 <= i < |entries| && EntryRange(entries[i]).Some? && FamilyOf(EntryRange(entries[i]).value.from) == f
  }

  ghost predicate AllParse(entries: seq<Entry>) {
    forall i :: 0 <= i < |entries| ==> EntryRange(entries[i]).Some?
  }

  ghost predicate SubnetOk(spec: IPPoolSpec) {
    && AddressesToIPSet(spec.addresses).Some?
    && AddressesToIPSet(spec.addresses).value != []
    && var subnet := Subnet(AddressesToIPSet(spec.addresses).value, spec.prefix);
       && ValidPrefix(subnet)
       && forall i :: 0 <= i < |spec.addresses| ==>
            EntryRange(spec.addresses[i]).Some? && Within(EntryRange(spec.addresses[i]).value, RangeOf(subnet))
  }

  ghost predicate GatewayOk(spec: IPPoolSpec) {
    match spec.gateway
    case NoGateway => true
    case BadGateway => false
    case Gateway(a) => IsAddr(a) && !HasFamily(spec.addresses, if FamilyOf(a) == IPv4 then IPv6 else IPv4)
  }

  ghost predicate FieldsOk(spec: IPPoolSpec) {
    && spec.addresses != [] && spec.prefix >= 0
    && AllParse(spec.addresses) && AllParse(spec.excludedAddresses)
    && !(HasFamily(spec.addresses, IPv4) && HasFamily(spec.addresses, IPv6))
    && !(HasFamily(spec.excludedAddresses, IPv4) && HasFamily(spec.excludedAddresses, IPv6))
    && !(HasFamily(spec.addresses, IPv4) && HasFamily(spec.excludedAddresses, IPv6))
    && !(HasFamily(spec.addresses, IPv6) && HasFamily(spec.excludedAddresses, IPv4))
    && GatewayOk(spec)
    && (spec.graceSeconds.Some? ==> spec.graceSeconds.value >= 0)
  }

  ghost predicate Acceptable(spec: IPPoolSpec) {
    FieldsOk(spec) && SubnetOk(spec)
  }

  /** The loop both lists go through: flags for the families seen and a complaint per entry that does not parse. */
  method ScanEntries(entries: seq<Entry>) returns (hasIPv4: bool, hasIPv6: bool, bad: seq<nat>)
    ensures hasIPv4 <==> HasFamily(entries, IPv4)
    ensures hasIPv6 <==> HasFamily(entries, IPv6)
    ensures bad == [] <==> AllParse(entries)
  {
    hasIPv4, hasIPv6, bad := false, false, [];
    var n := 0;
    while n < |entries|
      invariant 0 <= n <= |entries|
      invariant hasIPv4 <==> HasFamily(entries[..n], IPv4)
      invariant hasIPv6 <==> HasFamily(entries[..n], IPv6)
      invariant bad == [] <==> AllParse(entries[..n])
    {
      FamilyNext(entries, n, IPv4);
      FamilyNext(entries, n, IPv6);
      assert AllParse(entries[..n + 1]) <==> AllParse(entries[..n]) && EntryRange(entries[n]).Some? by {
        assert forall i :: 0 <= i < n ==> entries[..n][i] == entries[..n + 1][i];
        assert entries[..n + 1][n] == entries[n];
      }
      var range := EntryRange(entries[n]);
      if range.None? {
        bad := bad + [n];
      } else {
        hasIPv4 := hasIPv4 || FamilyOf(range.value.from) == IPv4;
        hasIPv6 := hasIPv6 || FamilyOf(range.value.from) == IPv6;
      }
      n := n + 1;
    }
    assert entries[..n] == entries;
  }

  lemma FamilyNext(entries: seq<Entry>, n: nat, f: Family)
    requires n < |entries|
    ensures HasFamily(entries[..n + 1], f) <==>
            || HasFamily(entries[..n], f)
            || (EntryRange(entries[n]).Some? && FamilyOf(EntryRange(entries[n]).value.from) == f)
  {
    var front, more := entries[..n], entries[..n + 1];
    assert forall i :: 0 <= i < n ==> front[i] == more[i];
    assert more[n] == entries[n];
  }

  /** What validation accepts, from the spec: one family, one subnet, all text well-formed. */
  ghost predicate Admissible(spec: IPPoolSpec) {
    && spec.addresses != [] && EntriesParse(spec)
    && (exists f: Family :: AllOfFamily(spec, f))
    && (forall a: nat, b: nat :: CoveredBySome(spec.addresses, a) && CoveredBySome(spec.addresses, b) ==>
          InSubnetOf(spec, a, b))
    && (spec.graceSeconds.Some? ==> spec.graceSeconds.value >= 0)
  }

  ghost predicate AllOfFamily(spec: IPPoolSpec, f: Family) {
    && (forall i :: 0 <= i < |spec.addresses| ==> OnlyFamily(spec.addresses[i], f))
    && (forall i :: 0 <= i < |spec.excludedAddresses| ==> OnlyFamily(spec.excludedAddresses[i], f))
    && spec.gateway != BadGateway
    && (spec.gateway.Gateway? ==> IsAddr(spec.gateway.a) && FamilyOf(spec.gateway.a) == f)
  }

  predicate InSubnetOf(spec: IPPoolSpec, a: nat, b: nat) {
    0 <= spec.prefix <= BitLen(a) && SameBits(a, b, spec.prefix)
  }

  lemma AllParseMeans(entries: seq<Entry>)
    ensures AllParse(entries) <==> forall i :: 0 <= i < |entries| ==> Parses(entries[i])
  {
    forall i | 0 <= i < |entries|
      ensures EntryRange(entries[i]).Some? <==> Parses(entries[i])
    {
      EntryRangeMeans(entries[i]);
    }
  }

  /** When everything parses, a list without one family is all of the other. */
  lemma OtherFamily(entries: seq<Entry>, f: Family, g: Family)
    requires f != g && AllParse(entries)
    ensures !HasFamily(entries, g) <==> forall i :: 0 <= i < |entries| ==> OnlyFamily(entries[i], f)
  {
    forall i | 0 <= i < |entries|
      ensures OnlyFamily(entries[i], f) <==> FamilyOf(EntryRange(entries[i]).value.from) == f
    {
      OnlyFamilyMeans(entries[i], f);
    }
  }

  lemma FieldsMean(spec: IPPoolSpec)
    ensures FieldsOk(spec) <==>
            && spec.addresses != [] && spec.prefix >= 0 && EntriesParse(spec)
            && (exists f: Family :: AllOfFamily(spec, f))
            && (spec.graceSeconds.Some? ==> spec.graceSeconds.value >= 0)
  {
    AllParseMeans(spec.addresses);
    AllParseMeans(spec.excludedAddresses);
    if EntriesParse(spec) && spec.addresses != [] {
      FamiliesMean(spec, IPv4, IPv6);
      FamiliesMean(spec, IPv6, IPv4);
    }
  }

  lemma FamiliesMean(spec: IPPoolSpec, f: Family, g: Family)
    requires f != g && AllParse(spec.addresses) && AllParse(spec.excludedAddresses) && spec.addresses != []
    ensures HasFamily(spec.addresses, f) || HasFamily(spec.addresses, g)
    ensures AllOfFamily(spec, f) <==>
            && !HasFamily(spec.addresses, g) && !HasFamily(spec.excludedAddresses, g)
            && spec.gateway != BadGateway
            && (spec.gateway.Gateway? ==> IsAddr(spec.gateway.a) && FamilyOf(spec.gateway.a) == f)
  {
    OtherFamily(spec.addresses, f, g);
    OtherFamily(spec.excludedAddresses, f, g);
    assert EntryRange(spec.addresses[0]).Some?;
  }

  lemma AcceptableMeans(spec: IPPoolSpec)
    ensures Acceptable(spec) <==> Admissible(spec)
  {
    FieldsMean(spec);
    if FieldsOk(spec) {
      SubnetOkMeans(spec);
    } else if Admissible(spec) {
      var a := NamesSome(spec.addresses[0]);
      assert CoveredBySome(spec.addresses, a);
    }
  }

  lemma NamesSome(e: Entry) returns (a: nat)
    requires Parses(e)
    ensures Covers(e, a)
  {
    EntryRangeMeans(e);
    EntryRangeValid(e);
    a := EntryRange(e).value.from;
  }

  lemma SubnetOkMeans(spec: IPPoolSpec)
    requires FieldsOk(spec)
    ensures SubnetOk(spec) <==>
            forall a: nat, b: nat :: CoveredBySome(spec.addresses, a) && CoveredBySome(spec.addresses, b) ==>
              InSubnetOf(spec, a, b)
  {
    ParsedSet(spec.addresses);
    if SubnetOk(spec) {
      forall a: nat, b: nat | CoveredBySome(spec.addresses, a) && CoveredBySome(spec.addresses, b)
        ensures InSubnetOf(spec, a, b)
      {
        SharesSubnet(spec, a, b);
      }
    }
    if forall a: nat, b: nat :: CoveredBySome(spec.addresses, a) && CoveredBySome(spec.addresses, b) ==>
                                  InSubnetOf(spec, a, b) {
      OneSubnet(spec);
    }
  }

  lemma SharesSubnet(spec: IPPoolSpec, a: nat, b: nat)
    requires Acceptable(spec) && CoveredBySome(spec.addresses, a) && CoveredBySome(spec.addresses, b)
    ensures InSubnetOf(spec, a, b)
  {
    CoveredIsListed(spec.addresses, a);
    CoveredIsListed(spec.addresses, b);
    SubnetFromAnyAddress(spec, a);
    SubnetFromAnyAddress(spec, b);
    RangeIsSameBits(Prefix(a, spec.prefix), b);
  }

  lemma CoveredIsListed(entries: seq<Entry>, a: nat)
    requires AllParse(entries) && CoveredBySome(entries, a)
    ensures Listed(entries, EntryRange, a)
  {
    var i :| 0 <= i < |entries| && Parses(entries[i]) && Covers(entries[i], a);
    EntryRangeMeans(entries[i]);
    assert InRange(EntryRange(entries[i]).value, a);
  }

  lemma OneSubnet(spec: IPPoolSpec)
    requires AllParse(spec.addresses)
    requires AddressesToIPSet(spec.addresses).Some? && AddressesToIPSet(spec.addresses).value != []
    requires forall a: nat, b: nat :: CoveredBySome(spec.addresses, a) && CoveredBySome(spec.addresses, b) ==>
                                        InSubnetOf(spec, a, b)
    ensures SubnetOk(spec)
  {
    var s := AddressesToIPSet(spec.addresses).value;
    var low := s[0].from;
    LeastOfSet(s);
    EntriesMean(spec.addresses, low);
    assert InSubnetOf(spec, low, low);
    forall i | 0 <= i < |spec.addresses|
      ensures EntryRange(spec.addresses[i]).Some?
      ensures Within(EntryRange(spec.addresses[i]).value, RangeOf(Prefix(low, spec.prefix)))
    {
      EntryInSubnet(spec, low, i);
    }
  }

  lemma EntryInSubnet(spec: IPPoolSpec, low: nat, i: nat)
    requires i < |spec.addresses| && EntryRange(spec.addresses[i]).Some? && IsAddr(low)
    requires 0 <= spec.prefix <= BitLen(low)
    requires forall b: nat :: CoveredBySome(spec.addresses, b) ==> InSubnetOf(spec, low, b)
    ensures Within(EntryRange(spec.addresses[i]).value, RangeOf(Prefix(low, spec.prefix)))
  {
    var r := EntryRange(spec.addresses[i]).value;
    EntryRangeMeans(spec.addresses[i]);
    EntryRangeValid(spec.addresses[i]);
    assert InRange(r, r.from) && InRange(r, r.to);
    assert CoveredBySome(spec.addresses, r.from) && CoveredBySome(spec.addresses, r.to);
    RangeIsSameBits(Prefix(low, spec.prefix), r.from);
    RangeIsSameBits(Prefix(low, spec.prefix), r.to);
  }

  method Validate(spec: IPPoolSpec) returns (errs: seq<FieldError>)
    ensures errs == [] <==> Acceptable(spec)
    ensures errs == [] <==> Admissible(spec)
  {
    AcceptableMeans(spec);
    errs := [];
    if |spec.addresses| == 0 {
      errs := errs + [AddressesRequired];
    }
    if spec.prefix < 0 {
      errs := errs + [PrefixNegative];
    }
    var hasIPv4, hasIPv6, bad := ScanEntries(spec.addresses);
    errs := errs + seq(|bad|, i requires 0 <= i < |bad| => AddressInvalid(bad[i]));
    if hasIPv4 && hasIPv6 {
      errs := errs + [AddressesMixed];
    }
    match spec.gateway {
      case NoGateway =>
      case BadGateway => errs := errs + [GatewayUnparsable];
      case Gateway(a) =>
        if !IsAddr(a) {
          errs := errs + [GatewayUnparsable];
        } else if (FamilyOf(a) == IPv6 && hasIPv4) || (FamilyOf(a) == IPv4 && hasIPv6) {
          errs := errs + [GatewayMixed];
        }
    }
    var excludedIPv4, excludedIPv6, badExcluded := ScanEntries(spec.excludedAddresses);
    errs := errs + seq(|badExcluded|, i requires 0 <= i < |badExcluded| => ExcludedInvalid(badExcluded[i]));
    if excludedIPv4 && excludedIPv6 {
      errs := errs + [ExcludedMixed];
    }
    if (hasIPv4 && excludedIPv6) || (hasIPv6 && excludedIPv4) {
      errs := errs + [AddressesAndExcludedMixed];
    }
    if spec.graceSeconds.Some? && spec.graceSeconds.value < 0 {
      errs := errs + [GraceNegative];
    }
    assert errs == [] <==> FieldsOk(spec);
    if |errs| == 0 {
      ParsedSet(spec.addresses);
      errs := ValidateAddressesAreWithinPrefix(spec);
    }
  }

  lemma ParsedSet(entries: seq<Entry>)
    requires AllParse(entries)
    ensures AddressesToIPSet(entries).Some?
    ensures entries != [] ==> AddressesToIPSet(entries).value != []
  {
    forall i | 0 <= i < |entries|
      ensures ValidRange(EntryRange(entries[i]).value)
    {
      EntryRangeValid(entries[i]);
    }
    if entries != [] {
      var r := EntryRange(entries[0]).value;
      CollectHas(entries, EntryRange, r.from);
      assert InRange(EntryRange(entries[0]).value, r.from);
      assert Has(AddressesToIPSet(entries).value, r.from);
    }
  }

  method ValidateAddressesAreWithinPrefix(spec: IPPoolSpec) returns (errs: seq<FieldError>)
    requires FieldsOk(spec) && AddressesToIPSet(spec.addresses).Some? && AddressesToIPSet(spec.addresses).value != []
    ensures errs == [] <==> SubnetOk(spec)
  {
    errs := [];
    var addresses := BuildAddressSet(spec.addresses);
    var subnet := Subnet(addresses.value, spec.prefix);
    if !ValidPrefix(subnet) {
      return [PrefixInvalid];
    }
    var builder := new IPSetBuilder();
    builder.AddPrefix(subnet);
    var prefixSet := builder.IPSet();
    SingleRange(RangeOf(subnet));
    var n := 0;
    while n < |spec.addresses|
      invariant 0 <= n <= |spec.addresses|
      invariant errs == [] <==>
        forall i :: 0 <= i < n ==> Within(EntryRange(spec.addresses[i]).value, RangeOf(subnet))
    {
      var range := EntryRange(spec.addresses[n]);
      if !Contains(prefixSet.value, range.value) {
        errs := errs + [OutsideSubnet(n)];
      }
      n := n + 1;
    }
  }

  lemma SingleRange(r: Range)
    requires ValidRange(r)
    ensures forall q :: Contains(Insert([], r), q) <==> Within(q, r)
  {
    assert Insert([], r) == [r];
    forall q
      ensures Contains([r], q) <==> Within(q, r)
    {
      assert Contains([r], q) <==> Within(q, [r][0]);
    }
  }

  // ---------- what an accepted spec means ----------

  /** The subnet is the same whichever listed address it is inferred from. */
  lemma SubnetFromAnyAddress(spec: IPPoolSpec, a: nat)
    requires Acceptable(spec) && AllParse(spec.addresses) && Listed(spec.addresses, EntryRange, a)
    ensures var subnet := Subnet(AddressesToIPSet(spec.addresses).value, spec.prefix);
      && ValidPrefix(Prefix(a, spec.prefix)) && Masked(Prefix(a, spec.prefix)) == Masked(subnet)
      && RangeOf(Prefix(a, spec.prefix)) == RangeOf(subnet)
  {
    var subnet := Subnet(AddressesToIPSet(spec.addresses).value, spec.prefix);
    var i :| 0 <= i < |spec.addresses| && InRange(EntryRange(spec.addresses[i]).value, a);
    assert Within(EntryRange(spec.addresses[i]).value, RangeOf(subnet));
    SameBlock(subnet, a);
  }

  lemma SameBlock(p: Prefix, a: nat)
    requires ValidPrefix(p) && InRange(RangeOf(p), a)
    ensures ValidPrefix(Prefix(a, p.bits)) && Masked(Prefix(a, p.bits)) == Masked(p)
    ensures RangeOf(Prefix(a, p.bits)) == RangeOf(p)
  {
    MaskedFacts(p);
    var m := Masked(p);
    assert ValidRange(RangeOf(p));
    assert IsAddr(a) && FamilyOf(a) == FamilyOf(p.addr);
    AlignDownUnique(a, m.addr, HostBits(p));
    assert AlignDown(a, HostBits(Prefix(a, p.bits))) == AlignDown(p.addr, HostBits(p));
  }

  /** a may be handed out under an accepted spec: in it network and broadcast addresses are those of a's own subnet. */
  ghost predicate Usable(spec: IPPoolSpec, a: nat) {
    && CoveredBySome(spec.addresses, a) && !CoveredBySome(spec.excludedAddresses, a)
    && spec.gateway != Gateway.Gateway(a)
    && (!spec.allocateReserved ==> 0 <= spec.prefix <= BitLen(a) && !IsReserved(a, spec.prefix, a))
  }

  /**
   For an accepted spec PoolSpecToIPSet neither fails nor indexes an empty set, and holds exactly the addresses that
   the entries name without the excluded ones, the gateway and, unless allowed, the reserved ones.
   */
  lemma AcceptedSpecIsExact(spec: IPPoolSpec)
    requires Acceptable(spec)
    ensures PoolSpecToIPSetSpec(spec).Ok?
    ensures forall a: nat :: Has(PoolSpecToIPSetSpec(spec).value, a) <==> Usable(spec, a)
  {
    ParsedSet(spec.excludedAddresses);
    forall a: nat
      ensures Has(PoolSpecToIPSetSpec(spec).value, a) <==> Usable(spec, a)
    {
      MemberIffUsable(spec, a);
    }
  }

  lemma MemberIffUsable(spec: IPPoolSpec, a: nat)
    requires Acceptable(spec) && PoolSpecToIPSetSpec(spec).Ok?
    ensures Has(PoolSpecToIPSetSpec(spec).value, a) <==> Usable(spec, a)
  {
    MemberMeans(spec, a);
    EntriesMean(spec.addresses, a);
    EntriesMean(spec.excludedAddresses, a);
    CollectHas(spec.addresses, EntryRange, a);
    if CoveredBySome(spec.addresses, a) {
      SubnetFromAnyAddress(spec, a);
      ReservedMeans(a, spec.prefix, a);
    }
  }

  // ---------- updates ----------

  ghost predicate UpdateAccepted(newSpec: IPPoolSpec, inUse: seq<IPAddress>) {
    && Acceptable(newSpec) && PoolSpecToIPSetSpec(newSpec).Ok?
    && forall a: nat :: UsedBy(inUse, a) ==> Has(PoolSpecToIPSetSpec(newSpec).value, a)
  }

  /** An update passes when the new spec is admissible and may still hand out every address that an object records. */
  ghost predicate UpdateAdmissible(newSpec: IPPoolSpec, inUse: seq<IPAddress>) {
    Admissible(newSpec) && forall a: nat :: UsedBy(inUse, a) ==> Usable(newSpec, a)
  }

  lemma UpdateMeans(newSpec: IPPoolSpec, inUse: seq<IPAddress>)
    ensures UpdateAccepted(newSpec, inUse) <==> UpdateAdmissible(newSpec, inUse)
  {
    AcceptableMeans(newSpec);
    if Acceptable(newSpec) {
      AcceptedSpecIsExact(newSpec);
    }
  }

  /** ValidateUpdate, given the addresses that the list call returned. Text that is no address is passed over. */
  method ValidateUpdate(newSpec: IPPoolSpec, inUse: seq<IPAddress>) returns (ok: bool)
    ensures ok <==> UpdateAccepted(newSpec, inUse)
    ensures ok <==> UpdateAdmissible(newSpec, inUse)
  {
    UpdateMeans(newSpec, inUse);
    var errs := Validate(newSpec);
    if errs != [] {
      return false;
    }
    var pool := PoolSpecToIPSet(newSpec);
    if !pool.Ok? {
      return false;
    }
    var outOfRange := AddressesOutOfRangeIPSet(inUse, pool.value);
    EmptyIffNoMember(outOfRange);
    return |outOfRange| == 0;
  }

  lemma EmptyIffNoMember(s: IPSet)
    requires Normal(s)
    ensures s == [] <==> forall a: nat :: !Has(s, a)
  {
    if s != [] {
      assert ValidRange(s[0]) && InRange(s[0], s[0].from);
      assert Has(s, s[0].from);
    }
  }

  // ---------- status ----------

  datatype Status = Status(total: int, used: int, free: int, outOfRange: nat)

  class IPPool {
    const spec: IPPoolSpec
    var protect: bool
    var deleting: bool
    var status: Option<Status>

    constructor (spec: IPPoolSpec)
      ensures this.spec == spec && !protect && !deleting && status == None
    {
      this.spec := spec;
      protect, deleting, status := false, false, None;
    }
  }

  /** The gateway has already left the set, so the correction of the total in genericReconcile never fires. */
  lemma GatewayNeverInPool(spec: IPPoolSpec, a: nat)
    requires PoolSpecToIPSetSpec(spec).Ok? && spec.gateway == Gateway.Gateway(a)
    ensures !Has(PoolSpecToIPSetSpec(spec).value, a)
  {
  }

  ghost predicate StatusFor(spec: IPPoolSpec, addresses: seq<IPAddress>, status: Status)
    requires PoolSpecToIPSetSpec(spec).Ok?
  {
    var pool := PoolSpecToIPSetSpec(spec).value;
    && status.total == Capped(|Addrs(pool)|)
    && status.used == |addresses|
    && status.free == status.total - status.used
    && status.outOfRange == Capped(|UsedOutside(addresses, pool)|)
  }

  // ---------- the status, from the spec ----------

  ghost function PoolAddrs(spec: IPPoolSpec): set<nat> {
    set a: nat | a < ADDR_BOUND && InPool(spec, a)
  }

  /** The addresses that some object records although the pool does not hold them. */
  ghost function Strays(spec: IPPoolSpec, addresses: seq<IPAddress>): set<nat> {
    set a: nat | a < ADDR_BOUND && UsedBy(addresses, a) && !InPool(spec, a)
  }

  /** Every field of the status: what the pool holds, what is listed, the difference, and the strays. */
  ghost predicate Reports(spec: IPPoolSpec, addresses: seq<IPAddress>, status: Status) {
    var held, strays := |PoolAddrs(spec)|, |Strays(spec, addresses)|;
    && status.total == (if held <= 0x7FFF_FFFF_FFFF_FFFF then held else 0x7FFF_FFFF_FFFF_FFFF)
    && status.used == |addresses|
    && status.free == status.total - status.used
    && status.outOfRange == (if strays <= 0x7FFF_FFFF_FFFF_FFFF then strays else 0x7FFF_FFFF_FFFF_FFFF)
  }

  lemma StatusMeans(spec: IPPoolSpec, addresses: seq<IPAddress>, status: Status)
    requires PoolSpecToIPSetSpec(spec).Ok?
    ensures StatusFor(spec, addresses, status) <==> Reports(spec, addresses, status)
  {
    var pool := PoolSpecToIPSetSpec(spec).value;
    forall a: nat
      ensures Has(pool, a) <==> InPool(spec, a)
    {
      PoolMeans(spec, a);
    }
    SameSets(spec, addresses, pool);
  }

  lemma SameSets(spec: IPPoolSpec, addresses: seq<IPAddress>, pool: IPSet)
    requires Normal(pool) && forall a: nat :: Has(pool, a) <==> InPool(spec, a)
    ensures Addrs(pool) == PoolAddrs(spec) && UsedOutside(addresses, pool) == Strays(spec, addresses)
  {
  }

  /** genericReconcile, given the addresses that the list call returned. */
  method GenericReconcile(pool: IPPool, addressesInUse: seq<IPAddress>) returns (r: Result<bool>)
    modifies pool
    ensures pool.deleting == old(pool.deleting)
    ensures pool.protect == !(pool.deleting && |addressesInUse| == 0)
    ensures r.Ok? <==> pool.deleting || Buildable(pool.spec)
    ensures var spec := pool.spec;
            r == Panic <==> !pool.deleting && EntriesParse(spec) && spec.addresses == [] && !spec.allocateReserved
    ensures pool.deleting || !r.Ok? ==> pool.status == old(pool.status)
    ensures !pool.deleting && r.Ok? ==>
              && PoolSpecToIPSetSpec(pool.spec).Ok? && pool.status.Some?
              && StatusFor(pool.spec, addressesInUse, pool.status.value)
              && Reports(pool.spec, addressesInUse, pool.status.value)
  {
    BuildableMeans(pool.spec);
    PanicMeans(pool.spec);
    var inUseCount := |addressesInUse|;
    if !pool.protect {
      pool.protect := true;
    }
    if pool.deleting {
      if inUseCount == 0 {
        pool.protect := false;
      }
      return Ok(true);
    }
    var poolIPSet := PoolSpecToIPSet(pool.spec);
    if !poolIPSet.Ok? {
      return if poolIPSet == Panic then Panic else Err(BadConfig);
    }
    var poolCount: int := IPSetCount(poolIPSet.value);
    if pool.spec.gateway.Gateway? {
      ContainsAddrIffHas(poolIPSet.value, pool.spec.gateway.a);
      GatewayNeverInPool(pool.spec, pool.spec.gateway.a);
      if ContainsAddr(poolIPSet.value, pool.spec.gateway.a) {
        poolCount := poolCount - 1;
      }
    }
    var free := poolCount - inUseCount;
    var outOfRangeSet := AddressesOutOfRangeIPSet(addressesInUse, poolIPSet.value);
    var outOfRange := IPSetCount(outOfRangeSet);
    OutOfRangeAddrs(addressesInUse, poolIPSet.value, outOfRangeSet);
    pool.status := Some(Status(poolCount, inUseCount, free, outOfRange));
    StatusMeans(pool.spec, addressesInUse, pool.status.value);
    return Ok(true);
  }

  lemma OutOfRangeAddrs(addresses: seq<IPAddress>, pool: IPSet, outside: IPSet)
    requires forall a: nat :: Has(outside, a) <==> !Has(pool, a) && UsedBy(addresses, a)
    ensures Addrs(outside) == UsedOutside(addresses, pool)
  {
  }

  /** The pool addresses that are not in use. */
  ghost function FreeAddrs(pool: IPSet, inUse: IPSet): set<nat> {
    Addrs(pool) - Addrs(inUse)
  }

  /** Every address in use holds one parsable address, as EnsureAddress records them. */
  ghost predicate AllSingle(addresses: seq<IPAddress>) {
    forall i :: 0 <= i < |addresses| ==> ParsedAddr(addresses[i]).Some?
  }

  ghost function AddrsOf(addresses: seq<IPAddress>): (s: set<nat>)
    requires AllSingle(addresses)
    ensures |s| <= |addresses|
    ensures DistinctAddrs(addresses) ==> |s| == |addresses|
    ensures forall a :: a in s <==> UsedBy(addresses, a)
    decreases |addresses|
  {
    if addresses == [] then {}
    else
      var last := |addresses| - 1;
      var front := addresses[..last];
      assert forall i :: 0 <= i < last ==> front[i] == addresses[i];
      UsedByNext(addresses, last);
      assert addresses[..last + 1] == addresses;
      AddrsOf(front) + {ParsedAddr(addresses[last]).value}
  }

  ghost predicate DistinctAddrs(addresses: seq<IPAddress>) {
    forall i, j :: 0 <= i < j < |addresses| ==> ParsedAddr(addresses[i]) != ParsedAddr(addresses[j])
  }

  lemma SingleInUse(addresses: seq<IPAddress>, gateway: Gateway)
    requires AllSingle(addresses) && gateway != BadGateway && (gateway.Gateway? ==> IsAddr(gateway.a))
    ensures InUseIPSet(addresses, gateway).Some?
    ensures forall a: nat :: Has(InUseIPSet(addresses, gateway).value, a) <==>
                             UsedBy(addresses, a) || gateway == Gateway.Gateway(a)
  {
    var texts := AddressList(addresses, gateway);
    forall i | 0 <= i < |texts|
      ensures EntryRange(texts[i]).Some? && ValidRange(EntryRange(texts[i]).value)
    {
      if i < |addresses| {
        assert texts[i] == addresses[i].address && ParsedAddr(addresses[i]).Some?;
      }
    }
    var s := InUseIPSet(addresses, gateway).value;
    forall a: nat
      ensures Has(s, a) <==> UsedBy(addresses, a) || gateway == Gateway.Gateway(a)
    {
      InUseHas(addresses, gateway, a);
      if i :| 0 <= i < |addresses| && InRange(EntryRange(addresses[i].address).value, a) {
        assert ParsedAddr(addresses[i]).Some?;
      }
    }
  }

  lemma PoolGatewayParses(spec: IPPoolSpec)
    requires PoolSpecToIPSetSpec(spec).Ok?
    ensures spec.gateway != BadGateway && (spec.gateway.Gateway? ==> IsAddr(spec.gateway.a))
  {
  }

  /** Free > 0 means FindFreeAddress succeeds, also with a capped total and with addresses out of range. */
  lemma FreeMeansAvailable(spec: IPPoolSpec, addresses: seq<IPAddress>, status: Status)
    requires PoolSpecToIPSetSpec(spec).Ok? && StatusFor(spec, addresses, status)
    requires AllSingle(addresses) && status.free > 0
    ensures InUseIPSet(addresses, spec.gateway).Some?
    ensures FindFreeAddressSpec(PoolSpecToIPSetSpec(spec).value, InUseIPSet(addresses, spec.gateway).value).Ok?
  {
    PoolGatewayParses(spec);
    SingleInUse(addresses, spec.gateway);
    var pool, inUse := PoolSpecToIPSetSpec(spec).value, InUseIPSet(addresses, spec.gateway).value;
    if FindFreeAddressSpec(pool, inUse).Err? {
      forall a | a in Addrs(pool)
        ensures a in AddrsOf(addresses)
      {
        assert !IsFree(pool, inUse, a);
        if spec.gateway == Gateway.Gateway(a) {
          GatewayNeverInPool(spec, a);
        }
      }
      SubsetSize(Addrs(pool), AddrsOf(addresses));
    }
  }

  /** The addresses in use that the pool does not hold. */
  ghost function UsedOutside(addresses: seq<IPAddress>, pool: IPSet): set<nat> {
    set a: nat | a < ADDR_BOUND && UsedBy(addresses, a) && !Has(pool, a)
  }

  /**
   What Free means for distinct addresses and a total below MaxInt: the number of free addresses less the number
   of addresses in use outside the pool. It is the number of free addresses exactly when OutOfRange is zero.
   */
  lemma FreeLessOutOfRange(spec: IPPoolSpec, addresses: seq<IPAddress>, status: Status)
    requires PoolSpecToIPSetSpec(spec).Ok? && StatusFor(spec, addresses, status)
    requires AllSingle(addresses) && DistinctAddrs(addresses) && status.total < MAX_INT
    ensures InUseIPSet(addresses, spec.gateway).Some?
    ensures var pool, inUse := PoolSpecToIPSetSpec(spec).value, InUseIPSet(addresses, spec.gateway).value;
      && status.free == |FreeAddrs(pool, inUse)| - |UsedOutside(addresses, pool)|
      && (status.free == |FreeAddrs(pool, inUse)| <==> status.outOfRange == 0)
  {
    PoolGatewayParses(spec);
    SingleInUse(addresses, spec.gateway);
    var pool, inUse := PoolSpecToIPSetSpec(spec).value, InUseIPSet(addresses, spec.gateway).value;
    UsedSplit(addresses, pool);
    forall a | a in Addrs(pool)
      ensures a in Addrs(inUse) <==> a in AddrsOf(addresses)
    {
      if spec.gateway == Gateway.Gateway(a) {
        GatewayNeverInPool(spec, a);
      }
    }
    FreeSize(addresses, pool, inUse);
  }

  /** Each pool address is free or in use. */
  lemma FreeSize(addresses: seq<IPAddress>, pool: IPSet, inUse: IPSet)
    requires AllSingle(addresses)
    requires forall a :: a in Addrs(pool) ==> (a in Addrs(inUse) <==> a in AddrsOf(addresses))
    ensures |Addrs(pool)| == |FreeAddrs(pool, inUse)| + |AddrsOf(addresses)| - |UsedOutside(addresses, pool)|
  {
    var inside := AddrsOf(addresses) - UsedOutside(addresses, pool);
    UsedSplit(addresses, pool);
    forall a | a in Addrs(pool)
      ensures a in inside <==> a in AddrsOf(addresses)
    {
      UsedSplitAt(addresses, pool, a);
    }
    assert Addrs(pool) == inside + FreeAddrs(pool, inUse) && inside * FreeAddrs(pool, inUse) == {};
  }

  /** The addresses in use are those inside the pool and those outside. */
  lemma UsedSplit(addresses: seq<IPAddress>, pool: IPSet)
    requires AllSingle(addresses)
    ensures var (used, outside) := (AddrsOf(addresses), UsedOutside(addresses, pool));
            outside <= used && used - outside <= Addrs(pool) && |used| == |used - outside| + |outside|
  {
    var used, outside := AddrsOf(addresses), UsedOutside(addresses, pool);
    forall a | a in used || a in outside
      ensures a in used && (a in outside || a in Addrs(pool))
    {
      UsedSplitAt(addresses, pool, a);
    }
    assert used == (used - outside) + outside;
  }

  lemma UsedSplitAt(addresses: seq<IPAddress>, pool: IPSet, a: nat)
    requires AllSingle(addresses)
    ensures a in UsedOutside(addresses, pool) <==> a in AddrsOf(addresses) && a !in Addrs(pool)
  {
    if a in AddrsOf(addresses) {
      UsedIsAddr(addresses, a);
    }
  }

  lemma UsedIsAddr(addresses: seq<IPAddress>, a: nat)
    requires UsedBy(addresses, a)
    ensures IsAddr(a) && a < ADDR_BOUND
  {
    FamilySize(FamilyOf(a));
  }

  // ---------- poolNoLongerEmpty ----------

  predicate PoolNoLongerEmpty(oldStatus: Option<Status>, newStatus: Option<Status>) {
    oldStatus.Some? && newStatus.Some? && oldStatus.value.free == 0 && newStatus.value.free > 0
  }

  /** A status that the reconciler reported for distinct, parsable addresses and an uncapped total. */
  ghost predicate Regular(spec: IPPoolSpec, addresses: seq<IPAddress>, status: Status) {
    && PoolSpecToIPSetSpec(spec).Ok? && StatusFor(spec, addresses, status)
    && AllSingle(addresses) && DistinctAddrs(addresses) && status.total < MAX_INT
  }

  ghost function Choice(spec: IPPoolSpec, addresses: seq<IPAddress>): Result<nat>
    requires PoolSpecToIPSetSpec(spec).Ok? && InUseIPSet(addresses, spec.gateway).Some?
  {
    FindFreeAddressSpec(PoolSpecToIPSetSpec(spec).value, InUseIPSet(addresses, spec.gateway).value)
  }

  lemma FreeIffFound(spec: IPPoolSpec, addresses: seq<IPAddress>)
    requires PoolSpecToIPSetSpec(spec).Ok? && InUseIPSet(addresses, spec.gateway).Some?
    ensures Choice(spec, addresses).Ok? <==>
            FreeAddrs(PoolSpecToIPSetSpec(spec).value, InUseIPSet(addresses, spec.gateway).value) != {}
  {
    var pool, inUse := PoolSpecToIPSetSpec(spec).value, InUseIPSet(addresses, spec.gateway).value;
    var r := FindFreeAddressSpec(pool, inUse);
    if r.Ok? {
      HasBound(pool, r.value);
      assert r.value in FreeAddrs(pool, inUse);
    }
    if a :| a in FreeAddrs(pool, inUse) {
      assert IsFree(pool, inUse, a);
    }
  }

  lemma FreeBalance(spec: IPPoolSpec, addresses: seq<IPAddress>, status: Status)
    requires Regular(spec, addresses, status)
    ensures InUseIPSet(addresses, spec.gateway).Some?
    ensures var pool, inUse := PoolSpecToIPSetSpec(spec).value, InUseIPSet(addresses, spec.gateway).value;
      && status.free == |FreeAddrs(pool, inUse)| - |UsedOutside(addresses, pool)|
      && (status.outOfRange == 0 <==> |UsedOutside(addresses, pool)| == 0)
      && (Choice(spec, addresses).Ok? <==> |FreeAddrs(pool, inUse)| > 0)
      && (Choice(spec, addresses).Err? <==> |FreeAddrs(pool, inUse)| == 0)
  {
    FreeLessOutOfRange(spec, addresses, status);
    FreeIffFound(spec, addresses);
  }

  /** The wake-up of IP pools fires when the free addresses equalled the out-of-range ones and now exceed them. */
  lemma WakesOnBalance(c: IPPoolSpec, before: seq<IPAddress>, s: Status,
                       d: IPPoolSpec, after: seq<IPAddress>, t: Status)
    requires Regular(c, before, s) && Regular(d, after, t)
    ensures InUseIPSet(before, c.gateway).Some? && InUseIPSet(after, d.gateway).Some?
    ensures PoolNoLongerEmpty(Some(s), Some(t)) <==>
            var (p, q) := (PoolSpecToIPSetSpec(c).value, PoolSpecToIPSetSpec(d).value);
            && |FreeAddrs(p, InUseIPSet(before, c.gateway).value)| == |UsedOutside(before, p)|
            && |FreeAddrs(q, InUseIPSet(after, d.gateway).value)| > |UsedOutside(after, q)|
  {
    FreeBalance(c, before, s);
    FreeBalance(d, after, t);
  }

  /** As Regular, but the total may be capped as long as the list is shorter than the cap. */
  ghost predicate Countable(spec: IPPoolSpec, addresses: seq<IPAddress>, status: Status) {
    && PoolSpecToIPSetSpec(spec).Ok? && StatusFor(spec, addresses, status)
    && AllSingle(addresses) && DistinctAddrs(addresses)
    && (status.total < MAX_INT || |addresses| < MAX_INT)
  }

  lemma FreeAgainstChoice(spec: IPPoolSpec, addresses: seq<IPAddress>, status: Status)
    requires Countable(spec, addresses, status)
    ensures InUseIPSet(addresses, spec.gateway).Some?
    ensures status.free > 0 ==> Choice(spec, addresses).Ok?
    ensures status.outOfRange == 0 ==>
              (status.free == 0 <==> Choice(spec, addresses).Err?) && (status.free > 0 <==> Choice(spec, addresses).Ok?)
    ensures status.outOfRange > 0 && Choice(spec, addresses).Err? ==> status.free < 0
  {
    if status.total < MAX_INT {
      FreeBalance(spec, addresses, status);
    } else {
      FreeMeansAvailable(spec, addresses, status);
    }
  }

  /**
   Without out-of-range addresses the wake-up is exactly the change from impossible to possible. In general such a
   change wakes somebody exactly when nothing was out of range before it and Free is positive after it.
   */
  lemma WakesWhenPossible(c: IPPoolSpec, before: seq<IPAddress>, s: Status,
                          d: IPPoolSpec, after: seq<IPAddress>, t: Status)
    requires Countable(c, before, s) && Countable(d, after, t)
    ensures InUseIPSet(before, c.gateway).Some? && InUseIPSet(after, d.gateway).Some?
    ensures s.outOfRange == 0 && t.outOfRange == 0 ==>
              (PoolNoLongerEmpty(Some(s), Some(t)) <==> Choice(c, before).Err? && Choice(d, after).Ok?)
    ensures PoolNoLongerEmpty(Some(s), Some(t)) ==> Choice(d, after).Ok?
    ensures Choice(c, before).Err? && s.outOfRange > 0 ==> !PoolNoLongerEmpty(Some(s), Some(t))
    ensures Choice(c, before).Err? && Choice(d, after).Ok? ==>
              (PoolNoLongerEmpty(Some(s), Some(t)) <==> s.outOfRange == 0 && t.free > 0)
  {
    FreeAgainstChoice(c, before, s);
    FreeAgainstChoice(d, after, t);
  }
}
