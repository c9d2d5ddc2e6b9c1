/**
 What the address allocator works on, read off the pool spec: the addresses that the entries name, with elementary
 arithmetic and without any of the sets that the code builds.
 */
module AddressRequirements {
  import opened Wrappers
  import opened Powers
  import opened Netip
  import opened IPSets
  import opened PrefixAllocator
  import opened AddressAllocator

  // ---------- what the spec says ----------

  /** The lowest listed address: the pool's subnet is inferred from it. */
  ghost predicate IsLowest(spec: IPPoolSpec, low: nat) {
    && CoveredBySome(spec.addresses, low)
    && forall a: nat :: CoveredBySome(spec.addresses, a) ==> low <= a
  }

  /** The first address of the subnet of `low`, and for IPv4 also its last. */
  predicate IsReserved(low: nat, bits: int, a: nat)
    requires 0 <= bits <= BitLen(low)
  {
    var size := Pow2(BitLen(low) - bits);
    && a / size == low / size
    && (a % size == 0 || (FamilyOf(low) == IPv4 && (a + 1) % size == 0))
  }

  ghost predicate ReservedByPool(spec: IPPoolSpec, a: nat) {
    exists low :: IsLowest(spec, low) && 0 <= spec.prefix <= BitLen(low) && IsReserved(low, spec.prefix, a)
  }

  /** a may be handed out: listed, not excluded, not the gateway, and not reserved unless that is allowed. */
  ghost predicate InPool(spec: IPPoolSpec, a: nat) {
    && CoveredBySome(spec.addresses, a) && !CoveredBySome(spec.excludedAddresses, a)
    && spec.gateway != Gateway.Gateway(a)
    && (spec.allocateReserved || !ReservedByPool(spec, a))
  }

  ghost predicate EntriesParse(spec: IPPoolSpec) {
    && (forall i :: 0 <= i < |spec.addresses| ==> Parses(spec.addresses[i]))
    && (forall i :: 0 <= i < |spec.excludedAddresses| ==> Parses(spec.excludedAddresses[i]))
  }

  /** Everything parses, and unless reserved addresses are allowed the prefix makes a subnet of the lowest address. */
  ghost predicate Buildable(spec: IPPoolSpec) {
    && EntriesParse(spec) && spec.gateway != BadGateway && (spec.gateway.Gateway? ==> IsAddr(spec.gateway.a))
    && (spec.allocateReserved || exists low :: IsLowest(spec, low) && 0 <= spec.prefix <= BitLen(low))
  }

  // ---------- what the code builds ----------

  /** The subnet's first listed address is the lowest one. */
  lemma FirstIsLowest(spec: IPPoolSpec, low: nat)
    requires AddressesToIPSet(spec.addresses).Some?
    ensures IsLowest(spec, low) <==>
            AddressesToIPSet(spec.addresses).value != [] && low == AddressesToIPSet(spec.addresses).value[0].from
  {
    var s := AddressesToIPSet(spec.addresses).value;
    forall a: nat
      ensures Has(s, a) <==> CoveredBySome(spec.addresses, a)
    {
      EntriesMean(spec.addresses, a);
    }
    LeastOfSet(s);
    assert Has(s, low) <==> CoveredBySome(spec.addresses, low);
    if s != [] {
      assert Has(s, s[0].from);
    }
  }

  lemma LeastOfSet(s: IPSet)
    requires Normal(s)
    ensures s != [] ==> Has(s, s[0].from) && forall a: nat :: Has(s, a) ==> s[0].from <= a
  {
    if s != [] {
      assert InRange(s[0], s[0].from);
      forall a: nat | Has(s, a)
        ensures s[0].from <= a
      {
        var i :| 0 <= i < |s| && InRange(s[i], a);
      }
    }
  }

  lemma ReservedMeans(low: nat, bits: int, a: nat)
    requires ValidPrefix(Prefix(low, bits))
    ensures var r := RangeOf(Prefix(low, bits));
      a == r.from || (FamilyOf(low) == IPv4 && a == r.to) <==> IsReserved(low, bits, a)
  {
    var h := BitLen(low) - bits;
    MaskedFacts(Prefix(low, bits));
    SameQuotient(a, low, h);
    BlockEnds(low, a, h);
  }

  /** Within a block only the first address is aligned, and only the last is followed by an aligned one. */
  lemma BlockEnds(low: nat, a: nat, h: nat)
    ensures var r, m := AlignDown(low, h), Pow2(h);
      r <= a < r + m ==> (a % m == 0 <==> a == r) && ((a + 1) % m == 0 <==> a == r + m - 1)
  {
    var r, m := AlignDown(low, h), Pow2(h);
    AlignDownAligned(low, h);
    AlignedIffDivisible(r, h);
    AlignedIffDivisible(a, h);
    AlignedIffDivisible(a + 1, h);
    AlignedPow2(h, h);
    AlignedSum(r, m, h);
    if r < a < r + m && Aligned(a, h) {
      AlignedApart(r, a, h);
    }
    if r <= a < r + m - 1 && Aligned(a + 1, h) {
      AlignedApart(r, a + 1, h);
    }
  }

  /** PoolSpecToIPSet takes out the exclusions, the reserved addresses of its one subnet, and the gateway. */
  lemma MemberMeans(spec: IPPoolSpec, a: nat)
    requires PoolSpecToIPSetSpec(spec).Ok?
    ensures AddressesToIPSet(spec.addresses).Some? && AddressesToIPSet(spec.excludedAddresses).Some?
    ensures !spec.allocateReserved ==>
              AddressesToIPSet(spec.addresses).value != []
              && ValidPrefix(Subnet(AddressesToIPSet(spec.addresses).value, spec.prefix))
    ensures Has(PoolSpecToIPSetSpec(spec).value, a) <==>
            && Has(AddressesToIPSet(spec.addresses).value, a)
            && !Has(AddressesToIPSet(spec.excludedAddresses).value, a)
            && spec.gateway != Gateway.Gateway(a)
            && (spec.allocateReserved || !IsReservedOf(Subnet(AddressesToIPSet(spec.addresses).value, spec.prefix), a))
  {
    var addresses, excluded := AddressesToIPSet(spec.addresses).value, AddressesToIPSet(spec.excludedAddresses).value;
    var usable := Subtract(Union([], addresses), excluded);
    var kept := if spec.allocateReserved then usable
                else WithoutReserved(usable, Subnet(addresses, spec.prefix)).value;
    assert Has(usable, a) <==> Has(addresses, a) && !Has(excluded, a);
    if !spec.allocateReserved {
      ReservedTaken(usable, Subnet(addresses, spec.prefix), a);
    }
    GatewayTaken(kept, spec.gateway, a);
  }

  ghost predicate IsReservedOf(subnet: Prefix, a: nat)
    requires ValidPrefix(subnet)
  {
    a == RangeOf(subnet).from || (FamilyOf(subnet.addr) == IPv4 && a == RangeOf(subnet).to)
  }

  lemma ReservedTaken(s: IPSet, subnet: Prefix, a: nat)
    requires Normal(s) && WithoutReserved(s, subnet).Some?
    ensures ValidPrefix(subnet)
    ensures Has(WithoutReserved(s, subnet).value, a) <==> Has(s, a) && !IsReservedOf(subnet, a)
  {
  }

  lemma GatewayTaken(s: IPSet, gateway: Gateway, a: nat)
    requires Normal(s) && WithoutGateway(s, gateway).Some?
    ensures Has(WithoutGateway(s, gateway).value, a) <==> Has(s, a) && gateway != Gateway.Gateway(a)
  {
  }

  // ---------- what it amounts to ----------

  /** PoolSpecToIPSet succeeds exactly for such a spec. */
  lemma BuildableMeans(spec: IPPoolSpec)
    ensures PoolSpecToIPSetSpec(spec).Ok? <==> Buildable(spec)
  {
    EntriesMean(spec.addresses, 0);
    EntriesMean(spec.excludedAddresses, 0);
    if AddressesToIPSet(spec.addresses).Some? {
      SubnetMeans(spec);
    }
  }

  lemma SubnetMeans(spec: IPPoolSpec)
    requires AddressesToIPSet(spec.addresses).Some?
    ensures (exists low :: IsLowest(spec, low) && 0 <= spec.prefix <= BitLen(low)) <==>
            AddressesToIPSet(spec.addresses).value != []
            && ValidPrefix(Subnet(AddressesToIPSet(spec.addresses).value, spec.prefix))
  {
    var s := AddressesToIPSet(spec.addresses).value;
    forall low: nat
      ensures IsLowest(spec, low) <==> s != [] && low == s[0].from
    {
      FirstIsLowest(spec, low);
    }
    if s != [] {
      assert ValidRange(s[0]);
      assert IsLowest(spec, s[0].from);
    }
  }

  /** It indexes an empty set exactly when all parses, nothing is listed and reserved addresses are to be taken out. */
  lemma PanicMeans(spec: IPPoolSpec)
    ensures PoolSpecToIPSetSpec(spec) == Panic <==>
            EntriesParse(spec) && spec.addresses == [] && !spec.allocateReserved
  {
    EntriesMean(spec.addresses, 0);
    EntriesMean(spec.excludedAddresses, 0);
    if AddressesToIPSet(spec.addresses).Some? && spec.addresses != [] {
      var r := EntryRange(spec.addresses[0]).value;
      EntryRangeValid(spec.addresses[0]);
      CollectHas(spec.addresses, EntryRange, r.from);
      assert InRange(EntryRange(spec.addresses[0]).value, r.from);
    }
  }

  /** And then it holds exactly the addresses that may be handed out. */
  lemma PoolMeans(spec: IPPoolSpec, a: nat)
    requires PoolSpecToIPSetSpec(spec).Ok?
    ensures Has(PoolSpecToIPSetSpec(spec).value, a) <==> InPool(spec, a)
  {
    MemberMeans(spec, a);
    EntriesMean(spec.addresses, a);
    EntriesMean(spec.excludedAddresses, a);
    if !spec.allocateReserved {
      ReservedByPoolMeans(spec, a);
    }
  }

  lemma ReservedByPoolMeans(spec: IPPoolSpec, a: nat)
    requires AddressesToIPSet(spec.addresses).Some? && AddressesToIPSet(spec.addresses).value != []
    requires ValidPrefix(Subnet(AddressesToIPSet(spec.addresses).value, spec.prefix))
    ensures IsReservedOf(Subnet(AddressesToIPSet(spec.addresses).value, spec.prefix), a) <==> ReservedByPool(spec, a)
  {
    var first := AddressesToIPSet(spec.addresses).value[0].from;
    forall low: nat
      ensures IsLowest(spec, low) <==> low == first
    {
      FirstIsLowest(spec, low);
    }
    ReservedMeans(first, spec.prefix, a);
  }
}
