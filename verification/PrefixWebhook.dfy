/** Admission of prefix pools (internal/webhooks/inclusterprefixpool.go). */
module PrefixWebhook {
  import opened Wrappers
  import opened Powers
  import opened Netip
  import opened IPSets
  import opened Trie
  import opened Api
  import opened PrefixAllocator
  import opened PrefixGuarantees
  import opened PrefixRequirements
  import opened PrefixPoolStatus

  datatype FieldError =
    | PrefixesRequired
    | LengthOutOfBounds
    | NotACidr(index: nat)
    | NotIPv6(index: nat)
    | NotAligned(index: nat)
    | LongerThanAllocation(index: nat)
    | GatewayUnparsable
    | GatewayNotIPv6
    | ExcludedInvalid(index: nat)
    | ExcludedNotIPv6(index: nat)

  function Default(spec: PrefixPoolSpec): PrefixPoolSpec {
    spec.(allocationPrefixLength := EffectiveAllocationPrefixLength(spec.allocationPrefixLength))
  }

  /** The default changes the length field only, and nothing of what the pool offers. */
  lemma DefaultMeans(spec: PrefixPoolSpec, x: nat)
    ensures Default(spec) == spec.(allocationPrefixLength := Length(spec))
    ensures Length(Default(spec)) == Length(spec) && (WellFormed(Default(spec)) <==> WellFormed(spec))
    ensures Offered(Default(spec), x) <==> Offered(spec, x)
  {
    var d := Default(spec);
    forall a: nat
      ensures InListedCIDR(d, a) <==> InListedCIDR(spec, a)
    {
      assert d.prefixes == spec.prefixes;
    }
    SameUnionsOfferSame(d, spec, x);
  }

  /** What validation accepts, from the spec: only IPv6, and no listed CIDR smaller than an allocation. */
  ghost predicate Admissible(spec: PrefixPoolSpec) {
    && WellFormed(spec) && spec.prefixes != []
    && (forall i :: 0 <= i < |spec.prefixes| ==>
          FamilyOf(spec.prefixes[i].value.addr) == IPv6 && spec.prefixes[i].value.bits <= Length(spec))
    && (forall i :: 0 <= i < |spec.excludedPrefixes| ==> OnlyFamily(spec.excludedPrefixes[i], IPv6))
    && spec.gateway != BadGateway
    && (spec.gateway.Gateway? ==> IsAddr(spec.gateway.a) && FamilyOf(spec.gateway.a) == IPv6)
  }

  /** A pool CIDR that validation accepts: a network-aligned IPv6 block no smaller than an allocation. */
  ghost predicate GoodPrefix(entry: Option<Prefix>, length: int) {
    entry.Some? && IsMasked(entry.value) && FamilyOf(entry.value.addr) == IPv6 && entry.value.bits <= length
  }

  ghost predicate GoodExclusion(entry: Entry) {
    EntryRange(entry).Some? && FamilyOf(EntryRange(entry).value.from) == IPv6
  }

  ghost predicate Acceptable(spec: PrefixPoolSpec) {
    var length := EffectiveAllocationPrefixLength(spec.allocationPrefixLength);
    && spec.prefixes != []
    && 1 <= length <= 128
    && (forall i :: 0 <= i < |spec.prefixes| ==> GoodPrefix(spec.prefixes[i], length))
    && (match spec.gateway
        case NoGateway => true
        case Gateway(a) => IsAddr(a) && FamilyOf(a) == IPv6
        case BadGateway => false)
    && (forall i :: 0 <= i < |spec.excludedPrefixes| ==> GoodExclusion(spec.excludedPrefixes[i]))
  }

  lemma GoodPrefixMeans(entry: Option<Prefix>, length: int)
    ensures GoodPrefix(entry, length) <==>
            IsNetwork(entry) && FamilyOf(entry.value.addr) == IPv6 && entry.value.bits <= length
  {
    if entry.Some? && ValidPrefix(entry.value) {
      AlignedIffDivisible(entry.value.addr, HostBits(entry.value));
    }
  }

  lemma AcceptableMeans(spec: PrefixPoolSpec)
    ensures Acceptable(spec) <==> Admissible(spec)
  {
    forall i | 0 <= i < |spec.prefixes|
      ensures GoodPrefix(spec.prefixes[i], Length(spec)) <==>
              IsNetwork(spec.prefixes[i]) && FamilyOf(spec.prefixes[i].value.addr) == IPv6
              && spec.prefixes[i].value.bits <= Length(spec)
    {
      GoodPrefixMeans(spec.prefixes[i], Length(spec));
    }
    forall i | 0 <= i < |spec.excludedPrefixes|
      ensures GoodExclusion(spec.excludedPrefixes[i]) <==> OnlyFamily(spec.excludedPrefixes[i], IPv6)
    {
      OnlyFamilyMeans(spec.excludedPrefixes[i], IPv6);
    }
  }

  /** validate: collects every complaint; a missing list or a bad length ends it early. */
  method Validate(spec: PrefixPoolSpec) returns (errs: seq<FieldError>)
    ensures errs == [] <==> Acceptable(spec)
    ensures errs == [] <==> Admissible(spec)
  {
    AcceptableMeans(spec);
    errs := [];
    if |spec.prefixes| == 0 {
      errs := errs + [PrefixesRequired];
      return;
    }
    var length := EffectiveAllocationPrefixLength(spec.allocationPrefixLength);
    if length < 1 || length > 128 {
      errs := errs + [LengthOutOfBounds];
      return;
    }
    var n := 0;
    while n < |spec.prefixes|
      invariant 0 <= n <= |spec.prefixes|
      invariant errs == [] <==> forall i :: 0 <= i < n ==> GoodPrefix(spec.prefixes[i], length)
    {
      var entry := spec.prefixes[n];
      if entry.None? || !ValidPrefix(entry.value) {
        errs := errs + [NotACidr(n)];
      } else if FamilyOf(entry.value.addr) == IPv4 {
        errs := errs + [NotIPv6(n)];
      } else {
        MaskedFacts(entry.value);
        if entry.value != Masked(entry.value) {
          errs := errs + [NotAligned(n)];
        }
        if entry.value.bits > length {
          errs := errs + [LongerThanAllocation(n)];
        }
      }
      n := n + 1;
    }
    match spec.gateway {
      case NoGateway =>
      case BadGateway => errs := errs + [GatewayUnparsable];
      case Gateway(a) =>
        if !IsAddr(a) {
          errs := errs + [GatewayUnparsable];
        } else if FamilyOf(a) != IPv6 {
          errs := errs + [GatewayNotIPv6];
        }
    }
    ghost var prior := errs;
    n := 0;
    while n < |spec.excludedPrefixes|
      invariant 0 <= n <= |spec.excludedPrefixes|
      invariant errs == [] <==> prior == [] && forall i :: 0 <= i < n ==> GoodExclusion(spec.excludedPrefixes[i])
    {
      var range := EntryRange(spec.excludedPrefixes[n]);
      if range.None? {
        errs := errs + [ExcludedInvalid(n)];
      } else if FamilyOf(range.value.from) == IPv4 {
        errs := errs + [ExcludedNotIPv6(n)];
      }
      n := n + 1;
    }
  }

  /** An accepted pool never makes the allocator report a malformed configuration. */
  lemma AcceptedConfigOk(spec: PrefixPoolSpec)
    requires Acceptable(spec)
    ensures ConfigOk(NewConfig(spec))
  {
    forall i | 0 <= i < |spec.prefixes|
      ensures PoolPrefixRange(spec.prefixes[i]).Some? && ValidRange(PoolPrefixRange(spec.prefixes[i]).value)
    {
      assert GoodPrefix(spec.prefixes[i], EffectiveAllocationPrefixLength(spec.allocationPrefixLength));
      MaskedFacts(spec.prefixes[i].value);
    }
    forall i | 0 <= i < |spec.excludedPrefixes|
      ensures EntryRange(spec.excludedPrefixes[i]).Some? && ValidRange(EntryRange(spec.excludedPrefixes[i]).value)
    {
      assert GoodExclusion(spec.excludedPrefixes[i]);
      EntryRangeValid(spec.excludedPrefixes[i]);
    }
  }

  /** With no exclusions an accepted pool can serve at least one claim. */
  lemma AcceptedServes(spec: PrefixPoolSpec)
    requires Acceptable(spec) && spec.excludedPrefixes == []
    ensures FindFreePrefixSpec(NewConfig(spec), []).Ok?
  {
    AcceptedConfigOk(spec);
    var config := NewConfig(spec);
    var p := spec.prefixes[0].value;
    assert GoodPrefix(spec.prefixes[0], config.allocationPrefixLength);
    FirstFits(p, config.allocationPrefixLength);
    var q := Prefix(p.addr, config.allocationPrefixLength);
    var pool := PrefixesToIPSet(config.prefixes).value;
    MaskedRange(p);
    MaskedRange(q);
    forall a: nat | InRange(RangeOf(q), a)
      ensures Has(pool, a)
    {
      CollectHas(config.prefixes, PoolPrefixRange, a);
      assert InRange(PoolPrefixRange(config.prefixes[0]).value, a);
    }
    ContainsIffAll(pool, RangeOf(q));
    assert CanHandOut(config, [], q);
    FindFreePrefixIsFirst(config, []);
  }

  // ---------- updates and deletion ----------

  ghost predicate UpdateAccepted(oldSpec: PrefixPoolSpec, newSpec: PrefixPoolSpec, inUse: seq<IPAddress>) {
    && Acceptable(newSpec)
    && EffectiveAllocationPrefixLength(oldSpec.allocationPrefixLength) ==
       EffectiveAllocationPrefixLength(newSpec.allocationPrefixLength)
    && (forall i :: 0 <= i < |inUse| ==> InRangeAllocation(inUse[i], NewConfig(newSpec)))
  }

  /** What an update must be, from the specs: valid, of the same length, permitting every object in use. */
  ghost predicate UpdateAdmissible(oldSpec: PrefixPoolSpec, newSpec: PrefixPoolSpec, inUse: seq<IPAddress>) {
    && Admissible(newSpec) && Length(oldSpec) == Length(newSpec)
    && forall i :: 0 <= i < |inUse| ==> Permitted(newSpec, inUse[i])
  }

  lemma UpdateMeans(oldSpec: PrefixPoolSpec, newSpec: PrefixPoolSpec, inUse: seq<IPAddress>)
    ensures UpdateAccepted(oldSpec, newSpec, inUse) <==> UpdateAdmissible(oldSpec, newSpec, inUse)
  {
    AcceptableMeans(newSpec);
    forall i | 0 <= i < |inUse|
      ensures InRangeAllocation(inUse[i], NewConfig(newSpec)) <==> Permitted(newSpec, inUse[i])
    {
      PermittedMeans(newSpec, inUse[i]);
    }
  }

  /** The loop of ValidateUpdate: the addresses whose prefix is missing or no longer allocatable. */
  method OutOfRangePrefixes(inUse: seq<IPAddress>, newConfig: PrefixPoolConfig) returns (found: seq<Entry>)
    ensures found == [] <==> forall i :: 0 <= i < |inUse| ==> InRangeAllocation(inUse[i], newConfig)
  {
    found := [];
    var n := 0;
    while n < |inUse|
      invariant 0 <= n <= |inUse|
      invariant found == [] <==> forall i :: 0 <= i < n ==> InRangeAllocation(inUse[i], newConfig)
    {
      var prefix := PrefixFromIPAddress(inUse[n]);
      if prefix.None? || !PrefixIsAllocatable(prefix.value, newConfig) {
        found := found + [inUse[n].address];
      }
      n := n + 1;
    }
  }

  /** ValidateUpdate, given the addresses that the list call returned. */
  method ValidateUpdate(oldSpec: PrefixPoolSpec, newSpec: PrefixPoolSpec, inUse: seq<IPAddress>) returns (ok: bool)
    ensures ok <==> UpdateAccepted(oldSpec, newSpec, inUse)
    ensures ok <==> UpdateAdmissible(oldSpec, newSpec, inUse)
  {
    UpdateMeans(oldSpec, newSpec, inUse);
    var errs := Validate(newSpec);
    if errs != [] {
      return false;
    }
    if EffectiveAllocationPrefixLength(oldSpec.allocationPrefixLength) !=
       EffectiveAllocationPrefixLength(newSpec.allocationPrefixLength) {
      return false;
    }
    var outOfRangePrefixes := OutOfRangePrefixes(inUse, NewConfig(newSpec));
    return |outOfRangePrefixes| == 0;
  }

  /** ValidateDelete; `skip` is the annotation that turns the check off. */
  function ValidateDelete(skip: bool, inUse: seq<IPAddress>): bool {
    skip || |inUse| == 0
  }
}
