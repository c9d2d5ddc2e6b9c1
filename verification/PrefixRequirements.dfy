/**
 What the prefix allocator promises, read off the pool spec: in terms of the listed CIDRs, the exclusions and the
 prefixes in use, with elementary arithmetic and without any of the sets that the code builds.
 */
module PrefixRequirements {
  import opened Wrappers
  import opened Powers
  import opened Netip
  import opened IPSets
  import opened Trie
  import opened Api
  import opened PrefixAllocator
  import opened PrefixGuarantees

  // ---------- what the spec says ----------

  /** The allocation length: 64 when the field is left out. */
  function Length(spec: PrefixPoolSpec): int {
    if spec.allocationPrefixLength == 0 then 64 else spec.allocationPrefixLength
  }

  /** A listed CIDR parses and has no host bits. */
  predicate IsNetwork(entry: Option<Prefix>) {
    && entry.Some? && Parses(Cidr(entry.value))
    && entry.value.addr % Pow2(BitLen(entry.value.addr) - entry.value.bits) == 0
  }

  ghost predicate WellFormed(spec: PrefixPoolSpec) {
    && 1 <= Length(spec) <= 128
    && (forall i :: 0 <= i < |spec.prefixes| ==> IsNetwork(spec.prefixes[i]))
    && (forall i :: 0 <= i < |spec.excludedPrefixes| ==> Parses(spec.excludedPrefixes[i]))
  }

  predicate InNetwork(entry: Option<Prefix>, a: nat)
    requires IsNetwork(entry)
  {
    entry.value.addr <= a < entry.value.addr + Pow2(BitLen(entry.value.addr) - entry.value.bits)
  }

  ghost predicate InListedCIDR(spec: PrefixPoolSpec, a: nat) {
    exists i :: 0 <= i < |spec.prefixes| && IsNetwork(spec.prefixes[i]) && InNetwork(spec.prefixes[i], a)
  }

  ghost predicate InExclusion(spec: PrefixPoolSpec, a: nat) {
    CoveredBySome(spec.excludedPrefixes, a)
  }

  /** a is one of the addresses of the block of length `bits` that starts at x. */
  predicate InBlock(x: nat, bits: int, a: nat)
    requires 0 <= bits <= BitLen(x)
  {
    x <= a < x + Pow2(BitLen(x) - bits)
  }

  /** Every address of the block is in a listed CIDR. */
  ghost predicate AllListed(spec: PrefixPoolSpec, x: nat, bits: int)
    requires 0 <= bits <= BitLen(x)
  {
    forall a: nat :: InBlock(x, bits, a) ==> InListedCIDR(spec, a)
  }

  /** Some address of the block is in an exclusion. */
  ghost predicate SomeExcluded(spec: PrefixPoolSpec, x: nat, bits: int)
    requires 0 <= bits <= BitLen(x)
  {
    exists a: nat :: InBlock(x, bits, a) && InExclusion(spec, a)
  }

  /** x starts a block of the allocation length, aligned, inside the listed CIDRs and clear of the exclusions. */
  ghost predicate Offered(spec: PrefixPoolSpec, x: nat) {
    && IsAddr(x) && 0 < Length(spec) <= BitLen(x) && x % Pow2(BitLen(x) - Length(spec)) == 0
    && AllListed(spec, x, Length(spec)) && !SomeExcluded(spec, x, Length(spec))
  }

  ghost predicate Untouched(spec: PrefixPoolSpec, taken: IPSet, x: nat) {
    0 < Length(spec) <= BitLen(x) && forall a: nat :: InBlock(x, Length(spec), a) ==> !Has(taken, a)
  }

  // ---------- what the code builds ----------

  lemma IsNetworkMeans(entry: Option<Prefix>)
    ensures PoolPrefixRange(entry).Some? <==> IsNetwork(entry)
    ensures IsNetwork(entry) ==> ValidRange(PoolPrefixRange(entry).value)
    ensures IsNetwork(entry) ==> forall a: nat :: InRange(PoolPrefixRange(entry).value, a) <==> InNetwork(entry, a)
  {
    if entry.Some? && ValidPrefix(entry.value) {
      var p := entry.value;
      AlignedIffDivisible(p.addr, HostBits(p));
      MaskedFacts(p);
      if IsMasked(p) {
        MaskedRange(p);
      }
    }
  }

  lemma PoolMeans(spec: PrefixPoolSpec, a: nat)
    ensures PrefixesToIPSet(spec.prefixes).Some? <==>
            forall i :: 0 <= i < |spec.prefixes| ==> IsNetwork(spec.prefixes[i])
    ensures PrefixesToIPSet(spec.prefixes).Some? ==>
              (Has(PrefixesToIPSet(spec.prefixes).value, a) <==> InListedCIDR(spec, a))
  {
    forall i | 0 <= i < |spec.prefixes|
      ensures PoolPrefixRange(spec.prefixes[i]).Some? <==> IsNetwork(spec.prefixes[i])
      ensures IsNetwork(spec.prefixes[i]) ==>
                ValidRange(PoolPrefixRange(spec.prefixes[i]).value)
                && (InRange(PoolPrefixRange(spec.prefixes[i]).value, a) <==> InNetwork(spec.prefixes[i], a))
    {
      IsNetworkMeans(spec.prefixes[i]);
    }
    if PrefixesToIPSet(spec.prefixes).Some? {
      CollectHas(spec.prefixes, PoolPrefixRange, a);
    }
  }

  lemma WellFormedMeans(spec: PrefixPoolSpec)
    ensures WellFormed(spec) <==> ConfigOk(NewConfig(spec))
  {
    PoolMeans(spec, 0);
    EntriesMean(spec.excludedPrefixes, 0);
  }

  // ---------- what it promises ----------

  /** A prefix may be handed out exactly when the spec offers it and nothing in use touches it. */
  lemma HandOutMeans(spec: PrefixPoolSpec, taken: IPSet, q: Prefix)
    requires WellFormed(spec) && Normal(taken) && IsMasked(q)
    ensures CanHandOut(NewConfig(spec), taken, q) <==>
            q.bits == Length(spec) && Offered(spec, q.addr) && Untouched(spec, taken, q.addr)
  {
    WellFormedMeans(spec);
    var config := NewConfig(spec);
    var pool, excluded := PrefixesToIPSet(spec.prefixes).value, AddressesToIPSet(spec.excludedPrefixes).value;
    AllocatableMeans(config, q);
    if q.bits == Length(spec) {
      MaskedRange(q);
      AlignedIffDivisible(q.addr, HostBits(q));
      BlockOffered(spec, q);
      BlockUntouched(spec, taken, q);
    }
  }

  lemma BlockOffered(spec: PrefixPoolSpec, q: Prefix)
    requires WellFormed(spec) && ConfigOk(NewConfig(spec)) && IsMasked(q) && q.bits == Length(spec)
    requires BlockedIPSet(NewConfig(spec), []).Some?
    ensures (&& Contains(PrefixesToIPSet(spec.prefixes).value, RangeOf(q))
             && !Overlaps(BlockedIPSet(NewConfig(spec), []).value, RangeOf(q))) <==> Offered(spec, q.addr)
  {
    AlignedIffDivisible(q.addr, HostBits(q));
    BlockListed(spec, q);
    BlockNotExcluded(spec, q);
  }

  lemma BlockListed(spec: PrefixPoolSpec, q: Prefix)
    requires WellFormed(spec) && IsMasked(q) && PrefixesToIPSet(spec.prefixes).Some?
    ensures Contains(PrefixesToIPSet(spec.prefixes).value, RangeOf(q)) <==> AllListed(spec, q.addr, q.bits)
  {
    forall a: nat
      ensures ListedAt(spec, PrefixesToIPSet(spec.prefixes).value, a)
    {
      PoolMeans(spec, a);
    }
    MaskedRange(q);
    ContainsListed(spec, PrefixesToIPSet(spec.prefixes).value, q.addr, q.bits, RangeOf(q));
  }

  ghost predicate ListedAt(spec: PrefixPoolSpec, pool: IPSet, a: nat) {
    Has(pool, a) <==> InListedCIDR(spec, a)
  }

  lemma ContainsListed(spec: PrefixPoolSpec, pool: IPSet, x: nat, bits: int, r: Range)
    requires 0 <= bits <= BitLen(x) && r.from == x && r.to + 1 == x + Pow2(BitLen(x) - bits)
    requires Normal(pool) && ValidRange(r) && forall a: nat :: ListedAt(spec, pool, a)
    ensures Contains(pool, r) <==> AllListed(spec, x, bits)
  {
    ContainsIffAll(pool, r);
    forall a: nat
      ensures InRange(r, a) && Has(pool, a) <==> InBlock(x, bits, a) && InListedCIDR(spec, a)
      ensures InRange(r, a) <==> InBlock(x, bits, a)
    {
      assert ListedAt(spec, pool, a);
    }
  }

  lemma BlockNotExcluded(spec: PrefixPoolSpec, q: Prefix)
    requires WellFormed(spec) && IsMasked(q) && BlockedIPSet(NewConfig(spec), []).Some?
    ensures Overlaps(BlockedIPSet(NewConfig(spec), []).value, RangeOf(q)) <==> SomeExcluded(spec, q.addr, q.bits)
  {
    forall a: nat
      ensures ExcludedAt(spec, BlockedIPSet(NewConfig(spec), []).value, a)
    {
      BlockedMeans(spec, a);
    }
    MaskedRange(q);
    OverlapsExcluded(spec, BlockedIPSet(NewConfig(spec), []).value, q.addr, q.bits, RangeOf(q));
  }

  ghost predicate ExcludedAt(spec: PrefixPoolSpec, blocked: IPSet, a: nat) {
    Has(blocked, a) <==> InExclusion(spec, a)
  }

  lemma OverlapsExcluded(spec: PrefixPoolSpec, blocked: IPSet, x: nat, bits: int, r: Range)
    requires 0 <= bits <= BitLen(x) && r.from == x && r.to + 1 == x + Pow2(BitLen(x) - bits)
    requires Normal(blocked) && ValidRange(r) && forall a: nat :: ExcludedAt(spec, blocked, a)
    ensures Overlaps(blocked, r) <==> SomeExcluded(spec, x, bits)
  {
    OverlapsIffSome(blocked, r);
    forall a: nat
      ensures InRange(r, a) && Has(blocked, a) <==> InBlock(x, bits, a) && InExclusion(spec, a)
    {
      assert ExcludedAt(spec, blocked, a);
    }
  }

  lemma BlockedMeans(spec: PrefixPoolSpec, a: nat)
    requires WellFormed(spec) && BlockedIPSet(NewConfig(spec), []).Some?
    ensures Has(BlockedIPSet(NewConfig(spec), []).value, a) <==> InExclusion(spec, a)
  {
    EntriesMean(spec.excludedPrefixes, a);
  }

  lemma BlockUntouched(spec: PrefixPoolSpec, taken: IPSet, q: Prefix)
    requires Normal(taken) && IsMasked(q) && 0 < q.bits == Length(spec)
    ensures !Overlaps(taken, RangeOf(q)) <==> Untouched(spec, taken, q.addr)
  {
    MaskedRange(q);
    RangeUntouched(taken, q.addr, q.bits, RangeOf(q));
  }

  lemma RangeUntouched(taken: IPSet, x: nat, bits: int, r: Range)
    requires 0 <= bits <= BitLen(x) && r.from == x && r.to + 1 == x + Pow2(BitLen(x) - bits)
    requires Normal(taken) && ValidRange(r)
    ensures !Overlaps(taken, r) <==> forall a: nat :: InBlock(x, bits, a) ==> !Has(taken, a)
  {
    OverlapsIffSome(taken, r);
    assert forall a: nat :: InRange(r, a) <==> InBlock(x, bits, a);
  }

  /** x starts a block that may be handed out while the addresses of taken are in use. */
  ghost predicate FreeAt(spec: PrefixPoolSpec, taken: IPSet, x: nat) {
    Offered(spec, x) && Untouched(spec, taken, x)
  }

  lemma FreeAtMeans(spec: PrefixPoolSpec, taken: IPSet, x: nat)
    requires WellFormed(spec) && Normal(taken)
    ensures FreeAt(spec, taken, x) ==> IsMasked(Prefix(x, Length(spec)))
    ensures FreeAt(spec, taken, x) <==> CanHandOut(NewConfig(spec), taken, Prefix(x, Length(spec)))
  {
    var q := Prefix(x, Length(spec));
    if ValidPrefix(q) {
      AlignedIffDivisible(x, HostBits(q));
      if IsMasked(q) {
        HandOutMeans(spec, taken, q);
      }
    }
  }

  /** What FindFreePrefix may answer, from the spec. */
  ghost predicate IsChoice(spec: PrefixPoolSpec, taken: IPSet, r: Result<Prefix>) {
    match r
    case Ok(q) =>
      && WellFormed(spec) && q.bits == Length(spec) && FreeAt(spec, taken, q.addr)
      && forall x: nat :: FreeAt(spec, taken, x) ==> q.addr <= x
    case Err(NoneAvailable) => WellFormed(spec) && forall x: nat :: !FreeAt(spec, taken, x)
    case Err(BadConfig) => !WellFormed(spec)
    case Panic => false
  }

  /**
   FindFreePrefix, from the spec: the lowest aligned block of the allocation length whose every address is in a listed
   CIDR, in no exclusion and not in use; "none" exactly when there is no such block, and a configuration error exactly
   for a malformed spec.
   */
  lemma FindFreePrefixMeets(spec: PrefixPoolSpec, taken: IPSet)
    requires Normal(taken)
    ensures IsChoice(spec, taken, FindFreePrefixSpec(NewConfig(spec), taken))
  {
    FindFreePrefixIsFirst(NewConfig(spec), taken);
    WellFormedMeans(spec);
    ChoiceFromFirst(spec, taken, FindFreePrefixSpec(NewConfig(spec), taken));
  }

  lemma ChoiceFromFirst(spec: PrefixPoolSpec, taken: IPSet, r: Result<Prefix>)
    requires Normal(taken) && (WellFormed(spec) <==> ConfigOk(NewConfig(spec)))
    requires match r
      case Ok(q) => WellFormed(spec) && CanHandOut(NewConfig(spec), taken, q)
                    && forall p :: CanHandOut(NewConfig(spec), taken, p) ==> q.addr <= p.addr
      case Err(NoneAvailable) => WellFormed(spec) && forall p :: !CanHandOut(NewConfig(spec), taken, p)
      case Err(BadConfig) => !WellFormed(spec)
      case Panic => false
    ensures IsChoice(spec, taken, r)
  {
    if WellFormed(spec) {
      if r.Ok? {
        HandOutMeans(spec, taken, r.value);
      }
      forall x: nat
        ensures FreeAt(spec, taken, x) <==> CanHandOut(NewConfig(spec), taken, Prefix(x, Length(spec)))
      {
        FreeAtMeans(spec, taken, x);
      }
    }
  }

  /** The starts of all blocks that the spec offers. */
  ghost function OfferedStarts(spec: PrefixPoolSpec): set<nat> {
    set x: nat | x < ADDR_BOUND && Offered(spec, x)
  }

  lemma OfferedAreCandidates(spec: PrefixPoolSpec)
    requires WellFormed(spec)
    ensures Candidates(NewConfig(spec)) == OfferedStarts(spec)
  {
    forall x: nat
      ensures CanHandOut(NewConfig(spec), [], Prefix(x, Length(spec))) <==> Offered(spec, x)
    {
      FreeAtMeans(spec, [], x);
    }
  }

  /** PrefixCandidateCount, from the spec: the number of blocks it offers, at most the largest int64. */
  lemma CandidateCountMeets(spec: PrefixPoolSpec)
    ensures PrefixCandidateCountSpec(NewConfig(spec)) ==
            if !WellFormed(spec) then Err(BadConfig)
            else if |OfferedStarts(spec)| > 0x7FFF_FFFF_FFFF_FFFF then Ok(0x7FFF_FFFF_FFFF_FFFF)
            else Ok(|OfferedStarts(spec)|)
  {
    CandidateCountIsExact(NewConfig(spec));
    WellFormedMeans(spec);
    if WellFormed(spec) {
      OfferedAreCandidates(spec);
    }
  }

  lemma MaskedMeets(spec: PrefixPoolSpec, q: Prefix)
    requires IsMasked(q)
    ensures PrefixIsAllocatable(q, NewConfig(spec)) <==>
            WellFormed(spec) && q.bits == Length(spec) && Offered(spec, q.addr)
  {
    WellFormedMeans(spec);
    if WellFormed(spec) {
      HandOutMeans(spec, [], q);
    }
  }

  /** PrefixIsAllocatable, from the spec: a valid prefix of the allocation length whose block is offered. */
  lemma PrefixIsAllocatableMeets(spec: PrefixPoolSpec, p: Prefix)
    ensures PrefixIsAllocatable(p, NewConfig(spec)) <==>
            && WellFormed(spec) && Parses(Cidr(p)) && p.bits == Length(spec)
            && Offered(spec, BlockStart(p.addr, BitLen(p.addr) - p.bits))
  {
    if ValidPrefix(p) {
      MaskedFacts(p);
      MaskedFacts(Masked(p));
      MaskedMeets(spec, Masked(p));
    }
  }

  /** Specs of one length that list and exclude the same addresses. */
  ghost predicate SameUnions(c: PrefixPoolSpec, d: PrefixPoolSpec) {
    && Length(c) == Length(d)
    && (forall a: nat :: InListedCIDR(c, a) <==> InListedCIDR(d, a))
    && (forall a: nat :: InExclusion(c, a) <==> InExclusion(d, a))
  }

  lemma SameUnionsOfferSame(c: PrefixPoolSpec, d: PrefixPoolSpec, x: nat)
    requires SameUnions(c, d)
    ensures Offered(c, x) <==> Offered(d, x)
  {
  }

  /** Such specs choose alike, however the entries are ordered, repeated or split. */
  lemma SameUnionsSameChoice(c: PrefixPoolSpec, d: PrefixPoolSpec, taken: IPSet)
    requires WellFormed(c) && WellFormed(d) && Normal(taken) && SameUnions(c, d)
    ensures FindFreePrefixSpec(NewConfig(c), taken) == FindFreePrefixSpec(NewConfig(d), taken)
  {
    FindFreePrefixMeets(c, taken);
    FindFreePrefixMeets(d, taken);
    OneChoice(c, d, taken, FindFreePrefixSpec(NewConfig(c), taken), FindFreePrefixSpec(NewConfig(d), taken));
  }

  lemma OneChoice(c: PrefixPoolSpec, d: PrefixPoolSpec, taken: IPSet, r: Result<Prefix>, s: Result<Prefix>)
    requires WellFormed(c) && WellFormed(d) && SameUnions(c, d) && IsChoice(c, taken, r) && IsChoice(d, taken, s)
    ensures r == s
  {
    forall x: nat
      ensures FreeAt(c, taken, x) <==> FreeAt(d, taken, x)
    {
      SameUnionsOfferSame(c, d, x);
    }
  }

  /** And count alike. */
  lemma SameUnionsSameCount(c: PrefixPoolSpec, d: PrefixPoolSpec)
    requires WellFormed(c) && WellFormed(d) && SameUnions(c, d)
    ensures PrefixCandidateCountSpec(NewConfig(c)) == PrefixCandidateCountSpec(NewConfig(d))
  {
    CandidateCountMeets(c);
    CandidateCountMeets(d);
    forall x: nat
      ensures Offered(c, x) <==> Offered(d, x)
    {
      SameUnionsOfferSame(c, d, x);
    }
    assert OfferedStarts(c) == OfferedStarts(d);
  }
}
