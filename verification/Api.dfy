/** The IPAddress objects of the API server and what the allocators read from them. */
module Api {
  import opened Wrappers
  import opened Powers
  import opened Netip
  import opened IPSets

  /** Namespace and name; an address carries the name of its claim. */
  type Name = nat

  datatype PoolKind = AddressPool | PrefixPool

  /** A pool reference: kind and identity. Its value in the index is the same for claims and addresses. */
  datatype PoolRef = PoolRef(kind: PoolKind, id: nat)

  /** `address` is the parsed spec.address text, `protect` the ProtectAddress finalizer. */
  datatype IPAddress = IPAddress(
    name: Name,
    pool: PoolRef,
    address: Entry,
    prefix: Option<int>,
    gateway: Gateway,
    protect: bool,
    deleting: bool)

  /** The prefix an address object stands for; None when prefix or address are missing or malformed. */
  function PrefixFromIPAddress(a: IPAddress): (p: Option<Prefix>)
    ensures p.Some? ==> IsMasked(p.value)
  {
    if a.prefix.None? then None
    else
      match a.address
      case Single(x) =>
        if ValidPrefix(Prefix(x, a.prefix.value)) then Some(Masked(Prefix(x, a.prefix.value))) else None
      case _ => None
  }

  function AllocationRange(a: IPAddress): Option<Range> {
    match PrefixFromIPAddress(a)
    case Some(p) => Some(RangeOf(p))
    case None => None
  }

  /** The object records a well-formed prefix. */
  predicate HasBlock(a: IPAddress) {
    a.address.Single? && IsAddr(a.address.a) && a.prefix.Some? && 0 <= a.prefix.value <= BitLen(a.address.a)
  }

  /** x lies in the prefix that the object records. */
  predicate InBlockOf(a: IPAddress, x: nat)
    requires HasBlock(a)
  {
    SameBits(a.address.a, x, a.prefix.value)
  }

  /** What the code reads from an address object is the block that it records. */
  lemma AllocationRangeMeans(a: IPAddress)
    ensures PrefixFromIPAddress(a).Some? <==> HasBlock(a)
    ensures AllocationRange(a).Some? <==> HasBlock(a)
    ensures HasBlock(a) ==> PrefixFromIPAddress(a).value.bits == a.prefix.value
    ensures HasBlock(a) ==> forall x: nat :: InRange(AllocationRange(a).value, x) <==> InBlockOf(a, x)
  {
    if HasBlock(a) {
      var p := Prefix(a.address.a, a.prefix.value);
      MaskedFacts(p);
      forall x: nat
        ensures InRange(AllocationRange(a).value, x) <==> InBlockOf(a, x)
      {
        RangeIsSameBits(p, x);
      }
    }
  }

  lemma PrefixStart(a: IPAddress)
    ensures PrefixFromIPAddress(a).Some? <==> HasBlock(a)
    ensures HasBlock(a) ==>
              var (m, bits) := (PrefixFromIPAddress(a).value, a.prefix.value);
              m.bits == bits && m.addr == BlockStart(a.address.a, BitLen(a.address.a) - bits)
  {
  }

  /** Some object of the list records a prefix that holds x. */
  ghost predicate InSomeBlock(inUse: seq<IPAddress>, x: nat) {
    exists i :: 0 <= i < |inUse| && HasBlock(inUse[i]) && InBlockOf(inUse[i], x)
  }

  /** AddressesToAllocationPrefixSet as a function of the list. */
  function AllocationPrefixSet(addresses: seq<IPAddress>): (s: Option<IPSet>)
    ensures s.Some? ==> Normal(s.value)
  {
    Collect(addresses, AllocationRange)
  }

  method AddressesToAllocationPrefixSet(addresses: seq<IPAddress>) returns (s: Option<IPSet>)
    ensures s == AllocationPrefixSet(addresses)
  {
    var builder := new IPSetBuilder();
    var n := 0;
    while n < |addresses|
      invariant 0 <= n <= |addresses| && builder.Valid() && !builder.failed
      invariant AllocationPrefixSet(addresses[..n]) == Some(builder.ranges)
    {
      assert addresses[..n + 1][..n] == addresses[..n];
      var prefix := PrefixFromIPAddress(addresses[n]);
      if prefix.None? {
        assert AllocationRange(addresses[n]).None?;
        return None;
      }
      builder.AddPrefix(prefix.value);
      n := n + 1;
    }
    assert addresses[..n] == addresses;
    s := builder.IPSet();
  }

  /** The set of the prefixes in use holds what the objects record, and fails on an object that records none. */
  lemma AllocationPrefixSetMeans(inUse: seq<IPAddress>, x: nat)
    ensures AllocationPrefixSet(inUse).Some? <==> forall i :: 0 <= i < |inUse| ==> HasBlock(inUse[i])
    ensures AllocationPrefixSet(inUse).Some? ==>
              (Has(AllocationPrefixSet(inUse).value, x) <==> InSomeBlock(inUse, x))
  {
    forall i | 0 <= i < |inUse|
      ensures AllocationRange(inUse[i]).Some? <==> HasBlock(inUse[i])
      ensures AllocationRange(inUse[i]).Some? ==> ValidRange(AllocationRange(inUse[i]).value)
      ensures HasBlock(inUse[i]) ==> (InRange(AllocationRange(inUse[i]).value, x) <==> InBlockOf(inUse[i], x))
    {
      AllocationRangeMeans(inUse[i]);
    }
    if AllocationPrefixSet(inUse).Some? {
      CollectHas(inUse, AllocationRange, x);
    }
  }

  /** What PrefixFromIPAddress reads back from an allocation that EnsureAddress recorded. */
  lemma PrefixRoundTrip(a: IPAddress, p: Prefix)
    requires IsMasked(p) && a.address == Single(p.addr) && a.prefix == Some(p.bits)
    ensures PrefixFromIPAddress(a) == Some(p) && AllocationRange(a) == Some(RangeOf(p))
  {
    MaskedFacts(p);
  }
}
