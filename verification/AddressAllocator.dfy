/** The address allocator of internal/poolutil/pool.go. */
module AddressAllocator {
  import opened Wrappers
  import opened Powers
  import opened Netip
  import opened IPSets
  import opened Trie
  import opened Api
  import opened PrefixAllocator

  /** An InClusterIPPoolSpec with its text fields parsed; graceSeconds is AddressReuseGracePeriodSeconds. */
  datatype IPPoolSpec = IPPoolSpec(
    addresses: seq<Entry>,
    prefix: int,
    gateway: Gateway,
    allocateReserved: bool,
    excludedAddresses: seq<Entry>,
    graceSeconds: Option<int>)

  // ---------- PoolSpecToIPSet ----------

  function One(a: nat): Range {
    Range(a, a)
  }

  /** Takes one address out; an invalid address makes the builder fail, which is the None here. */
  function WithoutAddr(s: IPSet, a: nat): (t: Option<IPSet>)
    requires Normal(s)
    ensures t.Some? ==> Normal(t.value)
  {
    if ValidRange(One(a)) then Some(Remove(s, One(a))) else None
  }

  /** Takes out the network or anycast address of the subnet and, for IPv4, the broadcast address. */
  function WithoutReserved(s: IPSet, subnet: Prefix): (t: Option<IPSet>)
    requires Normal(s)
    ensures t.Some? ==> Normal(t.value)
  {
    if !ValidPrefix(subnet) then None
    else
      var r := RangeOf(subnet);
      var first := Remove(s, One(r.from));
      Some(if FamilyOf(subnet.addr) == IPv4 then Remove(first, One(r.to)) else first)
  }

  /** The subnet inferred from the lowest address of the pool. */
  function Subnet(addresses: IPSet, prefix: int): Prefix
    requires addresses != []
  {
    Prefix(addresses[0].from, prefix)
  }

  function WithoutGateway(s: IPSet, gateway: Gateway): (t: Option<IPSet>)
    requires Normal(s)
    ensures t.Some? ==> Normal(t.value)
  {
    match gateway
    case NoGateway => Some(s)
    case BadGateway => None
    case Gateway(a) => WithoutAddr(s, a)
  }

  /** Takes out the excluded addresses; None when one of them does not parse. */
  function WithoutExcluded(s: IPSet, excludedAddresses: seq<Entry>): (t: Option<IPSet>)
    requires Normal(s)
    ensures t.Some? ==> Normal(t.value)
  {
    match AddressesToIPSet(excludedAddresses)
    case None => None
    case Some(excluded) => Some(Subtract(s, excluded))
  }

  /** Keeps the reserved addresses only when allowed; Panic stands for indexing the first range of an empty set. */
  function Unreserved(spec: IPPoolSpec, addresses: IPSet, usable: IPSet): (r: Result<IPSet>)
    requires Normal(usable)
    ensures r.Ok? ==> Normal(r.value)
  {
    if spec.allocateReserved then Ok(usable)
    else if addresses == [] then Panic
    else
      match WithoutReserved(usable, Subnet(addresses, spec.prefix))
      case None => Err(BadConfig)
      case Some(kept) => Ok(kept)
  }

  function PoolSpecToIPSetSpec(spec: IPPoolSpec): (r: Result<IPSet>)
    ensures r.Ok? ==> Normal(r.value)
  {
    var addresses := AddressesToIPSet(spec.addresses);
    if addresses.None? then Err(BadConfig)
    else
      var usable := WithoutExcluded(Union([], addresses.value), spec.excludedAddresses);
      if usable.None? then Err(BadConfig)
      else
        match Unreserved(spec, addresses.value, usable.value)
        case Panic => Panic
        case Err(e) => Err(e)
        case Ok(kept) =>
          match WithoutGateway(kept, spec.gateway)
          case Some(s) => Ok(s)
          case None => Err(BadConfig)
  }

  method RemoveExcluded(builder: IPSetBuilder, excludedAddresses: seq<Entry>) returns (ok: bool)
    requires builder.Valid()
    modifies builder
    ensures builder.Valid() && builder.failed == old(builder.failed)
    ensures WithoutExcluded(old(builder.ranges), excludedAddresses) == if ok then Some(builder.ranges) else None
  {
    if |excludedAddresses| > 0 {
      var excluded := BuildAddressSet(excludedAddresses);
      if excluded.None? {
        return false;
      }
      builder.RemoveSet(excluded.value);
    }
    return true;
  }

  method RemoveReserved(builder: IPSetBuilder, subnet: Prefix)
    requires builder.Valid() && ValidPrefix(subnet)
    modifies builder
    ensures builder.Valid() && builder.failed == old(builder.failed)
    ensures Some(builder.ranges) == WithoutReserved(old(builder.ranges), subnet)
  {
    var subnetRange := RangeOf(subnet);
    builder.RemoveRange(One(subnetRange.from));
    if FamilyOf(subnet.addr) == IPv4 {
      builder.RemoveRange(One(subnetRange.to));
    }
  }

  /** The result carries only success or the error; the set stays in the builder. */
  method RemoveUnlessAllowed(builder: IPSetBuilder, spec: IPPoolSpec, addresses: IPSet) returns (r: Result<bool>)
    requires builder.Valid()
    modifies builder
    ensures builder.Valid() && builder.failed == old(builder.failed)
    ensures match Unreserved(spec, addresses, old(builder.ranges))
      case Ok(kept) => r == Ok(true) && kept == builder.ranges
      case Err(e) => r == Err(e)
      case Panic => r == Panic
  {
    if !spec.allocateReserved {
      if addresses == [] {
        return Panic;
      }
      var subnet := Subnet(addresses, spec.prefix);
      if !ValidPrefix(subnet) {
        return Err(BadConfig);
      }
      RemoveReserved(builder, subnet);
    }
    return Ok(true);
  }

  method RemoveGateway(builder: IPSetBuilder, gateway: Gateway)
    requires builder.Valid() && !builder.failed && gateway != BadGateway
    modifies builder
    ensures builder.Valid()
    ensures WithoutGateway(old(builder.ranges), gateway) == if builder.failed then None else Some(builder.ranges)
  {
    if gateway.Gateway? {
      builder.RemoveRange(One(gateway.a));
    }
  }

  method PoolSpecToIPSet(spec: IPPoolSpec) returns (r: Result<IPSet>)
    ensures r == PoolSpecToIPSetSpec(spec)
  {
    var addresses := BuildAddressSet(spec.addresses);
    if addresses.None? {
      return Err(BadConfig);
    }
    var builder := new IPSetBuilder();
    builder.AddSet(addresses.value);
    var ok := RemoveExcluded(builder, spec.excludedAddresses);
    if !ok {
      return Err(BadConfig);
    }
    var kept := RemoveUnlessAllowed(builder, spec, addresses.value);
    if !kept.Ok? {
      return if kept == Panic then Panic else Err(kept.error);
    }
    if spec.gateway == BadGateway {
      return Err(BadConfig);
    }
    RemoveGateway(builder, spec.gateway);
    var s := builder.IPSet();
    return if s.None? then Err(BadConfig) else Ok(s.value);
  }

  // ---------- IPSetCount ----------

  /** The number of addresses in a normal set. */
  ghost function Total(s: IPSet): (n: nat)
    requires Normal(s)
    ensures n == |Addrs(s)|
    decreases |s|
  {
    if s == [] then
      assert Addrs(s) == {};
      0
    else
      var last := |s| - 1;
      LastRange(s);
      Total(s[..last]) + (s[last].to - s[last].from + 1)
  }

  lemma LastRange(s: IPSet)
    requires Normal(s) && s != []
    ensures var last := |s| - 1;
      && Normal(s[..last]) && s[last].from <= s[last].to
      && |Addrs(s)| == |Addrs(s[..last])| + (s[last].to - s[last].from + 1)
  {
    var last := |s| - 1;
    var front, r := s[..last], s[last];
    assert forall i :: 0 <= i < last ==> front[i] == s[i];
    assert ValidRange(r);
    var own := Interval(r.from, r.to + 1);
    IntervalSize(r.from, r.to + 1);
    forall a: nat
      ensures Has(s, a) <==> Has(front, a) || InRange(r, a)
      ensures !(Has(front, a) && InRange(r, a))
      ensures InRange(r, a) ==> a < ADDR_BOUND
    {
      HasLast(s, front, r, a);
    }
    JoinSizes(Addrs(s), Addrs(front), own);
  }

  lemma JoinSizes(all: set<nat>, a: set<nat>, b: set<nat>)
    requires forall x :: x in all <==> x in a || x in b
    requires forall x :: !(x in a && x in b)
    ensures |all| == |a| + |b|
  {
    assert all == a + b;
    assert a * b == {};
  }

  lemma HasLast(s: IPSet, front: IPSet, r: Range, a: nat)
    requires Normal(s) && s == front + [r]
    ensures Has(s, a) <==> Has(front, a) || InRange(r, a)
    ensures !(Has(front, a) && InRange(r, a))
    ensures InRange(r, a) ==> a < ADDR_BOUND
  {
    var last := |front|;
    assert s[last] == r && ValidRange(s[last]);
    HasConcat(front, [r], a);
    assert Has([r], a) <==> InRange([r][0], a);
    if i :| 0 <= i < last && InRange(front[i], a) {
      assert front[i] == s[i] && s[i].to + 1 < s[last].from;
    }
  }

  /** IPSetCount adds up the sizes of the ranges and saturates at MaxInt at the end. */
  method IPSetCount(s: IPSet) returns (n: nat)
    requires Normal(s)
    ensures n == Capped(|Addrs(s)|)
  {
    var total, i := 0, 0;
    while i < |s|
      invariant 0 <= i <= |s| && Normal(s[..i]) && total == Total(s[..i])
    {
      assert s[..i + 1][..i] == s[..i];
      assert Normal(s[..i + 1]);
      total := total + (s[i].to - s[i].from);
      total := total + 1;
      i := i + 1;
    }
    assert s[..i] == s;
    n := if total <= MAX_INT then total else MAX_INT;
  }

  // ---------- FindFreeAddress ----------

  /** The first address from ip up to last that is not in use. */
  function FreeFrom(ip: nat, last: nat, inUse: IPSet): (r: Option<nat>)
    requires ip <= last
    ensures r.Some? ==> ip <= r.value <= last && !Has(inUse, r.value)
    ensures r.Some? ==> forall a: nat :: ip <= a < r.value ==> Has(inUse, a)
    ensures r.None? ==> forall a: nat :: ip <= a <= last ==> Has(inUse, a)
    decreases last - ip
  {
    ContainsAddrIffHas(inUse, ip);
    if !ContainsAddr(inUse, ip) then Some(ip)
    else if ip == last then None
    else FreeFrom(ip + 1, last, inUse)
  }

  ghost predicate IsFree(pool: IPSet, inUse: IPSet, a: nat) {
    Has(pool, a) && !Has(inUse, a)
  }

  /** FindFreeAddress: the lowest pool address that is not in use, or none when all of them are. */
  function FindFreeAddressSpec(pool: IPSet, inUse: IPSet): (r: Result<nat>)
    requires Normal(pool)
    ensures r.Ok? || r == Err(NoneAvailable)
    ensures r.Ok? ==> IsFree(pool, inUse, r.value)
    ensures r.Ok? ==> forall a: nat :: IsFree(pool, inUse, a) ==> r.value <= a
    ensures r.Err? ==> forall a: nat :: !IsFree(pool, inUse, a)
    decreases |pool|
  {
    if pool == [] then Err(NoneAvailable)
    else
      NormalTail(pool);
      assert ValidRange(pool[0]);
      var head := FreeFrom(pool[0].from, pool[0].to, inUse);
      assert head.None? ==> forall a: nat :: InRange(pool[0], a) ==> Has(inUse, a);
      assert head.Some? ==> forall a: nat :: IsFree(pool, inUse, a) && InRange(pool[0], a) ==> head.value <= a;
      assert forall a: nat :: IsFree(pool, inUse, a) ==> InRange(pool[0], a) || IsFree(pool[1..], inUse, a);
      if head.Some? then
        assert InRange(pool[0], head.value);
        Ok(head.value)
      else FindFreeAddressSpec(pool[1..], inUse)
  }

  /** Every address of the first n ranges is in use. */
  ghost predicate Exhausted(pool: IPSet, n: nat, inUse: IPSet) {
    n <= |pool| && forall i :: 0 <= i < n ==> forall a: nat :: InRange(pool[i], a) ==> Has(inUse, a)
  }

  /**
   The inner loop of FindFreeAddress. `probes` counts the membership tests. The loop leaves a range at its last
   address without asking for a next one, so it also ends on a range that ends with the family.
   */
  method ScanRange(r: Range, inUse: IPSet) returns (found: Option<nat>, probes: nat)
    requires ValidRange(r)
    ensures found == FreeFrom(r.from, r.to, inUse)
    ensures probes == (if found.Some? then found.value else r.to) - r.from + 1
  {
    var ip := r.from;
    probes := 0;
    while true
      invariant r.from <= ip <= r.to && probes == ip - r.from
      invariant FreeFrom(ip, r.to, inUse) == FreeFrom(r.from, r.to, inUse)
      decreases r.to - ip
    {
      probes := probes + 1;
      if !ContainsAddr(inUse, ip) {
        return Some(ip), probes;
      }
      if ip == r.to {
        return None, probes;
      }
      NextInRange(r, ip);
      ip := NextAddr(ip).value;
    }
  }

  /** The outer loop: range by range in address order, until one has a free address. */
  method FindFreeAddress(pool: IPSet, inUse: IPSet) returns (r: Result<nat>, probes: nat)
    requires Normal(pool)
    ensures r == FindFreeAddressSpec(pool, inUse)
    ensures probes <= |Addrs(pool) * Addrs(inUse)| + 1
  {
    probes := 0;
    var n := 0;
    while n < |pool|
      invariant 0 <= n <= |pool| && Normal(pool[n..]) && Normal(pool[..n])
      invariant FindFreeAddressSpec(pool[n..], inUse) == FindFreeAddressSpec(pool, inUse)
      invariant probes == Total(pool[..n]) && Exhausted(pool, n, inUse)
    {
      SuffixFacts(pool, n, inUse);
      var found, tested := ScanRange(pool[n], inUse);
      if found.Some? {
        ProbedAreUsed(pool, n, found.value, inUse);
        return Ok(found.value), probes + tested;
      }
      PrefixTotal(pool, n);
      ExhaustedNext(pool, n, inUse);
      probes := probes + tested;
      n := n + 1;
    }
    ExhaustedBound(pool, inUse);
    return Err(NoneAvailable), probes;
  }

  lemma ExhaustedNext(pool: IPSet, n: nat, inUse: IPSet)
    requires n < |pool| && Exhausted(pool, n, inUse) && pool[n].from <= pool[n].to
    requires FreeFrom(pool[n].from, pool[n].to, inUse).None?
    ensures Exhausted(pool, n + 1, inUse)
  {
  }

  lemma PrefixTotal(pool: IPSet, n: nat)
    requires Normal(pool) && n < |pool|
    ensures Normal(pool[..n]) && Normal(pool[..n + 1]) && pool[n].from <= pool[n].to
    ensures Total(pool[..n + 1]) == Total(pool[..n]) + (pool[n].to - pool[n].from + 1)
  {
    var more := pool[..n + 1];
    assert forall i :: 0 <= i <= n ==> more[i] == pool[i];
    assert more[..n] == pool[..n];
    assert ValidRange(pool[n]);
  }

  /** The addresses tested before ip are distinct pool addresses that are in use. */
  lemma ProbedAreUsed(pool: IPSet, n: nat, ip: nat, inUse: IPSet)
    requires Normal(pool) && n < |pool| && Normal(pool[..n]) && Exhausted(pool, n, inUse)
    requires pool[n].from <= ip <= pool[n].to && forall a: nat :: pool[n].from <= a < ip ==> Has(inUse, a)
    ensures Total(pool[..n]) + (ip - pool[n].from) <= |Addrs(pool) * Addrs(inUse)|
  {
    var before, own := Addrs(pool[..n]), Interval(pool[n].from, ip);
    IntervalSize(pool[n].from, ip);
    forall a | a in before
      ensures a in Addrs(pool) * Addrs(inUse) && a !in own
    {
      HasPrefix(pool, n, a, inUse);
    }
    forall a | a in own
      ensures a in Addrs(pool) * Addrs(inUse)
    {
      assert InRange(pool[n], a);
      HasBound(pool, a);
    }
    assert before * own == {};
    SubsetSize(before + own, Addrs(pool) * Addrs(inUse));
  }

  lemma HasPrefix(pool: IPSet, n: nat, a: nat, inUse: IPSet)
    requires Normal(pool) && n <= |pool| && Has(pool[..n], a) && Exhausted(pool, n, inUse)
    ensures Has(pool, a) && Has(inUse, a) && (n < |pool| ==> a < pool[n].from)
  {
    var i :| 0 <= i < n && InRange(pool[..n][i], a);
    assert InRange(pool[i], a);
  }

  lemma ExhaustedBound(pool: IPSet, inUse: IPSet)
    requires Normal(pool) && Exhausted(pool, |pool|, inUse)
    ensures pool[..|pool|] == pool && Total(pool) <= |Addrs(pool) * Addrs(inUse)|
  {
    assert pool[..|pool|] == pool;
    forall a | a in Addrs(pool)
      ensures a in Addrs(inUse)
    {
      HasPrefix(pool, |pool|, a, inUse);
    }
    assert Addrs(pool) * Addrs(inUse) == Addrs(pool);
  }

  lemma SuffixFacts(pool: IPSet, n: nat, inUse: IPSet)
    requires n < |pool| && Normal(pool[n..])
    ensures ValidRange(pool[n]) && Normal(pool[n + 1..])
    ensures n + 1 < |pool| ==> pool[n].to < pool[n + 1].from
    ensures var head := FreeFrom(pool[n].from, pool[n].to, inUse);
      FindFreeAddressSpec(pool[n..], inUse) ==
      if head.Some? then Ok(head.value) else FindFreeAddressSpec(pool[n + 1..], inUse)
  {
    var rest := pool[n..];
    NormalTail(rest);
    assert rest[0] == pool[n] && ValidRange(rest[0]);
    assert rest[1..] == pool[n + 1..];
    assert n + 1 < |pool| ==> rest[1] == pool[n + 1];
  }

  lemma NextInRange(r: Range, ip: nat)
    requires ValidRange(r) && r.from <= ip < r.to
    ensures NextAddr(ip) == Some(ip + 1)
  {
  }

  // ---------- addresses in use ----------

  /** ParseAddr of the address text. */
  function ParsedAddr(a: IPAddress): Option<nat> {
    match a.address
    case Single(x) => if IsAddr(x) then Some(x) else None
    case _ => None
  }

  function GatewayEntries(gateway: Gateway): seq<Entry> {
    match gateway
    case NoGateway => []
    case Gateway(a) => [Single(a)]
    case BadGateway => [Garbage]
  }

  function AddressTexts(addresses: seq<IPAddress>): seq<Entry> {
    seq(|addresses|, i requires 0 <= i < |addresses| => addresses[i].address)
  }

  /** buildAddressList: the texts of the addresses in use, then the gateway. */
  function AddressList(addresses: seq<IPAddress>, gateway: Gateway): seq<Entry> {
    AddressTexts(addresses) + GatewayEntries(gateway)
  }

  method BuildAddressList(addresses: seq<IPAddress>, gateway: Gateway) returns (texts: seq<Entry>)
    ensures texts == AddressList(addresses, gateway)
  {
    var strings := new Entry[|addresses|];
    var i := 0;
    while i < |addresses|
      invariant 0 <= i <= |addresses|
      invariant forall k :: 0 <= k < i ==> strings[k] == addresses[k].address
    {
      strings[i] := addresses[i].address;
      i := i + 1;
    }
    texts := strings[..];
    assert texts == AddressTexts(addresses);
    match gateway {
      case NoGateway =>
      case Gateway(a) => texts := texts + [Single(a)];
      case BadGateway => texts := texts + [Garbage];
    }
  }

  /** The set EnsureAddress treats as taken; None when some text does not parse. */
  function InUseIPSet(addresses: seq<IPAddress>, gateway: Gateway): (s: Option<IPSet>)
    ensures s.Some? ==> Normal(s.value)
  {
    AddressesToIPSet(AddressList(addresses, gateway))
  }

  /** The taken set holds exactly the addresses in use and the gateway. */
  lemma InUseHas(addresses: seq<IPAddress>, gateway: Gateway, a: nat)
    requires InUseIPSet(addresses, gateway).Some?
    ensures forall i :: 0 <= i < |addresses| ==> EntryRange(addresses[i].address).Some?
    ensures Has(InUseIPSet(addresses, gateway).value, a) <==>
            || gateway == Gateway.Gateway(a)
            || (exists i :: 0 <= i < |addresses| && InRange(EntryRange(addresses[i].address).value, a))
  {
    var texts := AddressList(addresses, gateway);
    var n := |addresses|;
    CollectHas(texts, EntryRange, a);
    assert forall i :: 0 <= i < n ==> texts[i] == addresses[i].address;
    if Listed(texts, EntryRange, a) {
      var i :| 0 <= i < |texts| && InRange(EntryRange(texts[i]).value, a);
      assert i < n ==> InRange(EntryRange(addresses[i].address).value, a);
    }
    if gateway == Gateway.Gateway(a) {
      assert texts[n] == Single(a);
      assert InRange(EntryRange(texts[n]).value, a);
    }
    if i :| 0 <= i < n && InRange(EntryRange(addresses[i].address).value, a) {
      assert InRange(EntryRange(texts[i]).value, a);
    }
  }

  /** AddressesOutOfRangeIPSet: the parsable addresses in use that are not in the pool. */
  method AddressesOutOfRangeIPSet(addresses: seq<IPAddress>, pool: IPSet) returns (s: IPSet)
    requires Normal(pool)
    ensures Normal(s)
    ensures forall a: nat :: Has(s, a) <==> !Has(pool, a) && UsedBy(addresses, a)
  {
    var builder := new IPSetBuilder();
    var n := 0;
    while n < |addresses|
      invariant 0 <= n <= |addresses| && builder.Valid() && !builder.failed
      invariant forall a: nat :: Has(builder.ranges, a) <==> UsedBy(addresses[..n], a)
    {
      UsedByNext(addresses, n);
      var ip := ParsedAddr(addresses[n]);
      if ip.Some? {
        builder.AddRange(One(ip.value));
      }
      n := n + 1;
    }
    assert addresses[..n] == addresses;
    builder.RemoveSet(pool);
    var r := builder.IPSet();
    s := r.value;
  }

  ghost predicate UsedBy(addresses: seq<IPAddress>, a: nat) {
    exists i :: 0 <= i < |addresses| && addresses[i].address == Single(a) && IsAddr(a)
  }

  lemma UsedByNext(addresses: seq<IPAddress>, n: nat)
    requires n < |addresses|
    ensures forall a: nat :: UsedBy(addresses[..n + 1], a) <==>
                             UsedBy(addresses[..n], a) || ParsedAddr(addresses[n]) == Some(a)
  {
    var front, more := addresses[..n], addresses[..n + 1];
    assert forall i :: 0 <= i < n ==> front[i] == more[i];
    assert more[n] == addresses[n];
  }
}
