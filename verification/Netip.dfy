/**
 Addresses, prefixes and ranges, as the standard library's net/netip and the netipx package offer them.

 An address is its position in netip's own total order, which puts every IPv4 address before every IPv6
 address: IPv4 addresses are 0 to 2^32 - 1 and IPv6 addresses are 2^128 to 2^129 - 1. One number thus holds
 both the family and the value, and sets that mix families need no special care. The IPv6 offset is a multiple
 of every IPv6 block size, so alignment of a block (section 3.1 of RFC 4632, section 2.3 of RFC 4291) is
 alignment of this number.
 */
module Netip {
  import opened Wrappers
  import opened Powers

  datatype Family = IPv4 | IPv6

  const V6_BASE: nat := 0x1_0000_0000_0000_0000_0000_0000_0000_0000
  const V4_COUNT: nat := 0x1_0000_0000

  /** Every address is below this bound. */
  const ADDR_BOUND: nat := V6_BASE + V6_BASE

  function Width(f: Family): nat {
    if f.IPv4? then 32 else 128
  }

  function Base(f: Family): nat {
    if f.IPv4? then 0 else V6_BASE
  }

  function Count(f: Family): nat {
    if f.IPv4? then V4_COUNT else V6_BASE
  }

  function FamilyOf(a: nat): Family {
    if a < V6_BASE then IPv4 else IPv6
  }

  /** The number of bits in an address of a's family (Addr.BitLen). */
  function BitLen(a: nat): nat {
    Width(FamilyOf(a))
  }

  predicate InFamily(f: Family, a: nat) {
    Base(f) <= a < Base(f) + Count(f)
  }

  predicate IsAddr(a: nat) {
    InFamily(FamilyOf(a), a)
  }

  lemma FamilySize(f: Family)
    ensures Pow2(Width(f)) == Count(f)
    ensures Aligned(Base(f), Width(f))
    ensures Base(f) + Count(f) <= ADDR_BOUND
  {
    Pow2Sizes();
    AlignedZero(32);
    AlignedPow2(128, 128);
  }

  lemma Pow2Double(j: nat, v: nat, w: nat)
    requires Pow2(j) == v && w == v * v
    ensures Pow2(j + j) == w
  {
    Pow2Add(j, j);
  }

  lemma Pow2Sizes()
    ensures Pow2(32) == V4_COUNT && Pow2(128) == V6_BASE
  {
    Pow2Double(1, 2, 4);
    Pow2Double(2, 4, 0x10);
    Pow2Double(4, 0x10, 0x100);
    Pow2Double(8, 0x100, 0x1_0000);
    Pow2Double(16, 0x1_0000, 0x1_0000_0000);
    Pow2Double(32, 0x1_0000_0000, 0x1_0000_0000_0000_0000);
    Pow2Double(64, 0x1_0000_0000_0000_0000, V6_BASE);
  }

  lemma {:induction false} Pow2Add(j: nat, k: nat)
    ensures Pow2(j + k) == Pow2(j) * Pow2(k)
    decreases k
  {
    if k > 0 {
      Pow2Add(j, k - 1);
      assert Pow2(j + k) == 2 * Pow2(j + (k - 1));
    }
  }

  // ---------- ranges ----------

  /** A closed range of addresses (netipx.IPRange). */
  datatype Range = Range(from: nat, to: nat)

  /** Both ends are addresses of one family, in order (IPRange.IsValid). */
  predicate ValidRange(r: Range) {
    r.from <= r.to && IsAddr(r.from) && IsAddr(r.to) && FamilyOf(r.from) == FamilyOf(r.to)
  }

  predicate InRange(r: Range, a: nat) {
    r.from <= a <= r.to
  }

  /** Every address of `inner` is an address of `outer`. */
  predicate Within(inner: Range, outer: Range) {
    outer.from <= inner.from && inner.to <= outer.to
  }

  predicate Meets(r: Range, q: Range) {
    r.from <= q.to && q.from <= r.to
  }

  /** The address after a; there is none after the last one of a family (Addr.Next). */
  function NextAddr(a: nat): Option<nat> {
    if IsAddr(a) && IsAddr(a + 1) then Some(a + 1) else None
  }

  // ---------- prefixes ----------

  /** An address and a prefix length; host bits may be set and the length may be out of bounds (netip.Prefix). */
  datatype Prefix = Prefix(addr: nat, bits: int)

  predicate ValidPrefix(p: Prefix) {
    IsAddr(p.addr) && 0 <= p.bits <= BitLen(p.addr)
  }

  function HostBits(p: Prefix): nat
    requires ValidPrefix(p)
  {
    BitLen(p.addr) - p.bits
  }

  function Size(p: Prefix): nat
    requires ValidPrefix(p)
  {
    Pow2(HostBits(p))
  }

  /** The prefix with its host bits cleared (Prefix.Masked). */
  function Masked(p: Prefix): (m: Prefix)
    requires ValidPrefix(p)
    ensures IsMasked(m) && FamilyOf(m.addr) == FamilyOf(p.addr)
  {
    MaskInFamily(p);
    Prefix(AlignDown(p.addr, HostBits(p)), p.bits)
  }

  predicate IsMasked(p: Prefix) {
    ValidPrefix(p) && Aligned(p.addr, HostBits(p))
  }

  /** The addresses of a prefix (netipx.RangeOfPrefix). */
  function RangeOf(p: Prefix): (r: Range)
    requires ValidPrefix(p)
    ensures ValidRange(r) && InRange(r, p.addr)
  {
    MaskInFamily(p);
    var first := AlignDown(p.addr, HostBits(p));
    Range(first, first + Size(p) - 1)
  }

  /** An aligned block of h host bits that starts at an address of a family stays in that family. */
  lemma BlockInFamily(a: nat, h: nat)
    requires IsAddr(a) && h <= BitLen(a) && Aligned(a, h)
    ensures a + Pow2(h) <= Base(FamilyOf(a)) + Count(FamilyOf(a))
    ensures ValidRange(Range(a, a + Pow2(h) - 1))
  {
    var f := FamilyOf(a);
    FamilySize(f);
    AlignedNest(a, h, Base(f), Width(f));
  }

  lemma MaskInFamily(p: Prefix)
    requires ValidPrefix(p)
    ensures var m, h := AlignDown(p.addr, HostBits(p)), HostBits(p);
      IsAddr(m) && FamilyOf(m) == FamilyOf(p.addr) && Aligned(m, h) && ValidRange(Range(m, m + Pow2(h) - 1))
  {
    var f, h := FamilyOf(p.addr), HostBits(p);
    var m := AlignDown(p.addr, h);
    AlignDownAligned(p.addr, h);
    FamilySize(f);
    AlignedFiner(Base(f), Width(f), h);
    if m < Base(f) {
      AlignedApart(m, Base(f), h);
      assert false;
    }
    BlockInFamily(m, h);
  }

  /** Masking keeps the family and clears exactly the host bits. */
  lemma MaskedFacts(p: Prefix)
    requires ValidPrefix(p)
    ensures IsMasked(Masked(p)) && FamilyOf(Masked(p).addr) == FamilyOf(p.addr)
    ensures IsMasked(p) <==> Masked(p) == p
    ensures RangeOf(Masked(p)) == RangeOf(p) && ValidRange(RangeOf(p)) && InRange(RangeOf(p), p.addr)
    ensures RangeOf(p) == Range(Masked(p).addr, Masked(p).addr + Size(p) - 1)
  {
    var h := HostBits(p);
    MaskInFamily(p);
    AlignDownAligned(p.addr, h);
    AlignDownAligned(Masked(p).addr, h);
  }

  lemma MaskedRange(p: Prefix)
    requires IsMasked(p)
    ensures Masked(p) == p && RangeOf(p) == Range(p.addr, p.addr + Size(p) - 1)
    ensures ValidRange(RangeOf(p))
  {
    MaskedFacts(p);
  }

  /** The prefix that holds a whole family: 0.0.0.0/0 or ::/0. */
  function Root(f: Family): (p: Prefix) {
    Prefix(Base(f), 0)
  }

  lemma RootMasked(f: Family)
    ensures IsMasked(Root(f)) && FamilyOf(Base(f)) == f && Size(Root(f)) == Count(f)
  {
    FamilySize(f);
    assert HostBits(Root(f)) == Width(f);
  }

  // ---------- textual entries, already parsed ----------

  /** A pool entry: an address, a CIDR, a hyphenated range, or text that is none of them. */
  datatype Entry = Single(a: nat) | Cidr(p: Prefix) | Span(from: nat, to: nat) | Garbage

  /** The addresses an entry stands for; None when the source reports a parse error. */
  function EntryRange(e: Entry): (r: Option<Range>)
  {
    match e
    case Single(a) => if IsAddr(a) then Some(Range(a, a)) else None
    case Cidr(p) => if ValidPrefix(p) then Some(RangeOf(p)) else None
    case Span(from, to) => if ValidRange(Range(from, to)) then Some(Range(from, to)) else None
    case Garbage => None
  }

  /** b lies in the block of the first `bits` bits of a. */
  predicate SameBits(a: nat, b: nat, bits: int)
    requires 0 <= bits <= BitLen(a)
  {
    FamilyOf(a) == FamilyOf(b) && a / Pow2(BitLen(a) - bits) == b / Pow2(BitLen(a) - bits)
  }

  lemma RangeIsSameBits(p: Prefix, a: nat)
    requires ValidPrefix(p)
    ensures InRange(RangeOf(p), a) <==> SameBits(p.addr, a, p.bits)
  {
    MaskedFacts(p);
    SameQuotient(a, p.addr, HostBits(p));
  }

  /** The entry is well-formed text of its kind. */
  predicate Parses(e: Entry) {
    match e
    case Single(a) => IsAddr(a)
    case Cidr(p) => IsAddr(p.addr) && 0 <= p.bits <= BitLen(p.addr)
    case Span(from, to) => IsAddr(from) && IsAddr(to) && FamilyOf(from) == FamilyOf(to) && from <= to
    case Garbage => false
  }

  /** The addresses that a well-formed entry names. */
  predicate Covers(e: Entry, a: nat)
    requires Parses(e)
  {
    match e
    case Single(x) => a == x
    case Cidr(p) => SameBits(p.addr, a, p.bits)
    case Span(from, to) => from <= a <= to
  }

  ghost predicate CoveredBySome(entries: seq<Entry>, a: nat) {
    exists i :: 0 <= i < |entries| && Parses(entries[i]) && Covers(entries[i], a)
  }

  /** Every address that the entry names is of one family. */
  ghost predicate OnlyFamily(e: Entry, f: Family) {
    Parses(e) && forall a: nat :: Covers(e, a) ==> FamilyOf(a) == f
  }

  lemma OnlyFamilyMeans(e: Entry, f: Family)
    ensures OnlyFamily(e, f) <==> EntryRange(e).Some? && FamilyOf(EntryRange(e).value.from) == f
  {
    EntryRangeMeans(e);
    EntryRangeValid(e);
    if Parses(e) {
      assert InRange(EntryRange(e).value, EntryRange(e).value.from);
    }
  }

  /** EntryRange is the range of exactly the addresses that the entry names. */
  lemma EntryRangeMeans(e: Entry)
    ensures EntryRange(e).Some? <==> Parses(e)
    ensures Parses(e) ==> forall a: nat :: InRange(EntryRange(e).value, a) <==> Covers(e, a)
  {
    if e.Cidr? && Parses(e) {
      forall a: nat
        ensures InRange(EntryRange(e).value, a) <==> Covers(e, a)
      {
        RangeIsSameBits(e.p, a);
      }
    }
  }

  lemma EntryRangeValid(e: Entry)
    ensures EntryRange(e).Some? ==> ValidRange(EntryRange(e).value)
  {
    if e.Cidr? && ValidPrefix(e.p) {
      MaskedFacts(e.p);
    }
  }

  /** An optional address field that may hold unparsable text. */
  datatype Gateway = NoGateway | Gateway(a: nat) | BadGateway
}
