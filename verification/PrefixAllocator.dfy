/** The prefix allocator of internal/poolutil/prefix.go on top of the trie search. */
module PrefixAllocator {
  import opened Wrappers
  import opened Powers
  import opened Netip
  import opened IPSets
  import opened Trie

  // ---------- configuration ----------

  /** An InClusterPrefixPoolSpec with its text fields parsed; None stands for an unparsable CIDR. */
  datatype PrefixPoolSpec = PrefixPoolSpec(
    prefixes: seq<Option<Prefix>>,
    allocationPrefixLength: int,
    gateway: Gateway,
    excludedPrefixes: seq<Entry>)

  datatype PrefixPoolConfig = PrefixPoolConfig(
    prefixes: seq<Option<Prefix>>,
    allocationPrefixLength: int,
    gateway: Gateway,
    excludedPrefixes: seq<Entry>)

  const DEFAULT_ALLOCATION_PREFIX_LENGTH := 64

  function EffectiveAllocationPrefixLength(length: int): int {
    if length == 0 then DEFAULT_ALLOCATION_PREFIX_LENGTH else length
  }

  function NewConfig(spec: PrefixPoolSpec): PrefixPoolConfig {
    PrefixPoolConfig(spec.prefixes, EffectiveAllocationPrefixLength(spec.allocationPrefixLength),
                     spec.gateway, spec.excludedPrefixes)
  }

  function ValidatedLength(config: PrefixPoolConfig): Option<int> {
    if config.allocationPrefixLength <= 0 || config.allocationPrefixLength > 128 then None
    else Some(config.allocationPrefixLength)
  }

  /** A pool CIDR must parse and be network aligned. */
  function PoolPrefixRange(entry: Option<Prefix>): Option<Range> {
    if entry.None? || !ValidPrefix(entry.value) || entry.value != Masked(entry.value) then None
    else Some(RangeOf(entry.value))
  }

  function PrefixesToIPSet(prefixes: seq<Option<Prefix>>): (s: Option<IPSet>)
    ensures s.Some? ==> Normal(s.value)
  {
    Collect(prefixes, PoolPrefixRange)
  }

  function AddressesToIPSet(entries: seq<Entry>): (s: Option<IPSet>)
    ensures s.Some? ==> Normal(s.value)
  {
    Collect(entries, EntryRange)
  }

  /** The set of a list of entries holds what the entries name, and fails on an entry that does not parse. */
  lemma EntriesMean(entries: seq<Entry>, a: nat)
    ensures AddressesToIPSet(entries).Some? <==> forall i :: 0 <= i < |entries| ==> Parses(entries[i])
    ensures AddressesToIPSet(entries).Some? ==>
              (Has(AddressesToIPSet(entries).value, a) <==> CoveredBySome(entries, a))
  {
    forall i | 0 <= i < |entries|
      ensures EntryRange(entries[i]).Some? <==> Parses(entries[i])
      ensures Parses(entries[i]) ==>
                ValidRange(EntryRange(entries[i]).value)
                && (InRange(EntryRange(entries[i]).value, a) <==> Covers(entries[i], a))
    {
      EntryRangeMeans(entries[i]);
      EntryRangeValid(entries[i]);
    }
    if AddressesToIPSet(entries).Some? {
      CollectHas(entries, EntryRange, a);
    }
  }

  /** What may not be handed out: the exclusions and the prefixes in use. The gateway blocks nothing. */
  function BlockedIPSet(config: PrefixPoolConfig, inUse: IPSet): (s: Option<IPSet>)
    requires Normal(inUse)
    ensures s.Some? ==> Normal(s.value)
  {
    var excluded := AddressesToIPSet(config.excludedPrefixes);
    if excluded.None? then None else Some(Union(Union([], excluded.value), inUse))
  }

  predicate ConfigOk(config: PrefixPoolConfig) {
    && ValidatedLength(config).Some?
    && PrefixesToIPSet(config.prefixes).Some?
    && AddressesToIPSet(config.excludedPrefixes).Some?
  }

  // ---------- slots ----------

  /** x starts a block of t bits inside p that the blocked set does not touch. */
  ghost predicate SlotIn(p: Prefix, t: int, blocked: IPSet, x: nat) {
    ValidPrefix(p) && t <= BitLen(p.addr) && FreeFit(p, blocked, x, BitLen(p.addr) - t)
  }

  ghost predicate SlotInSome(ps: seq<Prefix>, t: int, blocked: IPSet, x: nat) {
    exists i :: 0 <= i < |ps| && SlotIn(ps[i], t, blocked, x)
  }

  ghost predicate IsSlot(pool: IPSet, blocked: IPSet, t: int, x: nat) {
    IsAddr(x) && 0 < t <= BitLen(x) && FreeIn(pool, blocked, x, BitLen(x) - t)
  }

  ghost predicate FreeIn(pool: IPSet, blocked: IPSet, x: nat, h: nat) {
    Aligned(x, h) && Contains(pool, Block(x, h)) && !Overlaps(blocked, Block(x, h))
  }

  /** A block that starts inside a prefix has that prefix's family. */
  lemma FitsFamily(p: Prefix, x: nat, h: nat)
    requires IsMasked(p) && Fits(p, x, h)
    ensures IsAddr(x) && FamilyOf(x) == FamilyOf(p.addr) && p.addr + Size(p) <= ADDR_BOUND
  {
    MaskedRange(p);
    BlockInFamily(p.addr, HostBits(p));
    FamilySize(FamilyOf(p.addr));
  }

  lemma SlotFromAggregate(pool: IPSet, ps: seq<Prefix>, blocked: IPSet, t: int, x: nat, i: nat)
    requires 0 < t && Decomposes(ps, pool) && i < |ps| && IsMasked(ps[i]) && SlotIn(ps[i], t, blocked, x)
    ensures IsSlot(pool, blocked, t, x)
  {
    var h := BitLen(ps[i].addr) - t;
    FitsFamily(ps[i], x, h);
    assert FitsSome(ps, x, h) && DecomposesAt(ps, pool, x, h);
    assert FreeIn(pool, blocked, x, h);
  }

  lemma SlotToAggregate(pool: IPSet, ps: seq<Prefix>, blocked: IPSet, t: int, x: nat) returns (i: nat)
    requires 0 < t && Ascending(ps) && Decomposes(ps, pool) && IsSlot(pool, blocked, t, x)
    ensures i < |ps| && SlotIn(ps[i], t, blocked, x)
  {
    var h := BitLen(x) - t;
    assert FreeIn(pool, blocked, x, h) && DecomposesAt(ps, pool, x, h);
    i :| 0 <= i < |ps| && ValidPrefix(ps[i]) && Fits(ps[i], x, h);
    FitsFamily(ps[i], x, h);
  }

  lemma SlotInOneAggregate(ps: seq<Prefix>, blocked: IPSet, t: int, x: nat, i: nat, j: nat)
    requires Ascending(ps) && i < |ps| && j < |ps| && SlotIn(ps[i], t, blocked, x) && SlotIn(ps[j], t, blocked, x)
    ensures i == j
  {
    var h := BitLen(ps[i].addr) - t;
    FitsFamily(ps[i], x, h);
    FitsFamily(ps[j], x, BitLen(ps[j].addr) - t);
    FitsOnlyOne(ps, i, j, x, h);
  }

  /** A slot of the pool is a slot of exactly one of its maximal blocks, and conversely. */
  lemma SlotInAggregate(pool: IPSet, ps: seq<Prefix>, blocked: IPSet, t: int, x: nat)
    requires 0 < t && Ascending(ps) && Decomposes(ps, pool)
    ensures IsSlot(pool, blocked, t, x) <==> SlotInSome(ps, t, blocked, x)
    ensures forall i, j :: 0 <= i < |ps| && 0 <= j < |ps| ==>
              SlotIn(ps[i], t, blocked, x) && SlotIn(ps[j], t, blocked, x) ==> i == j
  {
    forall i, j | 0 <= i < |ps| && 0 <= j < |ps| && SlotIn(ps[i], t, blocked, x) && SlotIn(ps[j], t, blocked, x)
      ensures i == j
    {
      SlotInOneAggregate(ps, blocked, t, x, i, j);
    }
    if i :| 0 <= i < |ps| && SlotIn(ps[i], t, blocked, x) {
      SlotFromAggregate(pool, ps, blocked, t, x, i);
    }
    if IsSlot(pool, blocked, t, x) {
      var i := SlotToAggregate(pool, ps, blocked, t, x);
    }
  }

  // ---------- sortedPrefixes ----------

  /** The comparison function: by address, then by length. */
  predicate Before(p: Prefix, q: Prefix) {
    p.addr < q.addr || (p.addr == q.addr && p.bits <= q.bits)
  }

  ghost predicate Sorted(ps: seq<Prefix>) {
    forall i, j :: 0 <= i < j < |ps| ==> Before(ps[i], ps[j])
  }

  lemma HeadIsLeast(ps: seq<Prefix>, q: Prefix)
    requires Sorted(ps) && q in multiset(ps)
    ensures ps != [] && Before(ps[0], q)
  {
    assert q in ps;
    var i :| 0 <= i < |ps| && ps[i] == q;
  }

  lemma MultisetTail(ps: seq<Prefix>)
    requires ps != []
    ensures multiset(ps[1..]) == multiset(ps) - multiset{ps[0]} && ps == [ps[0]] + ps[1..]
  {
    assert ps == [ps[0]] + ps[1..];
  }

  /** The order is total, so a list has only one sorted arrangement. */
  lemma {:induction false} SortedUnique(ps: seq<Prefix>, qs: seq<Prefix>)
    requires Sorted(ps) && Sorted(qs) && multiset(ps) == multiset(qs)
    ensures ps == qs
    decreases |ps|
  {
    assert |multiset(ps)| == |ps| && |multiset(qs)| == |qs|;
    if ps != [] {
      assert ps[0] in multiset(ps) && qs[0] in multiset(qs);
      HeadIsLeast(ps, qs[0]);
      HeadIsLeast(qs, ps[0]);
      MultisetTail(ps);
      MultisetTail(qs);
      SortedUnique(ps[1..], qs[1..]);
    }
  }

  lemma AscendingSorted(ps: seq<Prefix>)
    requires Ascending(ps)
    ensures Sorted(ps)
  {
  }

  /** Sorts a copy in place; the argument, a value here, is left as it was. */
  method SortedPrefixes(prefixes: seq<Prefix>) returns (sorted: seq<Prefix>)
    ensures Sorted(sorted) && multiset(sorted) == multiset(prefixes)
    ensures Ascending(prefixes) ==> sorted == prefixes
  {
    var a := new Prefix[|prefixes|](i requires 0 <= i < |prefixes| => prefixes[i]);
    assert a[..] == prefixes;
    var n := 0;
    while n < a.Length
      invariant 0 <= n <= a.Length
      invariant Sorted(a[..n])
      invariant multiset(a[..]) == multiset(prefixes)
    {
      SinkInto(a, n);
      n := n + 1;
    }
    assert a[..n] == a[..];
    sorted := a[..];
    if Ascending(prefixes) {
      AscendingSorted(prefixes);
      SortedUnique(sorted, prefixes);
    }
  }

  /** Moves a[n] down into the sorted part before it. */
  method SinkInto(a: array<Prefix>, n: nat)
    requires n < a.Length && Sorted(a[..n])
    modifies a
    ensures Sorted(a[..n + 1]) && multiset(a[..]) == old(multiset(a[..]))
  {
    var j := n;
    while j > 0 && !Before(a[j - 1], a[j])
      invariant 0 <= j <= n
      invariant forall i, k :: 0 <= i < k <= n && k != j ==> Before(a[i], a[k])
      invariant multiset(a[..]) == old(multiset(a[..]))
    {
      a[j - 1], a[j] := a[j], a[j - 1];
      j := j - 1;
    }
  }

  // ---------- FindFreePrefix ----------

  /** The first free block in a list of aggregates: the lowest of all, because the list ascends. */
  function FirstFree(aggregates: seq<Prefix>, t: int, blocked: IPSet): (r: Option<Prefix>)
    requires Ascending(aggregates)
    ensures r.None? ==> forall x: nat :: !SlotInSome(aggregates, t, blocked, x)
    ensures r.Some? ==> IsMasked(r.value) && r.value.bits == t && SlotInSome(aggregates, t, blocked, r.value.addr)
    ensures r.Some? ==> forall x: nat :: SlotInSome(aggregates, t, blocked, x) ==> r.value.addr <= x
    decreases |aggregates|
  {
    if aggregates == [] then None
    else
      var found := FindFreeInAggregate(aggregates[0], t, blocked);
      AscendingTail(aggregates);
      FirstInHead(aggregates, t, blocked, found);
      if found.Some? then found else FirstFree(aggregates[1..], t, blocked)
  }

  lemma AscendingTail(ps: seq<Prefix>)
    requires Ascending(ps) && ps != []
    ensures Ascending(ps[1..]) && ps == [ps[0]] + ps[1..]
  {
    assert forall i :: 0 <= i < |ps| - 1 ==> ps[1..][i] == ps[i + 1];
  }

  lemma SlotInHeadOrTail(ps: seq<Prefix>, t: int, blocked: IPSet, x: nat)
    requires Ascending(ps) && ps != []
    ensures SlotInSome(ps, t, blocked, x) <==>
            SlotIn(ps[0], t, blocked, x) || SlotInSome(ps[1..], t, blocked, x)
    ensures SlotInSome(ps[1..], t, blocked, x) ==> ps[0].addr + Size(ps[0]) <= x
  {
    var rest := ps[1..];
    assert forall i :: 0 <= i < |rest| ==> rest[i] == ps[i + 1];
    if i :| 0 <= i < |ps| && SlotIn(ps[i], t, blocked, x) {
      assert i > 0 ==> SlotIn(rest[i - 1], t, blocked, x);
    }
    if i :| 0 <= i < |rest| && SlotIn(rest[i], t, blocked, x) {
      assert SlotIn(ps[i + 1], t, blocked, x);
    }
  }

  lemma FirstInHead(ps: seq<Prefix>, t: int, blocked: IPSet, found: Option<Prefix>)
    requires Ascending(ps) && ps != [] && found == FindFreeInAggregate(ps[0], t, blocked)
    ensures forall x: nat :: SlotInSome(ps, t, blocked, x) <==>
                             SlotIn(ps[0], t, blocked, x) || SlotInSome(ps[1..], t, blocked, x)
    ensures found.None? ==> forall x: nat :: !SlotIn(ps[0], t, blocked, x)
    ensures found.Some? ==> IsMasked(found.value) && found.value.bits == t
                            && SlotIn(ps[0], t, blocked, found.value.addr)
    ensures found.Some? ==> forall x: nat :: SlotInSome(ps, t, blocked, x) ==> found.value.addr <= x
  {
    forall x: nat
      ensures SlotInSome(ps, t, blocked, x) <==> SlotIn(ps[0], t, blocked, x) || SlotInSome(ps[1..], t, blocked, x)
      ensures SlotInSome(ps[1..], t, blocked, x) ==> ps[0].addr + Size(ps[0]) <= x
    {
      SlotInHeadOrTail(ps, t, blocked, x);
    }
    if t <= BitLen(ps[0].addr) {
      FindFreeIsFirst(ps[0], t, blocked);
      FirstIsSlot(ps[0], t, blocked, found);
    }
  }

  lemma FirstIsSlot(p: Prefix, t: int, blocked: IPSet, found: Option<Prefix>)
    requires IsMasked(p) && t <= BitLen(p.addr) && IsFirstFree(p, t, blocked, found)
    ensures found.None? ==> forall x: nat :: !SlotIn(p, t, blocked, x)
    ensures found.Some? ==> SlotIn(p, t, blocked, found.value.addr) && found.value.addr < p.addr + Size(p)
    ensures found.Some? ==> forall x: nat :: SlotIn(p, t, blocked, x) ==> found.value.addr <= x
  {
  }

  function FindFreePrefixSpec(config: PrefixPoolConfig, inUse: IPSet): Result<Prefix>
    requires Normal(inUse)
  {
    var length := ValidatedLength(config);
    if length.None? then Err(BadConfig)
    else
      var pool := PrefixesToIPSet(config.prefixes);
      if pool.None? then Err(BadConfig)
      else
        var blocked := BlockedIPSet(config, inUse);
        if blocked.None? then Err(BadConfig)
        else
          match FirstFree(Prefixes(pool.value), length.value, blocked.value)
          case Some(p) => Ok(p)
          case None => Err(NoneAvailable)
  }

  method FindFreePrefix(config: PrefixPoolConfig, inUse: IPSet) returns (r: Result<Prefix>)
    requires Normal(inUse)
    ensures r == FindFreePrefixSpec(config, inUse)
  {
    var length := ValidatedLength(config);
    if length.None? {
      return Err(BadConfig);
    }
    var pool := BuildPrefixSet(config.prefixes);
    if pool.None? {
      return Err(BadConfig);
    }
    var blocked := BuildBlockedSet(config, inUse);
    if blocked.None? {
      return Err(BadConfig);
    }
    var aggregates := SortedPrefixes(Prefixes(pool.value));
    var free := SearchAggregates(aggregates, length.value, blocked.value);
    return if free.Some? then Ok(free.value) else Err(NoneAvailable);
  }

  method SearchAggregates(aggregates: seq<Prefix>, t: int, blocked: IPSet) returns (free: Option<Prefix>)
    requires Ascending(aggregates)
    ensures free == FirstFree(aggregates, t, blocked)
  {
    var n := 0;
    while n < |aggregates|
      invariant 0 <= n <= |aggregates| && Ascending(aggregates[n..])
      invariant FirstFree(aggregates[n..], t, blocked) == FirstFree(aggregates, t, blocked)
    {
      free := FindFreeInAggregate(aggregates[n], t, blocked);
      if free.Some? {
        return free;
      }
      AscendingTail(aggregates[n..]);
      assert aggregates[n..][1..] == aggregates[n + 1..];
      n := n + 1;
    }
    return None;
  }

  /** PrefixesToIPSet: adds the entries to a builder one by one. */
  method BuildPrefixSet(prefixes: seq<Option<Prefix>>) returns (s: Option<IPSet>)
    ensures s == PrefixesToIPSet(prefixes)
  {
    var builder := new IPSetBuilder();
    var n := 0;
    while n < |prefixes|
      invariant 0 <= n <= |prefixes| && builder.Valid() && !builder.failed
      invariant PrefixesToIPSet(prefixes[..n]) == Some(builder.ranges)
    {
      assert prefixes[..n + 1][..n] == prefixes[..n];
      var entry := prefixes[n];
      if entry.None? || !ValidPrefix(entry.value) || entry.value != Masked(entry.value) {
        assert PoolPrefixRange(prefixes[n]).None?;
        return None;
      }
      assert PoolPrefixRange(entry) == Some(RangeOf(entry.value)) && prefixes[..n + 1][n] == entry;
      builder.AddPrefix(entry.value);
      n := n + 1;
    }
    assert prefixes[..n] == prefixes;
    s := builder.IPSet();
  }

  /** AddressesToIPSet: adds the set of each entry to a builder. */
  method BuildAddressSet(entries: seq<Entry>) returns (s: Option<IPSet>)
    ensures s == AddressesToIPSet(entries)
  {
    var builder := new IPSetBuilder();
    var n := 0;
    while n < |entries|
      invariant 0 <= n <= |entries| && builder.Valid() && !builder.failed
      invariant AddressesToIPSet(entries[..n]) == Some(builder.ranges)
    {
      assert entries[..n + 1][..n] == entries[..n];
      var range := EntryRange(entries[n]);
      if range.None? {
        return None;
      }
      EntryRangeValid(entries[n]);
      builder.AddRange(range.value);
      n := n + 1;
    }
    assert entries[..n] == entries;
    s := builder.IPSet();
  }

  /** prefixPoolBlockedIPSet. */
  method BuildBlockedSet(config: PrefixPoolConfig, inUse: IPSet) returns (s: Option<IPSet>)
    requires Normal(inUse)
    ensures s == BlockedIPSet(config, inUse)
  {
    var builder := new IPSetBuilder();
    if |config.excludedPrefixes| > 0 {
      var excluded := BuildAddressSet(config.excludedPrefixes);
      if excluded.None? {
        return None;
      }
      builder.AddSet(excluded.value);
    }
    builder.AddSet(inUse);
    s := builder.IPSet();
  }

  // ---------- PrefixCandidateCount ----------

  ghost function SlotsIn(ps: seq<Prefix>, t: int, blocked: IPSet): set<nat> {
    set x: nat | x < ADDR_BOUND && SlotInSome(ps, t, blocked, x)
  }

  /** The saturated sum over a list of aggregates is the saturated number of slots in them. */
  function CountAll(aggregates: seq<Prefix>, t: int, blocked: IPSet): (n: nat)
    requires Ascending(aggregates)
    ensures n == Capped(|SlotsIn(aggregates, t, blocked)|)
    decreases |aggregates|
  {
    if aggregates == [] then
      assert SlotsIn(aggregates, t, blocked) == {};
      0
    else
      var last := |aggregates| - 1;
      var front := CountAll(aggregates[..last], t, blocked);
      SlotsInLast(aggregates, t, blocked);
      AddIntCapped(front, CountInAggregate(aggregates[last], t, blocked))
  }

  lemma SlotInLastOrFront(ps: seq<Prefix>, t: int, blocked: IPSet, x: nat)
    requires Ascending(ps) && ps != []
    ensures var (p, front) := (ps[|ps| - 1], ps[..|ps| - 1]);
      && (SlotInSome(ps, t, blocked, x) <==> SlotInSome(front, t, blocked, x) || SlotIn(p, t, blocked, x))
      && !(SlotInSome(front, t, blocked, x) && SlotIn(p, t, blocked, x))
  {
    var k := |ps| - 1;
    var p, front := ps[k], ps[..k];
    if i :| 0 <= i < |ps| && SlotIn(ps[i], t, blocked, x) {
      assert i < k ==> SlotIn(front[i], t, blocked, x);
    }
    if i :| 0 <= i < |front| && SlotIn(front[i], t, blocked, x) {
      assert SlotIn(ps[i], t, blocked, x);
      assert ps[i].addr + Size(ps[i]) <= p.addr;
    }
  }

  lemma SlotsInLast(ps: seq<Prefix>, t: int, blocked: IPSet)
    requires Ascending(ps) && ps != []
    ensures AddIntCapped(Capped(|SlotsIn(ps[..|ps| - 1], t, blocked)|),
                         CountInAggregate(ps[|ps| - 1], t, blocked)) ==
            Capped(|SlotsIn(ps, t, blocked)|)
  {
    var k := |ps| - 1;
    var p, front := ps[k], ps[..k];
    var own := set x: nat | x < ADDR_BOUND && SlotIn(p, t, blocked, x);
    forall x: nat
      ensures SlotInSome(ps, t, blocked, x) <==> SlotInSome(front, t, blocked, x) || SlotIn(p, t, blocked, x)
      ensures !(SlotInSome(front, t, blocked, x) && SlotIn(p, t, blocked, x))
    {
      SlotInLastOrFront(ps, t, blocked, x);
    }
    assert SlotsIn(ps, t, blocked) == SlotsIn(front, t, blocked) + own;
    assert SlotsIn(front, t, blocked) * own == {};
    OwnSlots(p, t, blocked, own);
    AddCappedIsCapped(|SlotsIn(front, t, blocked)|, |own|);
  }

  lemma OwnSlots(p: Prefix, t: int, blocked: IPSet, own: set<nat>)
    requires IsMasked(p) && own == set x: nat | x < ADDR_BOUND && SlotIn(p, t, blocked, x)
    ensures CountInAggregate(p, t, blocked) == Capped(|own|)
  {
    if t <= BitLen(p.addr) {
      var h := BitLen(p.addr) - t;
      CountIsCardinality(p, t, h, blocked);
      forall x: nat | FreeFit(p, blocked, x, h)
        ensures x < p.addr + Size(p) <= ADDR_BOUND
      {
        FitsFamily(p, x, h);
      }
      assert own == FreeFits(p, blocked, h);
    } else {
      assert own == {};
    }
  }

  function PrefixCandidateCountSpec(config: PrefixPoolConfig): Result<nat> {
    var length := ValidatedLength(config);
    if length.None? then Err(BadConfig)
    else
      var pool := PrefixesToIPSet(config.prefixes);
      if pool.None? then Err(BadConfig)
      else
        var blocked := BlockedIPSet(config, []);
        if blocked.None? then Err(BadConfig)
        else
          Ok(CountAll(Prefixes(pool.value), length.value, blocked.value))
  }

  lemma CountAllStep(ps: seq<Prefix>, n: nat, t: int, blocked: IPSet)
    requires Ascending(ps) && n < |ps|
    ensures Ascending(ps[..n]) && Ascending(ps[..n + 1])
    ensures CountAll(ps[..n + 1], t, blocked) ==
            AddIntCapped(CountAll(ps[..n], t, blocked), CountInAggregate(ps[n], t, blocked))
  {
    var front := ps[..n + 1];
    assert forall i :: 0 <= i <= n ==> front[i] == ps[i];
    assert front[..n] == ps[..n];
  }

  method PrefixCandidateCount(config: PrefixPoolConfig) returns (r: Result<nat>)
    ensures r == PrefixCandidateCountSpec(config)
  {
    var length := ValidatedLength(config);
    if length.None? {
      return Err(BadConfig);
    }
    var pool := BuildPrefixSet(config.prefixes);
    if pool.None? {
      return Err(BadConfig);
    }
    var blocked := BuildBlockedSet(config, []);
    if blocked.None? {
      return Err(BadConfig);
    }
    var aggregates := SortedPrefixes(Prefixes(pool.value));
    var total := CountAggregates(aggregates, length.value, blocked.value);
    return Ok(total);
  }

  method CountAggregates(aggregates: seq<Prefix>, t: int, blocked: IPSet) returns (total: nat)
    requires Ascending(aggregates)
    ensures total == CountAll(aggregates, t, blocked)
  {
    var n := 0;
    total := 0;
    while n < |aggregates|
      invariant 0 <= n <= |aggregates| && Ascending(aggregates[..n])
      invariant total == CountAll(aggregates[..n], t, blocked)
    {
      CountAllStep(aggregates, n, t, blocked);
      total := AddIntCapped(total, CountInAggregate(aggregates[n], t, blocked));
      n := n + 1;
    }
    assert aggregates[..n] == aggregates;
  }

  // ---------- PrefixIsAllocatable ----------

  predicate PrefixIsAllocatable(prefix: Prefix, config: PrefixPoolConfig) {
    ValidPrefix(prefix) &&
    var length := ValidatedLength(config);
    length.Some? &&
    var masked := Masked(prefix);
    masked.bits == length.value &&
    var pool := PrefixesToIPSet(config.prefixes);
    pool.Some? &&
    Contains(pool.value, RangeOf(masked)) &&
    var blocked := BlockedIPSet(config, []);
    blocked.Some? && !Overlaps(blocked.value, RangeOf(masked))
  }
}
