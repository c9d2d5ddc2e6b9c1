/**
 The binary trie of CIDR blocks: splitting a block in halves, the decomposition of a range into maximal aligned
 blocks, and the search and count of free blocks of one length (internal/poolutil/prefix.go).
 */
module Trie {
  import opened Wrappers
  import opened Powers
  import opened Netip
  import opened IPSets

  // ---------- blocks ----------

  /** x starts a block of 2^h addresses that lies inside p. */
  ghost predicate Fits(p: Prefix, x: nat, h: nat)
    requires ValidPrefix(p)
  {
    Aligned(x, h) && p.addr <= x && x + Pow2(h) <= p.addr + Size(p)
  }

  function Block(x: nat, h: nat): Range {
    Range(x, x + Pow2(h) - 1)
  }

  // ---------- splitPrefix ----------

  /** l and r tile p, lower half first, each one bit longer. */
  ghost predicate Halves(p: Prefix, l: Prefix, r: Prefix) {
    && IsMasked(p) && IsMasked(l) && IsMasked(r)
    && l.bits == p.bits + 1 && r.bits == p.bits + 1
    && FamilyOf(l.addr) == FamilyOf(p.addr) && FamilyOf(r.addr) == FamilyOf(p.addr)
    && l.addr == p.addr && r.addr == p.addr + Size(l)
    && Size(l) == Size(r) && Size(p) == Size(l) + Size(r)
  }

  lemma HalfPrefix(p: Prefix, x: nat)
    requires IsMasked(p) && HostBits(p) > 0
    requires x == p.addr || x == p.addr + Pow2(HostBits(p) - 1)
    ensures IsAddr(x) && FamilyOf(x) == FamilyOf(p.addr)
    ensures var q := Prefix(x, p.bits + 1);
      && IsMasked(q) && Masked(q) == q && HostBits(q) == HostBits(p) - 1
      && RangeOf(q) == Range(x, x + Pow2(HostBits(p) - 1) - 1)
  {
    AlignedHalf(p.addr, HostBits(p));
    BlockInFamily(p.addr, HostBits(p));
    MaskedRange(Prefix(x, p.bits + 1));
  }

  /** The two halves of a prefix, lower half first; None only for a single address (or an invalid prefix). */
  function SplitPrefix(p: Prefix): (r: Option<(Prefix, Prefix)>)
    ensures IsMasked(p) ==> (r.None? <==> HostBits(p) == 0)
    ensures IsMasked(p) && r.Some? ==> Halves(p, r.value.0, r.value.1)
  {
    if !ValidPrefix(p) then None
    else if p.bits >= BitLen(p.addr) then None
    else
      var left := Masked(Prefix(p.addr, p.bits + 1));
      SplitFacts(p);
      var next := NextAddr(RangeOf(left).to);
      if next.None? then None
      else if !ValidPrefix(Prefix(next.value, p.bits + 1)) then None
      else (var right := Masked(Prefix(next.value, p.bits + 1)); Some((left, right)))
  }

  lemma SplitFacts(p: Prefix)
    requires ValidPrefix(p) && HostBits(p) > 0
    ensures var left := Masked(Prefix(p.addr, p.bits + 1));
      && ValidPrefix(left)
      && (IsMasked(p) ==>
            var x := p.addr + Pow2(HostBits(p) - 1);
            && left == Prefix(p.addr, p.bits + 1) && NextAddr(RangeOf(left).to) == Some(x)
            && Masked(Prefix(x, p.bits + 1)) == Prefix(x, p.bits + 1)
            && Halves(p, left, Prefix(x, p.bits + 1)))
  {
    MaskedFacts(Prefix(p.addr, p.bits + 1));
    if IsMasked(p) {
      var x := p.addr + Pow2(HostBits(p) - 1);
      HalfPrefix(p, p.addr);
      HalfPrefix(p, x);
    }
  }

  /** A block smaller than p lies inside p exactly when it lies inside one of p's halves. */
  lemma FitsInHalf(p: Prefix, l: Prefix, r: Prefix, x: nat, h: nat)
    requires Halves(p, l, r) && h < HostBits(p)
    ensures Fits(p, x, h) <==> Fits(l, x, h) || Fits(r, x, h)
    ensures !(Fits(l, x, h) && Fits(r, x, h))
  {
    if Fits(p, x, h) && x < r.addr {
      AlignedNest(x, h, l.addr, HostBits(l));
    }
  }

  // ---------- IPSet.Prefixes ----------

  ghost predicate Spans(p: Prefix, lo: nat, hi: nat) {
    IsMasked(p) && p.addr <= lo <= hi < p.addr + Size(p)
  }

  /** Masked prefixes whose blocks follow one another without overlap. */
  ghost predicate Ascending(ps: seq<Prefix>) {
    && (forall i :: 0 <= i < |ps| ==> IsMasked(ps[i]))
    && (forall i, j :: 0 <= i < j < |ps| ==> ps[i].addr + Size(ps[i]) <= ps[j].addr)
  }

  ghost predicate FitsSome(ps: seq<Prefix>, x: nat, h: nat) {
    exists i :: 0 <= i < |ps| && ValidPrefix(ps[i]) && Fits(ps[i], x, h)
  }

  ghost predicate InBand(ps: seq<Prefix>, lo: nat, hi: nat) {
    forall i :: 0 <= i < |ps| ==> ValidPrefix(ps[i]) && lo <= ps[i].addr && ps[i].addr + Size(ps[i]) - 1 <= hi
  }

  lemma AscendingConcat(ps: seq<Prefix>, qs: seq<Prefix>, lo: nat, mid: nat, hi: nat)
    requires Ascending(ps) && Ascending(qs) && lo < mid <= hi
    requires InBand(ps, lo, mid - 1) && InBand(qs, mid, hi)
    ensures Ascending(ps + qs) && InBand(ps + qs, lo, hi)
  {
  }

  lemma FitsSomeConcat(ps: seq<Prefix>, qs: seq<Prefix>, x: nat, h: nat)
    ensures FitsSome(ps + qs, x, h) <==> FitsSome(ps, x, h) || FitsSome(qs, x, h)
  {
    var all := ps + qs;
    if i :| 0 <= i < |ps| && ValidPrefix(ps[i]) && Fits(ps[i], x, h) {
      assert Fits(all[i], x, h);
    }
    if i :| 0 <= i < |qs| && ValidPrefix(qs[i]) && Fits(qs[i], x, h) {
      assert Fits(all[|ps| + i], x, h);
    }
    if i :| 0 <= i < |all| && ValidPrefix(all[i]) && Fits(all[i], x, h) {
      assert if i < |ps| then Fits(ps[i], x, h) else Fits(qs[i - |ps|], x, h);
    }
  }

  ghost predicate TilesRange(ps: seq<Prefix>, f: Family, lo: nat, hi: nat) {
    Ascending(ps) && InBand(ps, lo, hi) && forall i :: 0 <= i < |ps| ==> FamilyOf(ps[i].addr) == f
  }

  lemma TilesConcat(ps: seq<Prefix>, qs: seq<Prefix>, f: Family, lo: nat, mid: nat, hi: nat)
    requires lo < mid <= hi && TilesRange(ps, f, lo, mid - 1) && TilesRange(qs, f, mid, hi)
    ensures TilesRange(ps + qs, f, lo, hi)
  {
    AscendingConcat(ps, qs, lo, mid, hi);
  }

  /** Every aligned block between lo and hi, of any size, lies inside one of the blocks ps. */
  ghost predicate Maximal(ps: seq<Prefix>, lo: nat, hi: nat) {
    forall x: nat, h: nat :: Aligned(x, h) && lo <= x && x + Pow2(h) - 1 <= hi ==> FitsSome(ps, x, h)
  }

  lemma MaximalWhole(p: Prefix)
    requires IsMasked(p)
    ensures Maximal([p], p.addr, p.addr + Size(p) - 1)
  {
    forall x: nat, h: nat | Aligned(x, h) && p.addr <= x && x + Pow2(h) - 1 <= p.addr + Size(p) - 1
      ensures FitsSome([p], x, h)
    {
      assert Fits([p][0], x, h);
    }
  }

  lemma MaximalConcat(root: Prefix, l: Prefix, r: Prefix, ls: seq<Prefix>, rs: seq<Prefix>, lo: nat, hi: nat)
    requires Halves(root, l, r) && Spans(root, lo, hi) && lo < r.addr <= hi
    requires !(lo == root.addr && hi == root.addr + Size(root) - 1)
    requires Maximal(ls, lo, r.addr - 1) && Maximal(rs, r.addr, hi)
    ensures Maximal(ls + rs, lo, hi)
  {
    forall x: nat, h: nat | Aligned(x, h) && lo <= x && x + Pow2(h) - 1 <= hi
      ensures FitsSome(ls + rs, x, h)
    {
      FitsSmaller(root, x, h, lo, hi);
      FitsInHalf(root, l, r, x, h);
      FitsSomeConcat(ls, rs, x, h);
    }
  }

  /**
   The maximal aligned blocks of the range lo to hi, which lies inside root, in address order. The blocks are
   aligned, ascend without overlap and stay inside the range, and no aligned block of the range straddles two.
   */
  function RangePrefixes(root: Prefix, f: Family, lo: nat, hi: nat): (ps: seq<Prefix>)
    requires Spans(root, lo, hi) && FamilyOf(root.addr) == f
    ensures TilesRange(ps, f, lo, hi) && Maximal(ps, lo, hi)
    decreases HostBits(root)
  {
    if lo == root.addr && hi == root.addr + Size(root) - 1 then
      MaximalWhole(root);
      [root]
    else
      var (l, r) := SplitPrefix(root).value;
      if hi < r.addr then RangePrefixes(l, f, lo, hi)
      else if r.addr <= lo then RangePrefixes(r, f, lo, hi)
      else
        var ls := RangePrefixes(l, f, lo, r.addr - 1);
        var rs := RangePrefixes(r, f, r.addr, hi);
        TilesConcat(ls, rs, f, lo, r.addr, hi);
        MaximalConcat(root, l, r, ls, rs, lo, hi);
        ls + rs
  }

  /** A block inside a proper part of root is smaller than root. */
  lemma FitsSmaller(root: Prefix, x: nat, h: nat, lo: nat, hi: nat)
    requires IsMasked(root) && root.addr <= lo <= hi < root.addr + Size(root)
    requires !(lo == root.addr && hi == root.addr + Size(root) - 1)
    requires Aligned(x, h) && lo <= x && x + Pow2(h) - 1 <= hi
    ensures h < HostBits(root) && Fits(root, x, h)
  {
    if h >= HostBits(root) {
      Pow2Monotone(HostBits(root), h);
      assert false;
    }
  }

  /** An aligned block of any size lies inside the set exactly when it lies inside one of the blocks ps. */
  ghost predicate Decomposes(ps: seq<Prefix>, s: IPSet) {
    forall x: nat, h: nat :: DecomposesAt(ps, s, x, h)
  }

  ghost predicate DecomposesAt(ps: seq<Prefix>, s: IPSet, x: nat, h: nat) {
    FitsSome(ps, x, h) <==> Aligned(x, h) && Contains(s, Block(x, h))
  }

  /**
   All maximal aligned blocks of a set, in address order (netipx.IPSet.Prefixes). They are disjoint, so every
   aligned block inside the set lies inside exactly one of them.
   */
  function Prefixes(s: IPSet): (ps: seq<Prefix>)
    requires Normal(s)
    ensures Ascending(ps) && Decomposes(ps, s)
    ensures s != [] ==> InBand(ps, s[0].from, s[|s| - 1].to)
    decreases |s|
  {
    if s == [] then []
    else
      NormalTail(s);
      var f := FamilyOf(s[0].from);
      assert ValidRange(s[0]);
      RootMasked(f);
      var head := RangePrefixes(Root(f), f, s[0].from, s[0].to);
      var rest := Prefixes(s[1..]);
      PrefixesJoin(s, f, head, rest);
      head + rest
  }

  lemma PrefixesJoin(s: IPSet, f: Family, head: seq<Prefix>, rest: seq<Prefix>)
    requires Normal(s) && s != []
    requires TilesRange(head, f, s[0].from, s[0].to) && Maximal(head, s[0].from, s[0].to)
    requires Ascending(rest) && Decomposes(rest, s[1..])
    requires |s| > 1 ==> InBand(rest, s[1].from, s[|s| - 1].to)
    requires |s| == 1 ==> rest == []
    ensures Ascending(head + rest) && Decomposes(head + rest, s)
    ensures InBand(head + rest, s[0].from, s[|s| - 1].to)
  {
    var last := |s| - 1;
    assert ValidRange(s[0]) && ValidRange(s[last]);
    if last > 0 {
      assert ValidRange(s[1]) && s[0].to + 1 < s[1].from && (last > 1 ==> s[1].to < s[last].from);
      assert InBand(rest, s[0].to + 1, s[last].to);
      AscendingConcat(head, rest, s[0].from, s[0].to + 1, s[last].to);
    } else {
      assert head + rest == head;
    }
    forall x: nat, h: nat
      ensures DecomposesAt(head + rest, s, x, h)
    {
      assert DecomposesAt(rest, s[1..], x, h);
      FitsSomeConcat(head, rest, x, h);
      FitsHead(head, f, s[0].from, s[0].to, x, h);
      ContainsHeadOrTail(s, Block(x, h));
    }
  }

  lemma FitsHead(head: seq<Prefix>, f: Family, lo: nat, hi: nat, x: nat, h: nat)
    requires TilesRange(head, f, lo, hi) && Maximal(head, lo, hi)
    ensures FitsSome(head, x, h) <==> Aligned(x, h) && Within(Block(x, h), Range(lo, hi))
  {
  }

  lemma ContainsHeadOrTail(s: IPSet, r: Range)
    requires s != []
    ensures Contains(s, r) <==> Within(r, s[0]) || Contains(s[1..], r)
  {
    var t := s[1..];
    assert forall i :: 0 <= i < |t| ==> t[i] == s[i + 1];
    if i :| 0 <= i < |s| && Within(r, s[i]) {
      assert i > 0 ==> Within(r, t[i - 1]);
    }
    if i :| 0 <= i < |t| && Within(r, t[i]) {
      assert Within(r, s[i + 1]);
    }
  }

  /** Ascending blocks do not share a sub-block. */
  lemma FitsOnlyOne(ps: seq<Prefix>, i: nat, j: nat, x: nat, h: nat)
    requires Ascending(ps) && i < |ps| && j < |ps| && Fits(ps[i], x, h) && Fits(ps[j], x, h)
    ensures i == j
  {
    assert i < j || j < i || i == j;
  }

  // ---------- findFreePrefixInAggregate ----------

  /** The first block of targetBits inside the aggregate that the blocked set does not touch. */
  function FindFreeInAggregate(aggregate: Prefix, targetBits: int, blocked: IPSet): Option<Prefix>
    decreases targetBits - aggregate.bits
  {
    if !ValidPrefix(aggregate) then None
    else if aggregate.bits > targetBits || targetBits > BitLen(aggregate.addr) then None
    else if Contains(blocked, RangeOf(aggregate)) then None
    else if !Overlaps(blocked, RangeOf(aggregate)) then
      if aggregate.bits == targetBits then Some(aggregate)
      else Some(Masked(Prefix(aggregate.addr, targetBits)))
    else if aggregate.bits == targetBits then None
    else
      match SplitPrefix(aggregate)
      case None => None
      case Some((left, right)) =>
        var l := FindFreeInAggregate(left, targetBits, blocked);
        if l.Some? then l else FindFreeInAggregate(right, targetBits, blocked)
  }

  ghost predicate FreeFit(p: Prefix, blocked: IPSet, x: nat, h: nat)
    requires ValidPrefix(p)
  {
    Fits(p, x, h) && !Overlaps(blocked, Block(x, h))
  }

  ghost predicate IsFirstFree(p: Prefix, targetBits: int, blocked: IPSet, q: Option<Prefix>)
    requires ValidPrefix(p) && targetBits <= BitLen(p.addr)
  {
    var h := BitLen(p.addr) - targetBits;
    match q
    case Some(b) =>
      && IsMasked(b) && b.bits == targetBits && FamilyOf(b.addr) == FamilyOf(p.addr)
      && FreeFit(p, blocked, b.addr, h)
      && (forall x: nat :: FreeFit(p, blocked, x, h) ==> b.addr <= x)
    case None => forall x: nat :: !FreeFit(p, blocked, x, h)
  }

  /** When the whole block is covered or missed, so is each of its sub-blocks. */
  lemma SubBlocks(p: Prefix, blocked: IPSet, h: nat)
    requires IsMasked(p)
    ensures Contains(blocked, RangeOf(p)) ==> forall x: nat :: !FreeFit(p, blocked, x, h)
    ensures !Overlaps(blocked, RangeOf(p)) ==> forall x: nat :: FreeFit(p, blocked, x, h) <==> Fits(p, x, h)
  {
    MaskedRange(p);
    forall x: nat | Fits(p, x, h)
      ensures !Overlaps(blocked, RangeOf(p)) ==> !Overlaps(blocked, Block(x, h))
      ensures Contains(blocked, RangeOf(p)) ==> Overlaps(blocked, Block(x, h))
    {
      SubRange(blocked, Block(x, h), RangeOf(p));
    }
  }

  /** The only sub-block of full size is the block itself; there is none of a larger size. */
  lemma NoLargerFit(p: Prefix, x: nat, h: nat)
    requires IsMasked(p) && h >= HostBits(p) && Fits(p, x, h)
    ensures h == HostBits(p) && Block(x, h) == RangeOf(p)
  {
    MaskedRange(p);
    if h > HostBits(p) {
      Pow2Strict(HostBits(p), h);
    }
  }

  lemma FreeFitInHalf(p: Prefix, l: Prefix, r: Prefix, blocked: IPSet, x: nat, h: nat)
    requires Halves(p, l, r) && h < HostBits(p)
    ensures FreeFit(p, blocked, x, h) <==> FreeFit(l, blocked, x, h) || FreeFit(r, blocked, x, h)
    ensures FreeFit(l, blocked, x, h) ==> x < r.addr
    ensures FreeFit(r, blocked, x, h) ==> r.addr <= x
  {
    FitsInHalf(p, l, r, x, h);
  }

  lemma FirstOfHalves(p: Prefix, l: Prefix, r: Prefix, targetBits: int, blocked: IPSet,
                      ql: Option<Prefix>, qr: Option<Prefix>)
    requires Halves(p, l, r) && p.bits < targetBits <= BitLen(p.addr)
    requires IsFirstFree(l, targetBits, blocked, ql) && IsFirstFree(r, targetBits, blocked, qr)
    ensures IsFirstFree(p, targetBits, blocked, if ql.Some? then ql else qr)
  {
    var h := BitLen(p.addr) - targetBits;
    var q := if ql.Some? then ql else qr;
    if q.Some? {
      FreeFitInHalf(p, l, r, blocked, q.value.addr, h);
    }
    forall x: nat | FreeFit(p, blocked, x, h)
      ensures q.Some? && q.value.addr <= x
    {
      FreeFitInHalf(p, l, r, blocked, x, h);
    }
  }

  /** The search is sound, complete and returns the lowest block. */
  lemma {:induction false} FindFreeIsFirst(p: Prefix, targetBits: int, blocked: IPSet)
    requires IsMasked(p) && targetBits <= BitLen(p.addr)
    ensures IsFirstFree(p, targetBits, blocked, FindFreeInAggregate(p, targetBits, blocked))
    decreases targetBits - p.bits
  {
    var h := BitLen(p.addr) - targetBits;
    SubBlocks(p, blocked, h);
    if p.bits >= targetBits {
      forall x: nat | Fits(p, x, h)
        ensures p.bits == targetBits && Block(x, h) == RangeOf(p)
      {
        NoLargerFit(p, x, h);
      }
    }
    if p.bits <= targetBits && !Overlaps(blocked, RangeOf(p)) {
      FirstFits(p, targetBits);
    } else if p.bits < targetBits && !Contains(blocked, RangeOf(p)) {
      var (l, r) := SplitPrefix(p).value;
      FindFreeIsFirst(l, targetBits, blocked);
      FindFreeIsFirst(r, targetBits, blocked);
      FirstOfHalves(p, l, r, targetBits, blocked,
                    FindFreeInAggregate(l, targetBits, blocked), FindFreeInAggregate(r, targetBits, blocked));
    }
  }

  /** The lowest sub-block of a given length starts where the block starts. */
  lemma FirstFits(p: Prefix, targetBits: int)
    requires IsMasked(p) && p.bits <= targetBits <= BitLen(p.addr)
    ensures var q := Prefix(p.addr, targetBits);
      IsMasked(q) && Masked(q) == q && Fits(p, p.addr, HostBits(q))
  {
    var q := Prefix(p.addr, targetBits);
    AlignedFiner(p.addr, HostBits(p), HostBits(q));
    Pow2Monotone(HostBits(q), HostBits(p));
    MaskedFacts(q);
  }

  // ---------- countAllocatablePrefixesInAggregate ----------

  /** Go's math.MaxInt on a 64-bit platform. */
  const MAX_INT: nat := 0x7FFF_FFFF_FFFF_FFFF

  function Capped(n: nat): nat {
    if n > MAX_INT then MAX_INT else n
  }

  function AddIntCapped(current: nat, add: nat): nat {
    if current == MAX_INT || add == MAX_INT then MAX_INT
    else if add > MAX_INT - current then MAX_INT
    else current + add
  }

  function TwoPowerCapped(exponent: int): nat {
    if exponent < 0 then 0
    else if exponent == 0 then 1
    else
      var total := Pow2(exponent);
      if total > MAX_INT then MAX_INT else total
  }

  /** Saturating at every step gives the same as saturating once at the end. */
  lemma AddCappedIsCapped(m: nat, n: nat)
    ensures AddIntCapped(Capped(m), Capped(n)) == Capped(m + n)
  {
  }

  function CountInAggregate(aggregate: Prefix, targetBits: int, blocked: IPSet): (n: nat)
    ensures n <= MAX_INT
    decreases targetBits - aggregate.bits
  {
    if !ValidPrefix(aggregate) then 0
    else if aggregate.bits > targetBits || targetBits > BitLen(aggregate.addr) then 0
    else if Contains(blocked, RangeOf(aggregate)) then 0
    else if !Overlaps(blocked, RangeOf(aggregate)) then TwoPowerCapped(targetBits - aggregate.bits)
    else if aggregate.bits == targetBits then 0
    else
      match SplitPrefix(aggregate)
      case None => 0
      case Some((left, right)) =>
        AddIntCapped(CountInAggregate(left, targetBits, blocked), CountInAggregate(right, targetBits, blocked))
  }

  /** The starts of all free blocks of 2^h addresses inside p. */
  ghost function FreeFits(p: Prefix, blocked: IPSet, h: nat): set<nat>
    requires ValidPrefix(p)
  {
    set x: nat | x < p.addr + Size(p) && FreeFit(p, blocked, x, h)
  }

  /** The count is the exact number of free blocks, saturated once. */
  lemma {:induction false} CountIsCardinality(p: Prefix, targetBits: int, h: nat, blocked: IPSet)
    requires IsMasked(p) && targetBits + h == BitLen(p.addr)
    ensures CountInAggregate(p, targetBits, blocked) == Capped(|FreeFits(p, blocked, h)|)
    decreases targetBits - p.bits
  {
    var rp := RangeOf(p);
    if p.bits > targetBits || Contains(blocked, rp) || (p.bits == targetBits && Overlaps(blocked, rp)) {
      NoFreeFits(p, targetBits, h, blocked);
    } else if !Overlaps(blocked, rp) {
      AllFreeFits(p, targetBits, h, blocked);
    } else {
      var l, r := CountSplits(p, targetBits, blocked);
      CountIsCardinality(l, targetBits, h, blocked);
      CountIsCardinality(r, targetBits, h, blocked);
      CountOfHalves(p, l, r, blocked, h);
    }
  }

  lemma CountSplits(p: Prefix, targetBits: int, blocked: IPSet) returns (l: Prefix, r: Prefix)
    requires IsMasked(p) && p.bits < targetBits <= BitLen(p.addr)
    requires Overlaps(blocked, RangeOf(p)) && !Contains(blocked, RangeOf(p))
    ensures Halves(p, l, r)
    ensures CountInAggregate(p, targetBits, blocked) ==
            AddIntCapped(CountInAggregate(l, targetBits, blocked), CountInAggregate(r, targetBits, blocked))
  {
    l, r := SplitPrefix(p).value.0, SplitPrefix(p).value.1;
  }

  lemma CountOfHalves(p: Prefix, l: Prefix, r: Prefix, blocked: IPSet, h: nat)
    requires Halves(p, l, r) && h < HostBits(p)
    ensures AddIntCapped(Capped(|FreeFits(l, blocked, h)|), Capped(|FreeFits(r, blocked, h)|)) ==
            Capped(|FreeFits(p, blocked, h)|)
  {
    FreeFitsSplit(p, l, r, blocked, h);
    AddCappedIsCapped(|FreeFits(l, blocked, h)|, |FreeFits(r, blocked, h)|);
  }

  lemma NoFreeFits(p: Prefix, targetBits: int, h: nat, blocked: IPSet)
    requires IsMasked(p) && targetBits + h == BitLen(p.addr)
    requires p.bits > targetBits || Contains(blocked, RangeOf(p))
             || (p.bits == targetBits && Overlaps(blocked, RangeOf(p)))
    ensures FreeFits(p, blocked, h) == {}
  {
    SubBlocks(p, blocked, h);
    forall x: nat
      ensures !FreeFit(p, blocked, x, h)
    {
      if p.bits >= targetBits && Fits(p, x, h) {
        NoLargerFit(p, x, h);
      }
    }
  }

  lemma AllFreeFits(p: Prefix, targetBits: int, h: nat, blocked: IPSet)
    requires IsMasked(p) && p.bits <= targetBits && targetBits + h == BitLen(p.addr) && !Overlaps(blocked, RangeOf(p))
    ensures |FreeFits(p, blocked, h)| == Pow2(targetBits - p.bits)
  {
    SubBlocks(p, blocked, h);
    FitsAreTiles(p, h);
    assert FreeFits(p, blocked, h) == Tiles(p.addr, HostBits(p), h);
    TilesSize(p.addr, HostBits(p), h);
  }

  lemma FitsAreTiles(p: Prefix, h: nat)
    requires IsMasked(p) && h <= HostBits(p)
    ensures forall x: nat :: Fits(p, x, h) <==> x in Tiles(p.addr, HostBits(p), h)
  {
    forall x: nat | x in Tiles(p.addr, HostBits(p), h)
      ensures Fits(p, x, h)
    {
      AlignedNest(x, h, p.addr, HostBits(p));
    }
  }

  lemma FreeFitsSplit(p: Prefix, l: Prefix, r: Prefix, blocked: IPSet, h: nat)
    requires Halves(p, l, r) && h < HostBits(p)
    ensures |FreeFits(p, blocked, h)| == |FreeFits(l, blocked, h)| + |FreeFits(r, blocked, h)|
  {
    forall x: nat
      ensures Fits(p, x, h) <==> Fits(l, x, h) || Fits(r, x, h)
      ensures !(Fits(l, x, h) && Fits(r, x, h))
    {
      FitsInHalf(p, l, r, x, h);
    }
    assert FreeFits(p, blocked, h) == FreeFits(l, blocked, h) + FreeFits(r, blocked, h);
    assert FreeFits(l, blocked, h) * FreeFits(r, blocked, h) == {};
  }

  // ---------- cost ----------

  /** How many range ends of s fall strictly inside the block: places where a half could differ from the other. */
  function Cuts(s: IPSet, lo: nat, hi: nat): (n: nat)
    ensures n <= 2 * |s|
  {
    if s == [] then 0
    else
      (if lo < s[0].from <= hi then 1 else 0) + (if lo <= s[0].to < hi then 1 else 0) + Cuts(s[1..], lo, hi)
  }

  lemma {:induction false} CutsSplit(s: IPSet, lo: nat, mid: nat, hi: nat)
    requires lo < mid <= hi
    ensures Cuts(s, lo, mid - 1) + Cuts(s, mid, hi) <= Cuts(s, lo, hi)
    decreases |s|
  {
    if s != [] {
      CutsSplit(s[1..], lo, mid, hi);
    }
  }

  /** A block that is met but not covered has a range end inside it. */
  lemma {:induction false} PartialHasCut(s: IPSet, r: Range)
    requires Overlaps(s, r) && !Contains(s, r)
    ensures Cuts(s, r.from, r.to) >= 1
    decreases |s|
  {
    var i :| 0 <= i < |s| && Meets(s[i], r);
    assert !Within(r, s[i]);
    if i > 0 {
      var t := s[1..];
      assert Meets(t[i - 1], r);
      assert !Contains(t, r) by {
        assert forall j :: 0 <= j < |t| ==> t[j] == s[j + 1];
      }
      PartialHasCut(t, r);
    }
  }

  function CutsIn(p: Prefix, s: IPSet): nat
    requires ValidPrefix(p)
  {
    Cuts(s, RangeOf(p).from, RangeOf(p).to)
  }

  ghost predicate WithinBudget(calls: nat, cuts: nat, levels: int) {
    calls <= 1 + 2 * (cuts * levels)
  }

  lemma BudgetStep(m: nat, n: nat, c: nat, cl: nat, cr: nat, levels: nat)
    requires levels > 0 && c >= 1 && cl + cr <= c
    requires WithinBudget(m, cl, levels - 1) && WithinBudget(n, cr, levels - 1)
    ensures WithinBudget(1 + m + n, c, levels) && WithinBudget(1 + m, c, levels)
  {
    var k := levels - 1;
    var x, y, z := cl * k, cr * k, c * k;
    assert x + y <= z by {
      assert x + y == (cl + cr) * k;
      MulMonotone(cl + cr, c, k);
    }
    assert y >= 0;
    assert c * levels == z + c by {
      assert levels == k + 1;
    }
  }

  lemma LeafBudget(c: nat, d: int)
    requires d >= 0
    ensures WithinBudget(1, c, d)
  {
    assert c * d >= 0;
  }

  lemma BudgetFromCuts(n: nat, c: nat, k: nat, d: nat)
    requires WithinBudget(n, c, d) && c <= 2 * k
    ensures n <= 1 + 4 * k * d
  {
    MulMonotone(c, 2 * k, d);
    assert 4 * k * d == 2 * ((2 * k) * d);
  }

  /** A partly blocked node has a range end inside, and each range end falls inside at most one half. */
  lemma CutsOfHalves(p: Prefix, l: Prefix, r: Prefix, s: IPSet)
    requires Halves(p, l, r) && Overlaps(s, RangeOf(p)) && !Contains(s, RangeOf(p))
    ensures CutsIn(p, s) >= 1 && CutsIn(l, s) + CutsIn(r, s) <= CutsIn(p, s)
  {
    MaskedRange(p);
    MaskedRange(l);
    MaskedRange(r);
    PartialHasCut(s, RangeOf(p));
    CutsSplit(s, p.addr, r.addr, RangeOf(p).to);
  }

  /** The budget of a node: its sub-tree may be visited, plus the node itself. */
  ghost predicate Affordable(p: Prefix, targetBits: int, blocked: IPSet, calls: nat) {
    IsMasked(p) && p.bits <= targetBits ==> WithinBudget(calls, CutsIn(p, blocked), targetBits - p.bits)
  }

  lemma LeafAffordable(p: Prefix, targetBits: int, blocked: IPSet)
    ensures Affordable(p, targetBits, blocked, 1)
  {
    if IsMasked(p) && p.bits <= targetBits {
      LeafBudget(CutsIn(p, blocked), targetBits - p.bits);
    }
  }

  lemma SplitAffordable(p: Prefix, l: Prefix, r: Prefix, targetBits: int, blocked: IPSet, m: nat, n: nat)
    requires SplitPrefix(p) == Some((l, r)) && p.bits < targetBits
    requires ValidPrefix(p) && Overlaps(blocked, RangeOf(p)) && !Contains(blocked, RangeOf(p))
    requires Affordable(l, targetBits, blocked, m) && Affordable(r, targetBits, blocked, n)
    ensures Affordable(p, targetBits, blocked, 1 + m + n) && Affordable(p, targetBits, blocked, 1 + m)
  {
    if IsMasked(p) {
      CutsOfHalves(p, l, r, blocked);
      var levels := targetBits - p.bits;
      assert targetBits - l.bits == levels - 1 && targetBits - r.bits == levels - 1;
      BudgetStep(m, n, CutsIn(p, blocked), CutsIn(l, blocked), CutsIn(r, blocked), levels);
    }
  }

  /** findFreePrefixInAggregate together with the number of calls it makes, itself included. */
  function FindFreeCounted(aggregate: Prefix, targetBits: int, blocked: IPSet): (r: (Option<Prefix>, nat))
    ensures r.0 == FindFreeInAggregate(aggregate, targetBits, blocked)
    ensures Affordable(aggregate, targetBits, blocked, r.1)
    decreases targetBits - aggregate.bits
  {
    LeafAffordable(aggregate, targetBits, blocked);
    if !ValidPrefix(aggregate) then (None, 1)
    else if aggregate.bits > targetBits || targetBits > BitLen(aggregate.addr) then (None, 1)
    else if Contains(blocked, RangeOf(aggregate)) then (None, 1)
    else if !Overlaps(blocked, RangeOf(aggregate)) then
      if aggregate.bits == targetBits then (Some(aggregate), 1)
      else (Some(Masked(Prefix(aggregate.addr, targetBits))), 1)
    else if aggregate.bits == targetBits then (None, 1)
    else
      match SplitPrefix(aggregate)
      case None => (None, 1)
      case Some((left, right)) =>
        var l := FindFreeCounted(left, targetBits, blocked);
        var r := FindFreeCounted(right, targetBits, blocked);
        SplitAffordable(aggregate, left, right, targetBits, blocked, l.1, r.1);
        if l.0.Some? then (l.0, 1 + l.1) else (r.0, 1 + l.1 + r.1)
  }

  /** countAllocatablePrefixesInAggregate together with the number of calls it makes. */
  function CountCounted(aggregate: Prefix, targetBits: int, blocked: IPSet): (r: (nat, nat))
    ensures r.0 == CountInAggregate(aggregate, targetBits, blocked)
    ensures Affordable(aggregate, targetBits, blocked, r.1)
    decreases targetBits - aggregate.bits
  {
    LeafAffordable(aggregate, targetBits, blocked);
    if !ValidPrefix(aggregate) then (0, 1)
    else if aggregate.bits > targetBits || targetBits > BitLen(aggregate.addr) then (0, 1)
    else if Contains(blocked, RangeOf(aggregate)) then (0, 1)
    else if !Overlaps(blocked, RangeOf(aggregate)) then (TwoPowerCapped(targetBits - aggregate.bits), 1)
    else if aggregate.bits == targetBits then (0, 1)
    else
      match SplitPrefix(aggregate)
      case None => (0, 1)
      case Some((left, right)) =>
        var l := CountCounted(left, targetBits, blocked);
        var r := CountCounted(right, targetBits, blocked);
        SplitAffordable(aggregate, left, right, targetBits, blocked, l.1, r.1);
        (AddIntCapped(l.0, r.0), 1 + l.1 + r.1)
  }

  /** Both recursions make at most 1 + 4k(targetBits - bits) calls when the blocked set has k ranges. */
  lemma SearchCost(p: Prefix, targetBits: int, blocked: IPSet)
    requires IsMasked(p) && p.bits <= targetBits
    ensures FindFreeCounted(p, targetBits, blocked).0 == FindFreeInAggregate(p, targetBits, blocked)
    ensures CountCounted(p, targetBits, blocked).0 == CountInAggregate(p, targetBits, blocked)
    ensures FindFreeCounted(p, targetBits, blocked).1 <= 1 + 4 * |blocked| * (targetBits - p.bits)
    ensures CountCounted(p, targetBits, blocked).1 <= 1 + 4 * |blocked| * (targetBits - p.bits)
  {
    var c := CutsIn(p, blocked);
    BudgetFromCuts(FindFreeCounted(p, targetBits, blocked).1, c, |blocked|, targetBits - p.bits);
    BudgetFromCuts(CountCounted(p, targetBits, blocked).1, c, |blocked|, targetBits - p.bits);
  }
}
