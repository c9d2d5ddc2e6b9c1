/**
 Immutable sets of addresses (netipx.IPSet): sorted ranges that neither overlap nor touch. This form is
 canonical: two sets with the same addresses are the same sequence of ranges.
 */
module IPSets {
  import opened Wrappers
  import opened Netip

  type IPSet = seq<Range>

  ghost predicate Normal(s: IPSet) {
    && (forall i :: 0 <= i < |s| ==> ValidRange(s[i]))
    && (forall i, j :: 0 <= i < j < |s| ==> s[i].to + 1 < s[j].from)
  }

  ghost predicate Has(s: IPSet, a: nat) {
    exists i :: 0 <= i < |s| && InRange(s[i], a)
  }

  ghost function Addrs(s: IPSet): set<nat> {
    set a: nat | a < ADDR_BOUND && Has(s, a)
  }

  /** IPSet.ContainsRange: one range of the set covers r. */
  predicate Contains(s: IPSet, r: Range) {
    exists i :: 0 <= i < |s| && Within(r, s[i])
  }

  /** IPSet.OverlapsRange: some range of the set meets r. */
  predicate Overlaps(s: IPSet, r: Range) {
    exists i :: 0 <= i < |s| && Meets(s[i], r)
  }

  /** IPSet.Contains for one address. */
  predicate ContainsAddr(s: IPSet, a: nat) {
    Contains(s, Range(a, a))
  }

  lemma HasBound(s: IPSet, a: nat)
    requires Normal(s) && Has(s, a)
    ensures IsAddr(a) && a < ADDR_BOUND
  {
    var i :| 0 <= i < |s| && InRange(s[i], a);
    assert ValidRange(s[i]);
  }

  lemma ContainsAddrIffHas(s: IPSet, a: nat)
    ensures ContainsAddr(s, a) <==> Has(s, a)
  {
    if Has(s, a) {
      var i :| 0 <= i < |s| && InRange(s[i], a);
      assert Within(Range(a, a), s[i]);
    }
    if ContainsAddr(s, a) {
      var i :| 0 <= i < |s| && Within(Range(a, a), s[i]);
      assert InRange(s[i], a);
    }
  }

  lemma GapAfter(s: IPSet, i: nat)
    requires Normal(s) && i < |s|
    ensures !Has(s, s[i].to + 1)
  {
    assert ValidRange(s[i]);
    forall j | 0 <= j < |s|
      ensures !InRange(s[j], s[i].to + 1)
    {
      assert ValidRange(s[j]);
      assert j < i || j == i || i < j;
    }
  }

  /** In a normal set the one-range test means that every address of r is in the set. */
  lemma ContainsIffAll(s: IPSet, r: Range)
    requires Normal(s) && r.from <= r.to
    ensures Contains(s, r) <==> forall a: nat :: InRange(r, a) ==> Has(s, a)
  {
    if Contains(s, r) {
      var i :| 0 <= i < |s| && Within(r, s[i]);
      forall a | InRange(r, a)
        ensures Has(s, a)
      {
        assert InRange(s[i], a);
      }
    }
    if forall a: nat :: InRange(r, a) ==> Has(s, a) {
      assert InRange(r, r.from);
      var i :| 0 <= i < |s| && InRange(s[i], r.from);
      if s[i].to < r.to {
        GapAfter(s, i);
        assert InRange(r, s[i].to + 1);
        assert false;
      }
      assert Within(r, s[i]);
    }
  }

  lemma OverlapsIffSome(s: IPSet, r: Range)
    requires Normal(s) && r.from <= r.to
    ensures Overlaps(s, r) <==> exists a :: InRange(r, a) && Has(s, a)
  {
    if Overlaps(s, r) {
      var i :| 0 <= i < |s| && Meets(s[i], r);
      var a := if r.from <= s[i].from then s[i].from else r.from;
      assert ValidRange(s[i]);
      assert InRange(s[i], a) && InRange(r, a);
      assert Has(s, a);
    }
    if a: nat :| InRange(r, a) && Has(s, a) {
      var i :| 0 <= i < |s| && InRange(s[i], a);
      assert Meets(s[i], r);
    }
  }

  /** A set that misses a range misses its sub-ranges; one that covers a range meets its sub-ranges. */
  lemma SubRange(s: IPSet, inner: Range, outer: Range)
    requires Within(inner, outer) && inner.from <= inner.to
    ensures !Overlaps(s, outer) ==> !Overlaps(s, inner)
    ensures Contains(s, outer) ==> Contains(s, inner) && Overlaps(s, inner)
  {
    if Overlaps(s, inner) {
      var i :| 0 <= i < |s| && Meets(s[i], inner);
      assert Meets(s[i], outer);
    }
    if Contains(s, outer) {
      var i :| 0 <= i < |s| && Within(outer, s[i]);
      assert Within(inner, s[i]);
      assert Meets(s[i], inner);
    }
  }

  lemma HasCons(r: Range, s: IPSet, a: nat)
    ensures Has([r] + s, a) <==> InRange(r, a) || Has(s, a)
  {
    var t := [r] + s;
    if Has(t, a) {
      var i :| 0 <= i < |t| && InRange(t[i], a);
      assert i == 0 || InRange(s[i - 1], a);
    }
    if InRange(r, a) {
      assert InRange(t[0], a);
    }
    if Has(s, a) {
      var i :| 0 <= i < |s| && InRange(s[i], a);
      assert InRange(t[i + 1], a);
    }
  }

  lemma NormalTail(s: IPSet)
    requires Normal(s) && s != []
    ensures Normal(s[1..]) && s == [s[0]] + s[1..]
    ensures forall a: nat :: Has(s, a) <==> InRange(s[0], a) || Has(s[1..], a)
    ensures forall a: nat :: Has(s[1..], a) ==> s[0].to + 1 < a
  {
    var t := s[1..];
    assert s == [s[0]] + t;
    forall i | 0 <= i < |t|
      ensures ValidRange(t[i]) && s[0].to + 1 < t[i].from
    {
      assert t[i] == s[i + 1];
    }
    forall a: nat
      ensures Has(s, a) <==> InRange(s[0], a) || Has(t, a)
    {
      HasCons(s[0], t, a);
    }
  }

  lemma NormalCons(r: Range, s: IPSet)
    requires ValidRange(r) && Normal(s)
    requires forall a: nat :: Has(s, a) ==> r.to + 1 < a
    ensures Normal([r] + s)
    ensures forall a: nat :: Has([r] + s, a) <==> InRange(r, a) || Has(s, a)
  {
    var t := [r] + s;
    forall j | 0 <= j < |s|
      ensures r.to + 1 < s[j].from
    {
      assert ValidRange(s[j]);
      assert InRange(s[j], s[j].from);
      assert Has(s, s[j].from);
    }
    forall i, j | 0 <= i < j < |t|
      ensures t[i].to + 1 < t[j].from
    {
      assert t[j] == s[j - 1];
      assert i > 0 ==> t[i] == s[i - 1];
    }
    forall a: nat
      ensures Has(t, a) <==> InRange(r, a) || Has(s, a)
    {
      HasCons(r, s, a);
    }
  }

  lemma {:induction false} Canonical(s: IPSet, t: IPSet)
    requires Normal(s) && Normal(t)
    requires forall a: nat :: Has(s, a) <==> Has(t, a)
    ensures s == t
    decreases |s|
  {
    if s == [] || t == [] {
      if s != [] {
        assert ValidRange(s[0]) && InRange(s[0], s[0].from);
        assert Has(s, s[0].from);
      }
      if t != [] {
        assert ValidRange(t[0]) && InRange(t[0], t[0].from);
        assert Has(t, t[0].from);
      }
    } else {
      NormalTail(s);
      NormalTail(t);
      HeadAgrees(s, t);
      HeadAgrees(t, s);
      forall a: nat
        ensures Has(s[1..], a) <==> Has(t[1..], a)
      {
        assert Has(s, a) <==> Has(t, a);
      }
      Canonical(s[1..], t[1..]);
    }
  }

  lemma HeadAgrees(s: IPSet, t: IPSet)
    requires Normal(s) && Normal(t) && s != [] && t != []
    requires forall a: nat :: Has(s, a) <==> Has(t, a)
    ensures s[0].from <= t[0].from
    ensures s[0].from == t[0].from ==> s[0].to <= t[0].to
  {
    NormalTail(s);
    NormalTail(t);
    assert ValidRange(s[0]) && ValidRange(t[0]);
    assert InRange(t[0], t[0].from);
    assert Has(s, t[0].from);
    GapAfter(t, 0);
    assert s[0].from == t[0].from && t[0].to < s[0].to ==> InRange(s[0], t[0].to + 1);
  }

  // ---------- building sets ----------

  function Min(x: nat, y: nat): nat {
    if x <= y then x else y
  }

  function Max(x: nat, y: nat): nat {
    if x <= y then y else x
  }

  /** Adds a range, joining it with every range that it overlaps or touches. */
  function Insert(s: IPSet, r: Range): (t: IPSet)
    requires Normal(s) && ValidRange(r)
    ensures Normal(t)
    ensures forall a: nat :: Has(t, a) <==> Has(s, a) || InRange(r, a)
    decreases |s|
  {
    if s == [] then
      NormalCons(r, []);
      [r] + []
    else
      NormalTail(s);
      assert ValidRange(s[0]);
      if r.to + 1 < s[0].from then
        NormalCons(r, s);
        [r] + s
      else if s[0].to + 1 < r.from then
        var rest := Insert(s[1..], r);
        NormalCons(s[0], rest);
        [s[0]] + rest
      else
        Insert(s[1..], Range(Min(s[0].from, r.from), Max(s[0].to, r.to)))
  }

  /** What is left of range q when r is taken out. */
  function Cut(q: Range, r: Range): (t: IPSet)
    requires ValidRange(q) && ValidRange(r)
    ensures Normal(t)
    ensures forall a: nat :: Has(t, a) <==> InRange(q, a) && !InRange(r, a)
  {
    var left := if q.from < r.from then [Range(q.from, Min(q.to, r.from - 1))] else [];
    var right := if r.to < q.to then [Range(Max(q.from, r.to + 1), q.to)] else [];
    CutFacts(q, r, left, right);
    left + right
  }

  lemma CutFacts(q: Range, r: Range, left: IPSet, right: IPSet)
    requires ValidRange(q) && ValidRange(r)
    requires left == if q.from < r.from then [Range(q.from, Min(q.to, r.from - 1))] else []
    requires right == if r.to < q.to then [Range(Max(q.from, r.to + 1), q.to)] else []
    ensures Normal(left + right)
    ensures forall a: nat :: Has(left + right, a) <==> InRange(q, a) && !InRange(r, a)
  {
    var t := left + right;
    forall a: nat
      ensures Has(t, a) <==> InRange(q, a) && !InRange(r, a)
    {
      if InRange(q, a) && a < r.from {
        assert InRange(t[0], a);
      } else if InRange(q, a) && r.to < a {
        assert InRange(t[|t| - 1], a);
      }
    }
  }

  /** Takes a range out of the set. */
  function Remove(s: IPSet, r: Range): (t: IPSet)
    requires Normal(s) && ValidRange(r)
    ensures Normal(t)
    ensures forall a: nat :: Has(t, a) <==> Has(s, a) && !InRange(r, a)
    decreases |s|
  {
    if s == [] then []
    else
      NormalTail(s);
      assert ValidRange(s[0]);
      var head, rest := Cut(s[0], r), Remove(s[1..], r);
      NormalJoin(head, rest, s[0].to);
      head + rest
  }

  lemma HasConcat(s: IPSet, t: IPSet, a: nat)
    ensures Has(s + t, a) <==> Has(s, a) || Has(t, a)
  {
    var u := s + t;
    if Has(u, a) {
      var i :| 0 <= i < |u| && InRange(u[i], a);
      assert if i < |s| then InRange(s[i], a) else InRange(t[i - |s|], a);
    }
    if Has(s, a) {
      var i :| 0 <= i < |s| && InRange(s[i], a);
      assert InRange(u[i], a);
    }
    if Has(t, a) {
      var i :| 0 <= i < |t| && InRange(t[i], a);
      assert InRange(u[|s| + i], a);
    }
  }

  lemma NormalJoin(s: IPSet, t: IPSet, mid: nat)
    requires Normal(s) && Normal(t)
    requires forall a: nat :: Has(s, a) ==> a <= mid
    requires forall a: nat :: Has(t, a) ==> mid + 1 < a
    ensures Normal(s + t)
    ensures forall a: nat :: Has(s + t, a) <==> Has(s, a) || Has(t, a)
  {
    forall i | 0 <= i < |s|
      ensures s[i].to <= mid
    {
      assert ValidRange(s[i]) && InRange(s[i], s[i].to);
      assert Has(s, s[i].to);
    }
    forall i | 0 <= i < |t|
      ensures mid + 1 < t[i].from
    {
      assert ValidRange(t[i]) && InRange(t[i], t[i].from);
      assert Has(t, t[i].from);
    }
    forall a: nat
      ensures Has(s + t, a) <==> Has(s, a) || Has(t, a)
    {
      HasConcat(s, t, a);
    }
  }

  /** Adds every range of t (IPSetBuilder.AddSet). */
  function Union(s: IPSet, t: IPSet): (u: IPSet)
    requires Normal(s) && Normal(t)
    ensures Normal(u)
    ensures forall a: nat :: Has(u, a) <==> Has(s, a) || Has(t, a)
    decreases |t|
  {
    if t == [] then s
    else
      NormalTail(t);
      Union(Insert(s, t[0]), t[1..])
  }

  /** Takes out every range of t (IPSetBuilder.RemoveSet). */
  function Subtract(s: IPSet, t: IPSet): (u: IPSet)
    requires Normal(s) && Normal(t)
    ensures Normal(u)
    ensures forall a: nat :: Has(u, a) <==> Has(s, a) && !Has(t, a)
    decreases |t|
  {
    if t == [] then s
    else
      NormalTail(t);
      Subtract(Remove(s, t[0]), t[1..])
  }

  // ---------- sets from lists ----------

  /** Adds the range of each list element in turn; None as soon as one of them has no range. */
  function Collect<T>(xs: seq<T>, range: T -> Option<Range>): (s: Option<IPSet>)
    ensures s.Some? ==> Normal(s.value)
    ensures s.Some? <==> forall i :: 0 <= i < |xs| ==> range(xs[i]).Some? && ValidRange(range(xs[i]).value)
    decreases |xs|
  {
    if xs == [] then Some([])
    else
      var last := range(xs[|xs| - 1]);
      var front := Collect(xs[..|xs| - 1], range);
      if front.Some? && last.Some? && ValidRange(last.value) then
        Some(Insert(front.value, last.value))
      else None
  }

  /** Some list entry covers a. */
  ghost predicate Listed<T>(xs: seq<T>, range: T -> Option<Range>, a: nat)
    requires forall i :: 0 <= i < |xs| ==> range(xs[i]).Some?
  {
    exists i :: 0 <= i < |xs| && InRange(range(xs[i]).value, a)
  }

  lemma {:induction false} CollectHas<T>(xs: seq<T>, range: T -> Option<Range>, a: nat)
    requires Collect(xs, range).Some?
    ensures Has(Collect(xs, range).value, a) <==> Listed(xs, range, a)
    decreases |xs|
  {
    if xs != [] {
      var n := |xs| - 1;
      CollectHas(xs[..n], range, a);
      assert xs[n] == xs[|xs| - 1];
      assert Listed(xs, range, a) <==> Listed(xs[..n], range, a) || InRange(range(xs[n]).value, a) by {
        assert forall i :: 0 <= i < n ==> xs[..n][i] == xs[i];
      }
    }
  }

  /** The set a list stands for depends on the union of its entries only, not on order, repetition or splitting. */
  lemma CollectCanonical<T>(xs: seq<T>, ys: seq<T>, range: T -> Option<Range>)
    requires Collect(xs, range).Some? && Collect(ys, range).Some?
    requires forall a: nat :: Listed(xs, range, a) <==> Listed(ys, range, a)
    ensures Collect(xs, range) == Collect(ys, range)
  {
    var s, t := Collect(xs, range).value, Collect(ys, range).value;
    forall a: nat
      ensures Has(s, a) <==> Has(t, a)
    {
      CollectHas(xs, range, a);
      CollectHas(ys, range, a);
    }
    Canonical(s, t);
  }

  // ---------- IPSetBuilder ----------

  ghost predicate SameElements<T>(xs: seq<T>, ys: seq<T>) {
    && (forall i :: 0 <= i < |xs| ==> xs[i] in ys)
    && (forall i :: 0 <= i < |ys| ==> ys[i] in xs)
  }

  lemma ListedAmong<T>(xs: seq<T>, ys: seq<T>, range: T -> Option<Range>, a: nat)
    requires forall i :: 0 <= i < |xs| ==> range(xs[i]).Some?
    requires forall i :: 0 <= i < |ys| ==> range(ys[i]).Some?
    requires (forall i :: 0 <= i < |xs| ==> xs[i] in ys) && Listed(xs, range, a)
    ensures Listed(ys, range, a)
  {
    var i :| 0 <= i < |xs| && InRange(range(xs[i]).value, a);
    var j :| 0 <= j < |ys| && ys[j] == xs[i];
  }

  /** In particular, lists with the same elements stand for the same set, or both for none. */
  lemma CollectIgnoresOrder<T>(xs: seq<T>, ys: seq<T>, range: T -> Option<Range>)
    requires SameElements(xs, ys)
    ensures Collect(xs, range) == Collect(ys, range)
  {
    if Collect(xs, range).Some? && Collect(ys, range).Some? {
      forall a: nat
        ensures Listed(xs, range, a) <==> Listed(ys, range, a)
      {
        if Listed(xs, range, a) {
          ListedAmong(xs, ys, range, a);
        }
        if Listed(ys, range, a) {
          ListedAmong(ys, xs, range, a);
        }
      }
      CollectCanonical(xs, ys, range);
    }
    CollectedAmong(xs, ys, range);
    CollectedAmong(ys, xs, range);
  }

  lemma CollectedAmong<T>(xs: seq<T>, ys: seq<T>, range: T -> Option<Range>)
    requires forall i :: 0 <= i < |xs| ==> xs[i] in ys
    ensures Collect(ys, range).Some? ==> Collect(xs, range).Some?
  {
    if Collect(ys, range).Some? {
      forall i | 0 <= i < |xs|
        ensures range(xs[i]).Some? && ValidRange(range(xs[i]).value)
      {
        var j :| 0 <= j < |ys| && ys[j] == xs[i];
      }
    }
  }

  /** netipx.IPSetBuilder: the set is changed in place; an invalid argument is remembered and fails IPSet(). */
  class IPSetBuilder {
    var ranges: IPSet
    var failed: bool

    ghost predicate Valid()
      reads this
    {
      Normal(ranges)
    }

    constructor ()
      ensures Valid() && ranges == [] && !failed
    {
      ranges := [];
      failed := false;
    }

    method AddRange(r: Range)
      requires Valid()
      modifies this
      ensures Valid()
      ensures ValidRange(r) ==> ranges == Insert(old(ranges), r) && failed == old(failed)
      ensures !ValidRange(r) ==> ranges == old(ranges) && failed
    {
      if ValidRange(r) {
        ranges := Insert(ranges, r);
      } else {
        failed := true;
      }
    }

    method RemoveRange(r: Range)
      requires Valid()
      modifies this
      ensures Valid()
      ensures ValidRange(r) ==> ranges == Remove(old(ranges), r) && failed == old(failed)
      ensures !ValidRange(r) ==> ranges == old(ranges) && failed
    {
      if ValidRange(r) {
        ranges := Remove(ranges, r);
      } else {
        failed := true;
      }
    }

    method AddPrefix(p: Prefix)
      requires Valid()
      modifies this
      ensures Valid()
      ensures ValidPrefix(p) ==> ranges == Insert(old(ranges), RangeOf(p)) && failed == old(failed)
      ensures !ValidPrefix(p) ==> ranges == old(ranges) && failed
    {
      if ValidPrefix(p) {
        MaskedFacts(p);
        ranges := Insert(ranges, RangeOf(p));
      } else {
        failed := true;
      }
    }

    method AddSet(t: IPSet)
      requires Valid() && Normal(t)
      modifies this
      ensures Valid() && ranges == Union(old(ranges), t) && failed == old(failed)
    {
      var n := 0;
      while n < |t|
        invariant 0 <= n <= |t| && Valid() && failed == old(failed) && Normal(t[n..])
        invariant Union(ranges, t[n..]) == Union(old(ranges), t)
      {
        NormalTail(t[n..]);
        assert t[n..][1..] == t[n + 1..];
        ranges := Insert(ranges, t[n]);
        n := n + 1;
      }
    }

    method RemoveSet(t: IPSet)
      requires Valid() && Normal(t)
      modifies this
      ensures Valid() && ranges == Subtract(old(ranges), t) && failed == old(failed)
    {
      var n := 0;
      while n < |t|
        invariant 0 <= n <= |t| && Valid() && failed == old(failed) && Normal(t[n..])
        invariant Subtract(ranges, t[n..]) == Subtract(old(ranges), t)
      {
        NormalTail(t[n..]);
        assert t[n..][1..] == t[n + 1..];
        ranges := Remove(ranges, t[n]);
        n := n + 1;
      }
    }

    method IPSet() returns (s: Option<IPSet>)
      requires Valid()
      ensures s == if failed then None else Some(ranges)
    {
      s := if failed then None else Some(ranges);
    }
  }
}
