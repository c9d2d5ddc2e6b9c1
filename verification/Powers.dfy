/** Powers of two and alignment: the arithmetic of CIDR blocks. */
module Powers {

  function Pow2(n: nat): (r: nat)
    ensures r > 0
  {
    if n == 0 then 1 else 2 * Pow2(n - 1)
  }

  /** The low k bits of a are zero: a is the first address of a block of 2^k addresses. */
  predicate Aligned(a: nat, k: nat)
    decreases k
  {
    k == 0 || (a % 2 == 0 && Aligned(a / 2, k - 1))
  }

  /** a with its low k bits cleared: the first address of the 2^k block around a. */
  function AlignDown(a: nat, k: nat): (r: nat)
    ensures r <= a < r + Pow2(k)
    decreases k
  {
    if k == 0 then a else 2 * AlignDown(a / 2, k - 1)
  }

  lemma {:induction false} Pow2Monotone(j: nat, k: nat)
    requires j <= k
    ensures Pow2(j) <= Pow2(k)
    decreases k
  {
    if j < k {
      Pow2Monotone(j, k - 1);
    }
  }

  lemma {:induction false} Pow2Strict(j: nat, k: nat)
    requires j < k
    ensures 2 * Pow2(j) <= Pow2(k)
  {
    Pow2Monotone(j, k - 1);
  }

  /** Two addresses aligned to 2^k differ by at least 2^k. */
  lemma {:induction false} AlignedApart(x: nat, y: nat, k: nat)
    requires Aligned(x, k) && Aligned(y, k) && x < y
    ensures x + Pow2(k) <= y
    decreases k
  {
    if k > 0 {
      AlignedApart(x / 2, y / 2, k - 1);
    }
  }

  lemma {:induction false} AlignedFiner(a: nat, k: nat, j: nat)
    requires j <= k && Aligned(a, k)
    ensures Aligned(a, j)
    decreases j
  {
    if j > 0 {
      AlignedFiner(a / 2, k - 1, j - 1);
    }
  }

  lemma {:induction false} AlignedZero(k: nat)
    ensures Aligned(0, k)
    decreases k
  {
    if k > 0 {
      AlignedZero(k - 1);
    }
  }

  lemma {:induction false} AlignedSum(a: nat, b: nat, k: nat)
    requires Aligned(a, k) && Aligned(b, k)
    ensures Aligned(a + b, k)
    decreases k
  {
    if k > 0 {
      AlignedSum(a / 2, b / 2, k - 1);
      assert (a + b) / 2 == a / 2 + b / 2;
    }
  }

  lemma {:induction false} AlignedPow2(j: nat, k: nat)
    requires k <= j
    ensures Aligned(Pow2(j), k)
    decreases k
  {
    if k > 0 {
      AlignedPow2(j - 1, k - 1);
      assert Pow2(j) / 2 == Pow2(j - 1);
    }
  }

  /** The halves of an aligned block are aligned to the half size. */
  lemma AlignedHalf(a: nat, k: nat)
    requires k > 0 && Aligned(a, k)
    ensures Aligned(a, k - 1) && Aligned(a + Pow2(k - 1), k - 1)
  {
    AlignedFiner(a, k, k - 1);
    AlignedPow2(k - 1, k - 1);
    AlignedSum(a, Pow2(k - 1), k - 1);
  }

  /** Aligned blocks nest: a smaller block that starts before the end of a larger one ends before it too. */
  lemma AlignedNest(x: nat, j: nat, b: nat, k: nat)
    requires j <= k && Aligned(x, j) && Aligned(b, k) && x < b + Pow2(k)
    ensures x + Pow2(j) <= b + Pow2(k)
  {
    AlignedPow2(k, k);
    AlignedSum(b, Pow2(k), k);
    AlignedFiner(b + Pow2(k), k, j);
    AlignedApart(x, b + Pow2(k), j);
  }

  lemma {:induction false} AlignDownAligned(a: nat, k: nat)
    ensures Aligned(AlignDown(a, k), k)
    ensures Aligned(a, k) <==> AlignDown(a, k) == a
    decreases k
  {
    if k > 0 {
      AlignDownAligned(a / 2, k - 1);
      var d := AlignDown(a / 2, k - 1);
      assert AlignDown(a, k) == 2 * d && 2 * d / 2 == d;
      assert Aligned(a, k) <==> a % 2 == 0 && d == a / 2;
    }
  }

  /** `AlignDown` is the only aligned address whose block holds `a`. */
  lemma AlignDownUnique(a: nat, b: nat, k: nat)
    requires Aligned(b, k) && b <= a < b + Pow2(k)
    ensures AlignDown(a, k) == b
  {
    var c := AlignDown(a, k);
    AlignDownAligned(a, k);
    if b < c {
      AlignedApart(b, c, k);
    } else if c < b {
      AlignedApart(c, b, k);
    }
  }

  // ---------- the same in terms of division ----------

  lemma MulMonotone(a: nat, b: nat, k: nat)
    requires a <= b
    ensures a * k <= b * k
  {
  }

  /** The quotient is the only q whose multiple is within m below a. */
  lemma QuotientIs(a: nat, m: nat, q: nat)
    requires m > 0 && m * q <= a < m * q + m
    ensures a / m == q && (a % m == 0 <==> a == m * q)
  {
    var d := a / m;
    QuotientBounds(a, m);
    if d < q {
      MulMonotone(d + 1, q, m);
    } else if q < d {
      MulMonotone(q + 1, d, m);
    }
  }

  lemma QuotientBounds(a: nat, m: nat)
    requires m > 0
    ensures m * (a / m) <= a < m * (a / m) + m && (a % m == 0 <==> a == m * (a / m))
  {
    assert a == m * (a / m) + a % m;
  }

  lemma HalfMultiple(a: nat, m: nat)
    requires m > 0
    ensures a % (2 * m) == 0 <==> a % 2 == 0 && a / 2 % m == 0
  {
    QuotientBounds(a, 2 * m);
    QuotientBounds(a / 2, m);
    if a % (2 * m) == 0 {
      var q := a / (2 * m);
      assert a == 2 * (m * q);
      QuotientIs(a / 2, m, q);
    }
    if a % 2 == 0 && a / 2 % m == 0 {
      var q := a / 2 / m;
      assert a == 2 * (m * q) == (2 * m) * q;
      QuotientIs(a, 2 * m, q);
    }
  }

  /** Aligned to 2^k means divisible by 2^k. */
  lemma {:induction false} AlignedIffDivisible(a: nat, k: nat)
    ensures Aligned(a, k) <==> a % Pow2(k) == 0
    decreases k
  {
    if k > 0 {
      AlignedIffDivisible(a / 2, k - 1);
      HalfMultiple(a, Pow2(k - 1));
    }
  }

  /** The block of 2^k addresses around a starts at the quotient's multiple. */
  lemma AlignDownIsQuotient(a: nat, k: nat)
    ensures AlignDown(a, k) == a / Pow2(k) * Pow2(k)
  {
    var m, r := Pow2(k), AlignDown(a, k);
    AlignDownAligned(a, k);
    AlignedIffDivisible(r, k);
    QuotientBounds(r, m);
    QuotientOfBlock(a, m, r / m, r);
  }

  /** The first address of the block of 2^k addresses around a. */
  function BlockStart(a: nat, k: nat): (r: nat)
    ensures r == AlignDown(a, k)
  {
    AlignDownIsQuotient(a, k);
    a / Pow2(k) * Pow2(k)
  }

  lemma QuotientOfBlock(a: nat, m: nat, q: nat, r: nat)
    requires m > 0 && r == m * q && r <= a < r + m
    ensures a / m * m == r
  {
    QuotientIs(a, m, q);
  }

  /** An address shares the 2^k block of another exactly when their quotients agree. */
  lemma SameQuotient(a: nat, b: nat, k: nat)
    ensures a / Pow2(k) == b / Pow2(k) <==> AlignDown(b, k) <= a < AlignDown(b, k) + Pow2(k)
  {
    var m, r := Pow2(k), AlignDown(b, k);
    AlignDownAligned(b, k);
    AlignedIffDivisible(r, k);
    QuotientBounds(r, m);
    QuotientBounds(a, m);
    var q := r / m;
    QuotientIs(b, m, q);
    if r <= a < r + m {
      QuotientIs(a, m, q);
    }
  }

  // ---------- cardinalities ----------

  lemma SubsetSize<T>(a: set<T>, b: set<T>)
    requires a <= b
    ensures |a| <= |b|
    ensures |a| == |b| ==> a == b
  {
    assert b == a + (b - a);
    assert |b| == |a| + |b - a|;
  }

  ghost predicate Between(lo: nat, x: nat, hi: nat) {
    lo <= x < hi
  }

  ghost function Interval(lo: nat, hi: nat): set<nat> {
    set x: nat | x < hi && Between(lo, x, hi)
  }

  lemma {:induction false} IntervalSize(lo: nat, hi: nat)
    requires lo <= hi
    ensures |Interval(lo, hi)| == hi - lo
    decreases hi
  {
    if lo == hi {
      assert Interval(lo, hi) == {};
    } else {
      IntervalSize(lo, hi - 1);
      assert Interval(lo, hi) == Interval(lo, hi - 1) + {hi - 1};
    }
  }

  /** The starts of the 2^j blocks that tile the 2^k block at b. */
  ghost function Tiles(b: nat, k: nat, j: nat): set<nat> {
    set x: nat | b <= x < b + Pow2(k) && Aligned(x, j)
  }

  lemma {:induction false} TilesSize(b: nat, k: nat, j: nat)
    requires j <= k && Aligned(b, k)
    ensures |Tiles(b, k, j)| == Pow2(k - j)
    decreases k
  {
    if k == j {
      assert Tiles(b, k, j) == {b} by {
        forall x | x in Tiles(b, k, j)
          ensures x == b
        {
          if b < x {
            AlignedApart(b, x, j);
          }
        }
      }
    } else {
      var h := b + Pow2(k - 1);
      AlignedHalf(b, k);
      TilesSize(b, k - 1, j);
      TilesSize(h, k - 1, j);
      assert Tiles(b, k, j) == Tiles(b, k - 1, j) + Tiles(h, k - 1, j);
      assert Tiles(b, k - 1, j) * Tiles(h, k - 1, j) == {};
    }
  }
}
