/** The statistics both dashboards rely on, over finite sequences of reals:
    the weak percentile-of-score (`percentileofscore(..., kind='weak')`, and the
    mean of the boolean mask `values <= x`), the "linear" quantile of numpy and
    pandas (Hyndman & Fan definition 7), Python's `round` (half to even) and the
    min/max clamp of the level-gap dashboard. */
module Stats {

  // ---------------------------------------------------------------- weak rank

  /** Number of values that are at most `x`. */
  function CountLe(s: seq<real>, x: real): (c: nat)
    ensures c <= |s|
  {
    if s == [] then 0 else (if s[0] <= x then 1 else 0) + CountLe(s[1..], x)
  }

  /** `c / n` as a real, for a count out of a non-empty total. */
  function Fraction(c: nat, n: nat): (f: real)
    requires 0 < n && c <= n
    ensures 0.0 <= f <= 1.0
    ensures f * n as real == c as real
  {
    FractionInUnit(c, n);
    c as real / n as real
  }

  lemma FractionInUnit(c: nat, n: nat)
    requires 0 < n && c <= n
    ensures 0.0 <= c as real / n as real <= 1.0
    ensures (c as real / n as real) * n as real == c as real
  {
    var f := c as real / n as real;
    assert f * n as real == c as real;
    assert (1.0 - f) * n as real == (n - c) as real;
    NonNegativeFactor(f, n as real);
    NonNegativeFactor(1.0 - f, n as real);
  }

  /** The weak percentile rank of `x` in `s`: the percentage of values `<= x`. */
  function WeakRank(s: seq<real>, x: real): (r: real)
    requires |s| > 0
    ensures 0.0 <= r <= 100.0
  {
    100.0 * Fraction(CountLe(s, x), |s|)
  }

  /** The weak rank is 100 times the share of values at or below the score. */
  lemma WeakRankCounts(s: seq<real>, x: real)
    requires |s| > 0
    ensures WeakRank(s, x) * |s| as real == 100.0 * CountLe(s, x) as real
  {
    var f := Fraction(CountLe(s, x), |s|);
    assert (100.0 * f) * |s| as real == 100.0 * (f * |s| as real);
  }

  lemma {:induction false} CountLeMonotone(s: seq<real>, x: real, y: real)
    requires x <= y
    ensures CountLe(s, x) <= CountLe(s, y)
  {
    if s != [] {
      CountLeMonotone(s[1..], x, y);
    }
  }

  lemma FractionMonotone(a: nat, b: nat, n: nat)
    requires 0 < n && a <= b <= n
    ensures Fraction(a, n) <= Fraction(b, n)
  {
    var fa, fb := Fraction(a, n), Fraction(b, n);
    var d := fb - fa;
    assert d * n as real == b as real - a as real;
    NonNegativeFactor(d, n as real);
  }

  /** A product with a positive factor has the sign of the other factor. */
  lemma NonNegativeFactor(d: real, m: real)
    requires 0.0 < m && 0.0 <= d * m
    ensures 0.0 <= d
  {
  }

  lemma PositiveFactor(d: real, m: real)
    requires 0.0 < m && 0.0 < d * m
    ensures 0.0 < d
  {
  }

  /** The weak rank is non-decreasing in the score. */
  lemma WeakRankMonotone(s: seq<real>, x: real, y: real)
    requires |s| > 0 && x <= y
    ensures WeakRank(s, x) <= WeakRank(s, y)
  {
    CountLeMonotone(s, x, y);
    FractionMonotone(CountLe(s, x), CountLe(s, y), |s|);
  }

  lemma {:induction false} CountLeNone(s: seq<real>, x: real)
    ensures CountLe(s, x) == 0 <==> forall i :: 0 <= i < |s| ==> x < s[i]
  {
    if s != [] {
      CountLeNone(s[1..], x);
      assert forall i :: 1 <= i < |s| ==> s[i] == s[1..][i - 1];
    }
  }

  lemma {:induction false} CountLeAll(s: seq<real>, x: real)
    ensures CountLe(s, x) == |s| <==> forall i :: 0 <= i < |s| ==> s[i] <= x
  {
    if s != [] {
      CountLeAll(s[1..], x);
      assert forall i :: 1 <= i < |s| ==> s[i] == s[1..][i - 1];
    }
  }

  /** The weak rank is 0 exactly when the score is below every value. */
  lemma WeakRankZero(s: seq<real>, x: real)
    requires |s| > 0
    ensures WeakRank(s, x) == 0.0 <==> forall i :: 0 <= i < |s| ==> x < s[i]
  {
    CountLeNone(s, x);
    var f := Fraction(CountLe(s, x), |s|);
    if f == 0.0 {
      assert CountLe(s, x) as real == 0.0;
    }
  }

  /** The weak rank is 100 exactly when the score is at least every value. */
  lemma WeakRankHundred(s: seq<real>, x: real)
    requires |s| > 0
    ensures WeakRank(s, x) == 100.0 <==> forall i :: 0 <= i < |s| ==> s[i] <= x
  {
    CountLeAll(s, x);
    var f := Fraction(CountLe(s, x), |s|);
    if f == 1.0 {
      assert CountLe(s, x) as real == |s| as real;
    }
  }

  /** If at least `k` values are known to be at most `x`, the count says so. */
  lemma {:induction false} CountLeAtLeast(s: seq<real>, x: real, k: nat)
    requires k <= |s|
    requires forall i :: 0 <= i < k ==> s[i] <= x
    ensures CountLe(s, x) >= k
  {
    if k > 0 {
      assert s[0] <= x;
      CountLeAtLeast(s[1..], x, k - 1);
    }
  }

  // ------------------------------------------------------------------ sorting

  predicate Sorted(v: seq<real>) {
    forall i, j :: 0 <= i < j < |v| ==> v[i] <= v[j]
  }

  /** Five values in order form a sorted sequence. */
  lemma SortedFive(a: real, b: real, c: real, d: real, e: real)
    requires a <= b <= c <= d <= e
    ensures Sorted([a, b, c, d, e])
  {
  }

  /** Insert `a` into the sorted `v`, keeping it sorted. */
  function Insert(v: seq<real>, a: real): (r: seq<real>)
    requires Sorted(v)
    ensures Sorted(r)
    ensures |r| == |v| + 1
    ensures r[0] == if v == [] || a <= v[0] then a else v[0]
    ensures multiset(r) == multiset(v) + multiset{a}
  {
    if v == [] || a <= v[0] then
      [a] + v
    else
      var rest := Insert(v[1..], a);
      assert v == [v[0]] + v[1..];
      assert v[0] <= rest[0];
      [v[0]] + rest
  }

  /** The values of `s` in non-decreasing order (what numpy and pandas sort
      internally before taking a quantile). */
  function Sort(s: seq<real>): (v: seq<real>)
    ensures Sorted(v)
    ensures |v| == |s|
    ensures multiset(v) == multiset(s)
  {
    if s == [] then [] else
      assert s == [s[0]] + s[1..];
      Insert(Sort(s[1..]), s[0])
  }

  lemma {:induction false} CountLeInsert(v: seq<real>, a: real, x: real)
    requires Sorted(v)
    ensures CountLe(Insert(v, a), x) == CountLe(v, x) + (if a <= x then 1 else 0)
  {
    if v == [] || a <= v[0] {
      assert ([a] + v)[1..] == v;
    } else {
      CountLeInsert(v[1..], a, x);
      assert ([v[0]] + Insert(v[1..], a))[1..] == Insert(v[1..], a);
    }
  }

  /** Sorting does not change how many values lie at or below a score, so the
      weak rank may be read from the sorted values. */
  lemma {:induction false} CountLeSort(s: seq<real>, x: real)
    ensures CountLe(Sort(s), x) == CountLe(s, x)
  {
    if s != [] {
      CountLeSort(s[1..], x);
      CountLeInsert(Sort(s[1..]), s[0], x);
    }
  }

  /** Every value of `s` is the value at some position of `Sort(s)`. */
  lemma SortHas(s: seq<real>, i: int) returns (j: int)
    requires 0 <= i < |s|
    ensures 0 <= j < |s| && Sort(s)[j] == s[i]
  {
    assert s[i] in multiset(s);
    assert s[i] in multiset(Sort(s));
    assert s[i] in Sort(s);
    j :| 0 <= j < |s| && Sort(s)[j] == s[i];
  }

  /** The first sorted value is the minimum of `s`, the last one its maximum. */
  lemma SortEnds(s: seq<real>)
    requires |s| > 0
    ensures Sort(s)[0] in s && Sort(s)[|s| - 1] in s
    ensures forall i :: 0 <= i < |s| ==> Sort(s)[0] <= s[i] <= Sort(s)[|s| - 1]
  {
    SortEndsIn(s);
    forall i | 0 <= i < |s|
      ensures Sort(s)[0] <= s[i] <= Sort(s)[|s| - 1]
    {
      SortBetweenEnds(s, i);
    }
  }

  lemma SortEndsIn(s: seq<real>)
    requires |s| > 0
    ensures Sort(s)[0] in s && Sort(s)[|s| - 1] in s
  {
    var v := Sort(s);
    assert v[0] in multiset(v);
    assert v[|s| - 1] in multiset(v);
  }

  lemma SortBetweenEnds(s: seq<real>, i: int)
    requires 0 <= i < |s|
    ensures Sort(s)[0] <= s[i] <= Sort(s)[|s| - 1]
  {
    var j := SortHas(s, i);
    SortedBetweenEnds(Sort(s), j);
  }

  lemma SortedBetweenEnds(v: seq<real>, j: int)
    requires Sorted(v) && 0 <= j < |v|
    ensures v[0] <= v[j] <= v[|v| - 1]
  {
  }

  /** A sorted sequence is its own sorted order. */
  lemma {:induction false} SortSorted(v: seq<real>)
    requires Sorted(v)
    ensures Sort(v) == v
  {
    if v != [] {
      SortSorted(v[1..]);
      assert Insert(v[1..], v[0]) == [v[0]] + v[1..];
      assert [v[0]] + v[1..] == v;
    }
  }

  /** In sorted order the values `<= x` form a prefix whose length is their count. */
  lemma {:induction false} CountLeSplit(v: seq<real>, x: real)
    requires Sorted(v)
    ensures forall i :: 0 <= i < CountLe(v, x) ==> v[i] <= x
    ensures forall i :: CountLe(v, x) <= i < |v| ==> x < v[i]
  {
    if v != [] {
      CountLeSplit(v[1..], x);
      if v[0] > x {
        assert CountLe(v[1..], x) == 0 by {
          CountLeNone(v[1..], x);
          assert forall i :: 0 <= i < |v| - 1 ==> v[1..][i] == v[i + 1];
        }
      }
      assert forall i :: 1 <= i < |v| ==> v[i] == v[1..][i - 1];
    }
  }

  // ---------------------------------------------------------------- quantiles

  lemma MulLeft(a: real, b: real, c: real)
    requires a <= b && 0.0 <= c
    ensures a * c <= b * c
  {
    assert (b - a) * c >= 0.0;
  }

  /** A fraction of a non-negative quantity lies between 0 and the quantity. */
  lemma FractionOf(g: real, d: real)
    requires 0.0 <= g <= 1.0 && 0.0 <= d
    ensures 0.0 <= g * d <= d
  {
    MulLeft(0.0, g, d);
    MulLeft(g, 1.0, d);
    assert 1.0 * d == d;
  }

  /** Linear interpolation between the order statistics around the fractional
      position `h` of the sorted `v`. */
  function Interpolate(v: seq<real>, h: real): (r: real)
    requires |v| > 0 && 0.0 <= h <= (|v| - 1) as real
  {
    var j := h.Floor;
    if j >= |v| - 1 then v[|v| - 1] else v[j] + (h - j as real) * (v[j + 1] - v[j])
  }

  /** The interpolated value lies between the two order statistics around `h`. */
  lemma InterpolateBetween(v: seq<real>, h: real)
    requires |v| > 0 && 0.0 <= h <= (|v| - 1) as real && Sorted(v)
    ensures h.Floor < |v| - 1 ==> v[h.Floor] <= Interpolate(v, h) <= v[h.Floor + 1]
    ensures h.Floor >= |v| - 1 ==> Interpolate(v, h) == v[|v| - 1]
  {
    var j := h.Floor;
    if j < |v| - 1 {
      var g := h - j as real;
      var d := v[j + 1] - v[j];
      assert v[j] <= v[j + 1];
      FractionOf(g, d);
      assert Interpolate(v, h) == v[j] + g * d;
      assert v[j] + d == v[j + 1];
    }
  }

  lemma InterpolateBounds(v: seq<real>, h: real)
    requires |v| > 0 && 0.0 <= h <= (|v| - 1) as real && Sorted(v)
    ensures v[0] <= Interpolate(v, h) <= v[|v| - 1]
  {
    InterpolateBetween(v, h);
    var j := h.Floor;
    if j < |v| - 1 {
      assert v[0] <= v[j] && v[j + 1] <= v[|v| - 1];
    }
  }

  lemma InterpolateMonotone(v: seq<real>, h1: real, h2: real)
    requires |v| > 0 && Sorted(v)
    requires 0.0 <= h1 <= h2 <= (|v| - 1) as real
    ensures Interpolate(v, h1) <= Interpolate(v, h2)
  {
    InterpolateBetween(v, h1);
    InterpolateBetween(v, h2);
    var j1, j2 := h1.Floor, h2.Floor;
    assert j1 <= j2;
    if j1 == j2 && j1 < |v| - 1 {
      var d := v[j1 + 1] - v[j1];
      assert 0.0 <= d;
      MulLeft(h1 - j1 as real, h2 - j1 as real, d);
      assert Interpolate(v, h1) == v[j1] + (h1 - j1 as real) * d;
      assert Interpolate(v, h2) == v[j1] + (h2 - j1 as real) * d;
    } else if j1 < j2 && j1 < |v| - 1 {
      assert v[j1 + 1] <= v[if j2 < |v| - 1 then j2 else |v| - 1];
    }
  }

  /** The fractional position of quantile `q` among `n` sorted values. */
  function Position(n: nat, q: real): (h: real)
    requires 0 < n && 0.0 <= q <= 1.0
    ensures 0.0 <= h <= (n - 1) as real
  {
    FractionOf(q, (n - 1) as real);
    q * (n - 1) as real
  }

  lemma PositionMonotone(n: nat, q1: real, q2: real)
    requires 0 < n && 0.0 <= q1 <= q2 <= 1.0
    ensures Position(n, q1) <= Position(n, q2)
  {
    MulLeft(q1, q2, (n - 1) as real);
  }

  /** Linear quantile of sorted values at `q` in [0, 1]. */
  function QuantileSorted(v: seq<real>, q: real): (r: real)
    requires |v| > 0 && 0.0 <= q <= 1.0
  {
    Interpolate(v, Position(|v|, q))
  }

  /** The linear quantile of `s` at `q` (`Series.quantile(q)`, `np.quantile(s, q)`):
      it lies between the smallest and the largest value. */
  function Quantile(s: seq<real>, q: real): (r: real)
    requires |s| > 0 && 0.0 <= q <= 1.0
    ensures Sort(s)[0] <= r <= Sort(s)[|s| - 1]
  {
    InterpolateBounds(Sort(s), Position(|s|, q));
    QuantileSorted(Sort(s), q)
  }

  /** `np.percentile(s, p)`: the quantile at `p / 100`. */
  function Percentile(s: seq<real>, p: real): (r: real)
    requires |s| > 0 && 0.0 <= p <= 100.0
    ensures Sort(s)[0] <= r <= Sort(s)[|s| - 1]
  {
    Quantile(s, p / 100.0)
  }

  lemma PercentileAsQuantile(s: seq<real>, p: real)
    requires |s| > 0 && 0.0 <= p <= 100.0
    ensures Percentile(s, p) == Quantile(s, p / 100.0)
  {
  }

  /** Sorted values are read directly. */
  lemma QuantileOfSorted(v: seq<real>, q: real)
    requires |v| > 0 && 0.0 <= q <= 1.0 && Sorted(v)
    ensures Quantile(v, q) == QuantileSorted(v, q)
  {
    SortSorted(v);
  }

  /** `np.percentile` is non-decreasing in the percentage. */
  lemma PercentileMonotone(s: seq<real>, p1: real, p2: real)
    requires |s| > 0 && 0.0 <= p1 <= p2 <= 100.0
    ensures Percentile(s, p1) <= Percentile(s, p2)
  {
    var q1, q2 := p1 / 100.0, p2 / 100.0;
    assert q1 <= q2;
    QuantileMonotone(s, q1, q2);
  }

  /** The quantile at 0 is the minimum and at 1 the maximum of `s`, and every
      quantile lies between the two. */
  lemma QuantileBounds(s: seq<real>, q: real)
    requires |s| > 0 && 0.0 <= q <= 1.0
    ensures Quantile(s, 0.0) in s && forall i :: 0 <= i < |s| ==> Quantile(s, 0.0) <= s[i]
    ensures Quantile(s, 1.0) in s && forall i :: 0 <= i < |s| ==> s[i] <= Quantile(s, 1.0)
    ensures Quantile(s, 0.0) <= Quantile(s, q) <= Quantile(s, 1.0)
  {
    SortEnds(s);
    QuantileZero(s);
    QuantileOne(s);
  }

  lemma QuantileZero(s: seq<real>)
    requires |s| > 0
    ensures Quantile(s, 0.0) == Sort(s)[0]
  {
    var v := Sort(s);
    assert Position(|s|, 0.0) == 0.0;
    assert (0.0).Floor == 0;
  }

  lemma QuantileOne(s: seq<real>)
    requires |s| > 0
    ensures Quantile(s, 1.0) == Sort(s)[|s| - 1]
  {
    var v := Sort(s);
    var m := (|s| - 1) as real;
    assert 1.0 * m == m;
    assert Position(|s|, 1.0) == m;
    assert m.Floor == |s| - 1;
  }

  /** The quantile is non-decreasing in `q`. */
  lemma QuantileMonotone(s: seq<real>, q1: real, q2: real)
    requires |s| > 0 && 0.0 <= q1 <= q2 <= 1.0
    ensures Quantile(s, q1) <= Quantile(s, q2)
  {
    PositionMonotone(|s|, q1, q2);
    InterpolateMonotone(Sort(s), Position(|s|, q1), Position(|s|, q2));
  }

  /** `r` lies where the `k` smallest of the sorted `v` end: it is the minimum
      when `k = 0`, the maximum when `k = |v|`, and otherwise lies between the
      `k`-th and the `(k+1)`-th smallest value. */
  predicate Bracketed(v: seq<real>, k: nat, r: real)
    requires 0 < |v| && k <= |v|
  {
    && (k == 0 ==> r == v[0])
    && (k == |v| ==> r == v[|v| - 1])
    && (0 < k < |v| ==> v[k - 1] <= r <= v[k])
  }

  /** The quantile of sorted `v` at `k / n`: the position is `k - k/n`, so the
      result is the minimum when `k = 0`, the maximum when `k = n`, and
      otherwise lies between the `k`-th and the `(k+1)`-th smallest value. */
  lemma QuantileAtFraction(v: seq<real>, k: nat)
    requires Sorted(v) && 0 < |v| && k <= |v|
    ensures Bracketed(v, k, QuantileSorted(v, Fraction(k, |v|)))
  {
    var n := |v|;
    var f := Fraction(k, n);
    var h := Position(n, f);
    assert h == k as real - f by {
      assert f * n as real == k as real;
      assert f * (n - 1) as real == f * n as real - f;
    }
    InterpolateBetween(v, h);
    if k == 0 {
      assert f * n as real == 0.0;
      assert f == 0.0;
    } else if k == n {
      assert f == 1.0 by {
        assert (f - 1.0) * n as real == 0.0;
      }
    } else {
      assert (1.0 - f) * n as real == (n - k) as real;
      PositiveFactor(1.0 - f, n as real);
      PositiveFactor(f, n as real);
      assert h.Floor == k - 1;
    }
  }

  /** Reading the percentile back at the weak rank of `x`: with `k` values of `s`
      at most `x`, the result is the minimum when `k = 0`, the maximum when
      `k = n`, and otherwise lies between the `k`-th and the `(k+1)`-th smallest
      value of `s`. */
  lemma PercentileAtWeakRank(s: seq<real>, x: real)
    requires |s| > 0
    ensures Bracketed(Sort(s), CountLe(s, x), Percentile(s, WeakRank(s, x)))
  {
    PercentileOfWeakRank(s, x);
    QuantileAtFraction(Sort(s), CountLe(s, x));
  }

  /** Reading the percentile at a weak rank is reading the sorted values at
      the fraction of values `<= x`. */
  lemma PercentileOfWeakRank(s: seq<real>, x: real)
    requires |s| > 0
    ensures Percentile(s, WeakRank(s, x)) == QuantileSorted(Sort(s), Fraction(CountLe(s, x), |s|))
  {
    var f := Fraction(CountLe(s, x), |s|);
    var w := WeakRank(s, x);
    assert w / 100.0 == f;
  }

  /** The weak rank of the percentile read at the weak rank of `x` is never below
      the weak rank of `x`: translating a score to a rank and back cannot lose
      rank, though it need not return `x` itself. */
  lemma WeakRankOfPercentileAtWeakRank(s: seq<real>, x: real)
    requires |s| > 0
    ensures WeakRank(s, x) <= WeakRank(s, Percentile(s, WeakRank(s, x)))
  {
    PercentileAtWeakRank(s, x);
    WeakRankReaches(s, x, Percentile(s, WeakRank(s, x)));
  }

  /** A score at least the largest of the values `<= x` ranks at least as high as `x`. */
  lemma WeakRankReaches(s: seq<real>, x: real, r: real)
    requires |s| > 0
    requires Bracketed(Sort(s), CountLe(s, x), r)
    ensures WeakRank(s, x) <= WeakRank(s, r)
  {
    CountLeSort(s, x);
    CountLeSort(s, r);
    CountLeReaches(Sort(s), x, r);
    FractionMonotone(CountLe(s, x), CountLe(s, r), |s|);
  }

  /** In sorted order, a value at least the largest of the values `<= x` has
      at least as many values at or below it as `x`. */
  lemma CountLeReaches(v: seq<real>, x: real, r: real)
    requires Sorted(v)
    requires CountLe(v, x) > 0 ==> v[CountLe(v, x) - 1] <= r
    ensures CountLe(v, x) <= CountLe(v, r)
  {
    var k := CountLe(v, x);
    CountLeSplit(v, x);
    forall i | 0 <= i < k
      ensures v[i] <= r
    {
      assert v[i] <= v[k - 1];
    }
    CountLeAtLeast(v, r, k);
  }

  // ----------------------------------------------------------------- rounding

  /** Python's `round` on a float: the nearest integer, ties to the even one. */
  function RoundHalfEven(x: real): (r: int)
    ensures -0.5 <= r as real - x <= 0.5
    ensures (r as real - x == 0.5 || x - r as real == 0.5) ==> r % 2 == 0
  {
    var f := x.Floor;
    var d := x - f as real;
    if d < 0.5 then f
    else if d > 0.5 then f + 1
    else if f % 2 == 0 then f
    else f + 1
  }

  /** Whole numbers stay; halves go to the even neighbour: round(12.5) is 12
      and round(13.5) is 14. */
  lemma RoundHalfEvenExamples()
    ensures RoundHalfEven(40.0) == 40 && RoundHalfEven(60.0) == 60 && RoundHalfEven(50.0) == 50
    ensures RoundHalfEven(12.5) == 12 && RoundHalfEven(13.5) == 14
    ensures RoundHalfEven(0.1) == 0 && RoundHalfEven(99.9) == 100
  {
  }

  /** Nearest-with-ties-to-even determines the rounded value uniquely. */
  lemma RoundHalfEvenUnique(x: real, m: int)
    requires -0.5 <= m as real - x <= 0.5
    requires (m as real - x == 0.5 || x - m as real == 0.5) ==> m % 2 == 0
    ensures m == RoundHalfEven(x)
  {
  }

  /** Rounding keeps a percentage a percentage. */
  lemma RoundHalfEvenPercent(x: real)
    requires 0.0 <= x <= 100.0
    ensures 0 <= RoundHalfEven(x) <= 100
  {
  }

  // ------------------------------------------------------------------ clamping

  /** `max(lo, min(hi, x))`. */
  function Clamp(lo: real, hi: real, x: real): (r: real)
    ensures lo <= hi ==> lo <= r <= hi
    ensures lo <= x <= hi ==> r == x
    ensures x < lo ==> r == lo
    ensures lo <= hi < x ==> r == hi
  {
    var m := if hi <= x then hi else x;
    if lo >= m then lo else m
  }

  /** Clamping is non-decreasing, so a clamped rank keeps the rank's order. */
  lemma ClampMonotone(lo: real, hi: real, x: real, y: real)
    requires lo <= hi && x <= y
    ensures Clamp(lo, hi, x) <= Clamp(lo, hi, y)
  {
  }
}
