/**
 * The interpolated percentile of the latency summaries, over the reals.
 */
module Percentile {
  import opened Bytes

  predicate Sorted(v: seq<real>) {
    forall i, j :: 0 <= i <= j < |v| ==> v[i] <= v[j]
  }

  /** The weighted sum the code forms between two neighbours. */
  function Between(low: real, high: real, toHigh: real, toLow: real): real {
    low * toHigh + high * toLow
  }

  function Ceil(k: real): int {
    if k.Floor as real == k then k.Floor else k.Floor + 1
  }

  /** The rank a percentile falls on, counted from zero and not necessarily whole. */
  function Rank(n: nat, p: real): real
    requires n > 0
  {
    (n - 1) as real * p
  }

  lemma Product(a: real, b: real)
    requires a >= 0.0 && b >= 0.0
    ensures a * b >= 0.0
  {
  }

  /** percentile: not a number for no values, the value at a whole rank, a blend of two neighbours otherwise. */
  function Percentile(v: seq<real>, p: real): Option<real>
    requires 0.0 <= p <= 1.0
  {
    if v == [] then None
    else if |v| == 1 then Some(v[0])
    else
      RankFits(|v|, p);
      var k := Rank(|v|, p);
      var f, c := k.Floor, Ceil(k);
      if f == c then Some(v[f])
      else Some(Between(v[f], v[c], c as real - k, k - f as real))
  }

  lemma RankFits(n: nat, p: real)
    requires n > 0 && 0.0 <= p <= 1.0
    ensures 0.0 <= Rank(n, p) <= (n - 1) as real
    ensures 0 <= Rank(n, p).Floor <= Ceil(Rank(n, p)) <= n - 1
  {
    RanksOrdered(n, 0.0, p);
    RanksOrdered(n, p, 1.0);
  }

  lemma RanksOrdered(n: nat, p: real, q: real)
    requires n > 0 && p <= q
    ensures Rank(n, p) <= Rank(n, q)
  {
    Product((n - 1) as real, q - p);
    assert Rank(n, q) - Rank(n, p) == (n - 1) as real * (q - p);
  }

  /** The middle value, or the mean of the two middle values, of sorted data. */
  function Median(v: seq<real>): real
    requires v != []
  {
    var n := |v|;
    if n % 2 == 1 then v[n / 2] else (v[n / 2 - 1] + v[n / 2]) / 2.0
  }

  // ---------------------------------------------------------- interpolation

  lemma BetweenBounds(low: real, high: real, x: real)
    requires low <= high && 0.0 <= x <= 1.0
    ensures low <= Between(low, high, 1.0 - x, x) <= high
  {
    assert Between(low, high, 1.0 - x, x) == low + (high - low) * x == high - (high - low) * (1.0 - x);
    Product(high - low, x);
    Product(high - low, 1.0 - x);
  }

  lemma BetweenGrows(low: real, high: real, x: real, y: real)
    requires low <= high && x <= y
    ensures Between(low, high, 1.0 - x, x) <= Between(low, high, 1.0 - y, y)
  {
    Product(high - low, y - x);
    assert Between(low, high, 1.0 - y, y) - Between(low, high, 1.0 - x, x) == (high - low) * (y - x);
  }

  /** The value at a rank k, whole or not, is one blend of v[f] and the next value. */
  function AtRank(v: seq<real>, k: real): (r: real)
    requires v != [] && 0.0 <= k <= (|v| - 1) as real
  {
    var f := k.Floor;
    if f == |v| - 1 then v[f] else Between(v[f], v[f + 1], 1.0 - (k - f as real), k - f as real)
  }

  /** The code's cases all compute the value at the rank. */
  lemma PercentileAtRank(v: seq<real>, p: real)
    requires v != [] && 0.0 <= p <= 1.0
    ensures 0.0 <= Rank(|v|, p) <= (|v| - 1) as real
    ensures Percentile(v, p) == Some(AtRank(v, Rank(|v|, p)))
  {
    RankFits(|v|, p);
    var k := Rank(|v|, p);
    hide Rank;
    if |v| > 1 {
      var f := k.Floor;
      if f as real == k && f < |v| - 1 {
        assert Between(v[f], v[f + 1], 1.0, 0.0) == v[f];
      }
    }
  }

  lemma AtRankBounds(v: seq<real>, k: real)
    requires v != [] && Sorted(v) && 0.0 <= k <= (|v| - 1) as real
    ensures v[k.Floor] <= AtRank(v, k)
    ensures k.Floor + 1 < |v| ==> AtRank(v, k) <= v[k.Floor + 1]
    ensures v[0] <= AtRank(v, k) <= v[|v| - 1]
  {
    var f := k.Floor;
    if f < |v| - 1 {
      BetweenBounds(v[f], v[f + 1], k - f as real);
    }
  }

  lemma AtRankGrows(v: seq<real>, k: real, m: real)
    requires v != [] && Sorted(v) && 0.0 <= k <= m <= (|v| - 1) as real
    ensures AtRank(v, k) <= AtRank(v, m)
  {
    AtRankBounds(v, k);
    AtRankBounds(v, m);
    var f := k.Floor;
    if f == m.Floor && f < |v| - 1 {
      BetweenGrows(v[f], v[f + 1], k - f as real, m - f as real);
    }
  }

  // ----------------------------------------------------------- main results

  /** Every percentile lies between the least and the greatest value. */
  lemma PercentileBounds(v: seq<real>, p: real)
    requires v != [] && Sorted(v) && 0.0 <= p <= 1.0
    ensures Percentile(v, p).Some? && v[0] <= Percentile(v, p).value <= v[|v| - 1]
  {
    PercentileAtRank(v, p);
    hide Percentile, AtRank, Rank;
    AtRankBounds(v, Rank(|v|, p));
  }

  lemma PercentileMonotone(v: seq<real>, p: real, q: real)
    requires v != [] && Sorted(v) && 0.0 <= p <= q <= 1.0
    ensures Percentile(v, p).Some? && Percentile(v, q).Some? && Percentile(v, p).value <= Percentile(v, q).value
  {
    PercentileAtRank(v, p);
    PercentileAtRank(v, q);
    RanksOrdered(|v|, p, q);
    hide Percentile, AtRank, Rank;
    AtRankGrows(v, Rank(|v|, p), Rank(|v|, q));
  }

  /** At one half it is the median, for an odd and for an even number of values. */
  lemma PercentileAtHalf(v: seq<real>)
    requires v != []
    ensures Percentile(v, 0.5) == Some(Median(v))
  {
    PercentileAtRank(v, 0.5);
    hide Percentile;
    var n := |v|;
    var k := Rank(n, 0.5);
    if n % 2 == 1 {
      assert k == ((n - 1) / 2) as real && (n - 1) / 2 == n / 2;
      if n > 1 {
        assert Between(v[n / 2], v[n / 2 + 1], 1.0, 0.0) == v[n / 2];
      }
    } else {
      assert k == (n / 2 - 1) as real + 0.5;
      assert Between(v[n / 2 - 1], v[n / 2], 0.5, 0.5) == Median(v);
    }
  }

  /** Where the rank is whole it is the value of that rank, so the blend passes through every value. */
  lemma PercentileAtValue(v: seq<real>, p: real, i: nat)
    requires i < |v| && 0.0 <= p <= 1.0 && Rank(|v|, p) == i as real
    ensures Percentile(v, p) == Some(v[i])
  {
    PercentileAtRank(v, p);
    hide Percentile, Rank;
    if i < |v| - 1 {
      assert Between(v[i], v[i + 1], 1.0, 0.0) == v[i];
    }
  }

  /**
   * Between the ranks of two neighbours it is the straight line through their
   * values, whatever the values are.
   */
  lemma PercentileIsLinear(v: seq<real>, p: real, i: nat)
    requires i + 1 < |v| && 0.0 <= p <= 1.0
    requires i as real <= (|v| - 1) as real * p <= i as real + 1.0
    ensures Percentile(v, p).Some?
    ensures Percentile(v, p).value == v[i] + ((|v| - 1) as real * p - i as real) * (v[i + 1] - v[i])
  {
    AtRankIsLinear(v, p, i);
  }

  lemma AtRankIsLinear(v: seq<real>, p: real, i: nat)
    requires i + 1 < |v| && 0.0 <= p <= 1.0
    requires i as real <= Rank(|v|, p) <= i as real + 1.0
    ensures Percentile(v, p).Some?
    ensures Percentile(v, p).value == v[i] + (Rank(|v|, p) - i as real) * (v[i + 1] - v[i])
  {
    hide Percentile, Rank, Between;
    PercentileAtRank(v, p);
    var k := Rank(|v|, p);
    if k == (i + 1) as real {
      PercentileAtValue(v, p, i + 1);
      assert (k - i as real) * (v[i + 1] - v[i]) == v[i + 1] - v[i];
    } else {
      assert k.Floor == i;
      LineOf(v[i], v[i + 1], k - i as real);
    }
  }

  /** The weighted sum is a point of the line from low to high. */
  lemma LineOf(low: real, high: real, x: real)
    ensures Between(low, high, 1.0 - x, x) == low + x * (high - low)
  {
  }

  /** The 95th percentile of 1 to 10, worked out: rank 8.55, so 9.55. */
  lemma PercentileExample()
    ensures Percentile([1.0, 2.0, 3.0, 4.0, 5.0, 6.0, 7.0, 8.0, 9.0, 10.0], 0.95) == Some(9.55)
  {
    var v := [1.0, 2.0, 3.0, 4.0, 5.0, 6.0, 7.0, 8.0, 9.0, 10.0];
    PercentileIsLinear(v, 0.95, 8);
  }

  predicate IsMin(data: seq<real>, x: real) {
    x in data && forall y :: y in data ==> x <= y
  }

  predicate IsMax(data: seq<real>, x: real) {
    x in data && forall y :: y in data ==> y <= x
  }

  /** Sorting keeps the least and the greatest measurement and puts them at the ends. */
  lemma ExtremesOfSorted(data: seq<real>, elapsed: seq<real>, least: real, greatest: real)
    requires data != [] && multiset(elapsed) == multiset(data) && Sorted(elapsed)
    requires IsMin(data, least) && IsMax(data, greatest)
    ensures elapsed != [] && elapsed[0] == least && elapsed[|elapsed| - 1] == greatest
  {
    assert |elapsed| == |multiset(elapsed)| == |multiset(data)| == |data|;
    assert elapsed[0] in multiset(data) && elapsed[|elapsed| - 1] in multiset(data);
    assert least in multiset(elapsed) && greatest in multiset(elapsed);
    var i :| 0 <= i < |elapsed| && elapsed[i] == least;
    var j :| 0 <= j < |elapsed| && elapsed[j] == greatest;
    assert elapsed[0] <= elapsed[i] && elapsed[j] <= elapsed[|elapsed| - 1];
    assert elapsed[0] in data && elapsed[|elapsed| - 1] in data;
  }

  /** The statistics of a summary are in order, whatever the measurements and their order of arrival. */
  lemma SummaryIsOrdered(data: seq<real>, elapsed: seq<real>, least: real, greatest: real)
    requires data != [] && multiset(elapsed) == multiset(data) && Sorted(elapsed)
    requires IsMin(data, least) && IsMax(data, greatest)
    ensures elapsed != []
    ensures Percentile(elapsed, 0.95).Some? && Percentile(elapsed, 0.99).Some?
    ensures least <= Median(elapsed) <= Percentile(elapsed, 0.95).value <= Percentile(elapsed, 0.99).value <= greatest
  {
    ExtremesOfSorted(data, elapsed, least, greatest);
    hide Percentile, Median, Sorted, IsMin, IsMax;
    PercentileAtHalf(elapsed);
    PercentileBounds(elapsed, 0.5);
    PercentileMonotone(elapsed, 0.5, 0.95);
    PercentileMonotone(elapsed, 0.95, 0.99);
    PercentileBounds(elapsed, 0.99);
  }
}
