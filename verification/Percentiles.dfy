/** `_percentile` and `statistics.median` of `compose/accelerated/bench_embed.py`, over the reals. */
module Percentiles {
  import opened Wrappers
  import opened Sorting

  predicate Ascending(s: seq<real>) {
    forall i, j :: 0 <= i <= j < |s| ==> s[i] <= s[j]
  }

  function Itself(x: real): real {
    x
  }

  /** `sorted(values)` */
  function Sorted(values: seq<real>): seq<real> {
    Sort(Itself, values)
  }

  function Times(a: real, b: real): real {
    a * b
  }

  /** The value at a real position between two order statistics. */
  function Interpolate(ordered: seq<real>, position: real): real
    requires 0.0 <= position <= (|ordered| - 1) as real
  {
    var lower := position.Floor;
    if position == lower as real then ordered[lower]
    else ordered[lower] + Times(ordered[lower + 1] - ordered[lower], position - lower as real)
  }

  /** Where the percentile falls among `n + 1` order statistics. */
  function Position(n: nat, percentile: real): (r: real)
    requires 0.0 <= percentile <= 1.0
    ensures 0.0 <= r <= n as real
  {
    ScaledInRange(n as real, percentile);
    Times(n as real, percentile)
  }

  lemma NotNegative(a: real, b: real)
    requires 0.0 <= a && 0.0 <= b
    ensures 0.0 <= Times(a, b)
  {
  }

  lemma Scaling(k: real, x: real, y: real)
    requires 0.0 <= k && x <= y
    ensures Times(k, x) <= Times(k, y)
  {
    var d := y - x;
    NotNegative(k, d);
    assert k * (x + d) == k * x + k * d;
  }

  lemma ScaledInRange(n: real, p: real)
    requires 0.0 <= n && 0.0 <= p <= 1.0
    ensures 0.0 <= Times(n, p) <= n
  {
    Scaling(n, 0.0, p);
    Scaling(n, p, 1.0);
  }

  /** `_percentile`; None where it raises ValueError. */
  function Percentile(values: seq<real>, percentile: real): Option<real>
    requires 0.0 <= percentile <= 1.0
  {
    if values == [] then None
    else
      var ordered := Sorted(values);
      SortedSorts(values);
      Some(if |ordered| == 1 then ordered[0] else Interpolate(ordered, Position(|ordered| - 1, percentile)))
  }

  lemma SortedSorts(values: seq<real>)
    ensures Ascending(Sorted(values)) && |Sorted(values)| == |values|
  {
    SortAscends(Itself, values);
    var ordered := Sorted(values);
    forall i, j | 0 <= i <= j < |ordered| ensures ordered[i] <= ordered[j] {
      assert Itself(ordered[i]) <= Itself(ordered[j]);
    }
  }

  /** The percentile does not depend on the order of the values. */
  lemma PercentileIgnoresOrder(a: seq<real>, b: seq<real>, p: real)
    requires 0.0 <= p <= 1.0 && multiset(a) == multiset(b)
    ensures Percentile(a, p) == Percentile(b, p)
  {
    SortIgnoresOrder(Itself, a, b);
    SortedSorts(a);
    SortedSorts(b);
  }

  /* ---------- Interpolation ---------- */

  lemma Convex(a: real, b: real, t: real)
    requires a <= b && 0.0 <= t <= 1.0
    ensures a <= a + Times(b - a, t) <= b
  {
    ScaledInRange(b - a, t);
  }

  lemma FloorBelow(x: real, n: nat)
    requires 0.0 <= x <= n as real
    ensures 0 <= x.Floor <= n && x.Floor as real <= x < x.Floor as real + 1.0
    ensures x != x.Floor as real ==> x.Floor < n
  {
  }

  /** The result lies between the two neighbouring order statistics. */
  lemma InterpolateIsBetween(ordered: seq<real>, x: real)
    requires Ascending(ordered) && 0.0 <= x <= (|ordered| - 1) as real
    ensures ordered[x.Floor] <= Interpolate(ordered, x)
    ensures x.Floor + 1 < |ordered| ==> Interpolate(ordered, x) <= ordered[x.Floor + 1]
    ensures x == x.Floor as real ==> Interpolate(ordered, x) == ordered[x.Floor]
  {
    var lower := x.Floor;
    FloorBelow(x, |ordered| - 1);
    if x != lower as real {
      Convex(ordered[lower], ordered[lower + 1], x - lower as real);
    }
  }

  lemma InterpolateIsMonotone(ordered: seq<real>, x: real, y: real)
    requires Ascending(ordered) && 0.0 <= x <= y <= (|ordered| - 1) as real
    ensures Interpolate(ordered, x) <= Interpolate(ordered, y)
  {
    InterpolateIsBetween(ordered, x);
    InterpolateIsBetween(ordered, y);
    if x.Floor == y.Floor {
      if x != x.Floor as real {
        Scaling(ordered[x.Floor + 1] - ordered[x.Floor], x - x.Floor as real, y - x.Floor as real);
      }
    } else {
      assert x.Floor + 1 <= y.Floor;
      assert ordered[x.Floor + 1] <= ordered[y.Floor];
    }
  }

  /** A higher percentile is never smaller: in particular p50 <= p95. */
  lemma PercentileIsMonotone(values: seq<real>, p: real, q: real)
    requires values != [] && 0.0 <= p <= q <= 1.0
    ensures Percentile(values, p).value <= Percentile(values, q).value
  {
    SortedSorts(values);
    var ordered := Sorted(values);
    if |ordered| > 1 {
      Scaling((|ordered| - 1) as real, p, q);
      InterpolateIsMonotone(ordered, Position(|ordered| - 1, p), Position(|ordered| - 1, q));
    }
  }

  /** It stays within the sample, and reaches its ends at 0 and 1. */
  lemma PercentileStaysInside(values: seq<real>, p: real)
    requires values != [] && 0.0 <= p <= 1.0
    ensures var ordered := Sorted(values);
            && |ordered| == |values|
            && Percentile(values, 0.0) == Some(ordered[0]) && Percentile(values, 1.0) == Some(ordered[|ordered| - 1])
            && ordered[0] <= Percentile(values, p).value <= ordered[|ordered| - 1]
  {
    SortedSorts(values);
    PercentileIsMonotone(values, 0.0, p);
    PercentileIsMonotone(values, p, 1.0);
  }

  /** Percentile `p` lies between order statistics floor((n-1)p) and ceil((n-1)p). */
  lemma PercentileIsBetween(values: seq<real>, p: real)
    requires |values| > 1 && 0.0 <= p <= 1.0
    ensures var ordered := Sorted(values);
            var position := Position(|values| - 1, p);
            var lower := position.Floor;
            var upper := if position == lower as real then lower else lower + 1;
            && 0 <= lower <= upper < |ordered|
            && ordered[lower] <= Percentile(values, p).value <= ordered[upper]
  {
    SortedSorts(values);
    InterpolateIsBetween(Sorted(values), Position(|values| - 1, p));
  }

  /** `statistics.median` */
  function Median(values: seq<real>): real
    requires values != []
  {
    SortedSorts(values);
    var ordered := Sorted(values);
    var half := |ordered| / 2;
    if |ordered| % 2 == 1 then ordered[half] else (ordered[half - 1] + ordered[half]) / 2.0
  }

  lemma Mean(a: real, b: real, w: real)
    ensures a + Times(b - a, w) == (1.0 - w) * a + w * b
  {
  }

  /** The mean of two neighbours, weighted by the fraction of the position. */
  function WeightedMean(ordered: seq<real>, x: real): real
    requires 0.0 <= x < (|ordered| - 1) as real
  {
    var weight := x - x.Floor as real;
    (1.0 - weight) * ordered[x.Floor] + weight * ordered[x.Floor + 1]
  }

  lemma InterpolateIsMean(ordered: seq<real>, x: real)
    requires 0.0 <= x < (|ordered| - 1) as real
    ensures Interpolate(ordered, x) == WeightedMean(ordered, x)
  {
    Mean(ordered[x.Floor], ordered[x.Floor + 1], x - x.Floor as real);
    Mean(ordered[x.Floor], ordered[x.Floor + 1], 0.0);
  }

  lemma PositionIsBelowTop(n: nat, p: real)
    requires n > 0 && 0.0 <= p < 1.0
    ensures 0.0 <= Position(n, p) < n as real
    ensures Position(n, p) == n as real * p
  {
    BelowTop(n as real, p);
  }

  /** Below the top, the percentile is the weighted mean of the order statistics around (n-1)p. */
  lemma PercentileIsWeightedMean(values: seq<real>, p: real)
    requires |values| > 1 && 0.0 <= p < 1.0
    ensures |Sorted(values)| == |values| && 0.0 <= Position(|values| - 1, p) < (|values| - 1) as real
    ensures Percentile(values, p) == Some(WeightedMean(Sorted(values), Position(|values| - 1, p)))
  {
    SortedSorts(values);
    PositionIsBelowTop(|values| - 1, p);
    InterpolateIsMean(Sorted(values), Position(|values| - 1, p));
  }

  lemma BelowTop(n: real, p: real)
    requires 0.0 < n && 0.0 <= p < 1.0
    ensures 0.0 <= Times(n, p) < n
  {
    assert n - n * p == n * (1.0 - p);
  }

  /** At 0.5 the percentile is the median. */
  lemma PercentileOfHalfIsMedian(values: seq<real>)
    requires values != []
    ensures Percentile(values, 0.5) == Some(Median(values))
  {
    SortedSorts(values);
    var n := |values|;
    var half := n / 2;
    if n > 1 {
      var position := Position(n - 1, 0.5);
      var ordered := Sorted(values);
      if n % 2 == 1 {
        assert n == 2 * half + 1;
        assert position == half as real;
      } else {
        assert n == 2 * half;
        assert position == (half - 1) as real + 0.5;
        assert position.Floor == half - 1;
        var (a, b) := (ordered[half - 1], ordered[half]);
        assert Interpolate(ordered, position) == a + Times(b - a, 0.5) == (a + b) / 2.0;
      }
    }
  }
}
