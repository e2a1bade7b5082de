/**
 * The interpolated percentiles of the benchmark reports, over the reals, and the summary rows built from them.
 */
module Percentile {
  import opened Sequences
  import opened Sorting

  const LE: (real, real) -> bool := (a, b) => a <= b

  function Ordered(values: seq<real>): seq<real> { Sort(LE, values) }

  datatype Outcome = NoValue | OutOfRange | Quantile(value: real)

  function Mix(a: real, b: real, weight: real): real { a * (1.0 - weight) + b * weight }

  function Upper(n: nat, lower: int): int { if lower + 1 < n - 1 then lower + 1 else n - 1 }

  /** Linear interpolation between the two neighbours of a rank, as the benchmark computes it. */
  function Interpolate(ordered: seq<real>, rank: real): real
    requires ordered != [] && 0.0 <= rank <= (|ordered| - 1) as real
  {
    var lower := rank.Floor;
    Mix(ordered[lower], ordered[Upper(|ordered|, lower)], rank - lower as real)
  }

  function RankOf(n: nat, q: real): (rank: real)
    requires n > 0 && 0.0 <= q <= 100.0
    ensures 0.0 <= rank <= (n - 1) as real
  {
    var share, last := q / 100.0, (n - 1) as real;
    Scaled(share, last);
    share * last
  }

  function PercentileOf(values: seq<real>, q: real): Outcome {
    if values == [] then NoValue
    else if q < 0.0 || q > 100.0 then OutOfRange
    else
      SortSorts(LE, values);
      var ordered := Ordered(values);
      if |ordered| == 1 then Quantile(ordered[0]) else Quantile(Interpolate(ordered, RankOf(|ordered|, q)))
  }

  function Position(n: nat, q: real): (position: real)
    requires n > 0 && 0.0 <= q <= 1.0
    ensures 0.0 <= position <= (n - 1) as real
  {
    var last := (n - 1) as real;
    Scaled(q, last);
    last * q
  }

  /** The second formula, of the outlier triage, on values that are sorted already. */
  function TriagePercentile(sorted: seq<real>, q: real): real
    requires sorted != [] && 0.0 <= q <= 1.0
  {
    if |sorted| == 1 then sorted[0]
    else
      var position := Position(|sorted|, q);
      var lower := position.Floor;
      var upper := Upper(|sorted|, lower);
      sorted[lower] + (sorted[upper] - sorted[lower]) * (position - lower as real)
  }

  // ---- one interpolation ----

  lemma Scaled(f: real, m: real)
    requires 0.0 <= f <= 1.0 && m >= 0.0
    ensures 0.0 <= f * m <= m && 0.0 <= m * f <= m
  {
  }

  lemma Product(x: real, y: real)
    requires x >= 0.0 && y >= 0.0
    ensures x * y >= 0.0
  {
  }

  lemma MixForms(a: real, b: real, w: real, v: real)
    ensures Mix(a, b, w) == a + (b - a) * w == b - (b - a) * (1.0 - w)
    ensures Mix(a, b, v) - Mix(a, b, w) == (b - a) * (v - w)
  {
  }

  lemma MixBetween(a: real, b: real, w: real)
    requires a <= b && 0.0 <= w <= 1.0
    ensures a <= Mix(a, b, w) <= b
  {
    MixForms(a, b, w, w);
    Product(b - a, w);
    Product(b - a, 1.0 - w);
  }

  lemma MixGrows(a: real, b: real, w: real, v: real)
    requires a <= b && w <= v
    ensures Mix(a, b, w) <= Mix(a, b, v)
  {
    MixForms(a, b, w, v);
    Product(b - a, v - w);
  }

  lemma MixPointwise(a: real, b: real, c: real, d: real, w: real)
    requires a <= c && b <= d && 0.0 <= w <= 1.0
    ensures Mix(a, b, w) <= Mix(c, d, w)
  {
    Product(c - a, 1.0 - w);
    Product(d - b, w);
    assert Mix(c, d, w) - Mix(a, b, w) == (c - a) * (1.0 - w) + (d - b) * w;
  }

  lemma InterpolateBetween(ordered: seq<real>, rank: real)
    requires Sorted(LE, ordered) && ordered != [] && 0.0 <= rank <= (|ordered| - 1) as real
    ensures ordered[rank.Floor] <= Interpolate(ordered, rank) <= ordered[Upper(|ordered|, rank.Floor)]
  {
    var lower := rank.Floor;
    var upper := Upper(|ordered|, lower);
    assert lower < upper ==> LE(ordered[lower], ordered[upper]);
    MixBetween(ordered[lower], ordered[upper], rank - lower as real);
  }

  lemma InterpolateGrows(ordered: seq<real>, r1: real, r2: real)
    requires Sorted(LE, ordered) && ordered != [] && 0.0 <= r1 <= r2 <= (|ordered| - 1) as real
    ensures Interpolate(ordered, r1) <= Interpolate(ordered, r2)
  {
    var l1, l2 := r1.Floor, r2.Floor;
    InterpolateBetween(ordered, r1);
    InterpolateBetween(ordered, r2);
    if l1 == l2 {
      var upper := Upper(|ordered|, l1);
      assert l1 < upper ==> LE(ordered[l1], ordered[upper]);
      MixGrows(ordered[l1], ordered[upper], r1 - l1 as real, r2 - l1 as real);
    } else {
      assert l1 + 1 <= l2;
      assert l1 + 1 < l2 ==> LE(ordered[l1 + 1], ordered[l2]);
    }
  }

  lemma InterpolatePointwise(a: seq<real>, b: seq<real>, rank: real)
    requires |a| == |b| > 0 && 0.0 <= rank <= (|a| - 1) as real
    requires forall i :: 0 <= i < |a| ==> a[i] <= b[i]
    ensures Interpolate(a, rank) <= Interpolate(b, rank)
  {
    var lower := rank.Floor;
    var upper := Upper(|a|, lower);
    MixPointwise(a[lower], a[upper], b[lower], b[upper], rank - lower as real);
  }

  // ---- order statistics ----

  predicate AtMost(v: real, x: real) { v <= x }

  function CountAtMost(s: seq<real>, x: real): nat { Count((v: real) => AtMost(v, x), s) }

  lemma {:induction false} AllCount(s: seq<real>, x: real)
    ensures (forall i :: 0 <= i < |s| ==> s[i] <= x) ==> CountAtMost(s, x) == |s|
    ensures (forall i :: 0 <= i < |s| ==> s[i] > x) ==> CountAtMost(s, x) == 0
    ensures CountAtMost(s, x) <= |s|
  {
    if s != [] {
      AllCount(s[1..], x);
    }
  }

  lemma CountOfSplit(s: seq<real>, n: nat, x: real)
    requires n <= |s|
    ensures CountAtMost(s, x) == CountAtMost(s[..n], x) + CountAtMost(s[n..], x)
  {
    assert s == s[..n] + s[n..];
    CountAppend((v: real) => AtMost(v, x), s[..n], s[n..]);
  }

  /** In a sorted sequence the count of values up to a bound tells which places are within it. */
  lemma CountOfSorted(s: seq<real>, k: nat, x: real)
    requires Sorted(LE, s) && k < |s|
    ensures s[k] <= x <==> CountAtMost(s, x) >= k + 1
  {
    var n := if s[k] <= x then k + 1 else k;
    CountOfSplit(s, n, x);
    AllCount(s[..n], x);
    AllCount(s[n..], x);
    if s[k] <= x {
      forall i | 0 <= i < n ensures s[..n][i] <= x { assert i < k ==> LE(s[i], s[k]); }
    } else {
      forall i | 0 <= i < |s[n..]| ensures s[n..][i] > x { assert i > 0 ==> LE(s[k], s[k + i]); }
    }
  }

  /** If no bound has fewer values of `a` than of `b` below it, the sorted `a` is below the sorted `b` place by
      place. */
  lemma OrderStatistics(a: seq<real>, b: seq<real>, k: nat)
    requires k < |a| == |b|
    requires forall x :: CountAtMost(a, x) >= CountAtMost(b, x)
    ensures |Ordered(a)| == |a| && |Ordered(b)| == |b| && Ordered(a)[k] <= Ordered(b)[k]
  {
    SortSorts(LE, a);
    SortSorts(LE, b);
    var x := Ordered(b)[k];
    CountOfSorted(Ordered(b), k, x);
    CountPermutation((v: real) => AtMost(v, x), Ordered(b), b);
    CountPermutation((v: real) => AtMost(v, x), Ordered(a), a);
    assert CountAtMost(a, x) >= CountAtMost(b, x);
    CountOfSorted(Ordered(a), k, x);
  }

  lemma {:induction false} SmallerValuesCountMore(a: seq<real>, b: seq<real>, x: real)
    requires |a| == |b| && forall i :: 0 <= i < |a| ==> a[i] <= b[i]
    ensures CountAtMost(a, x) >= CountAtMost(b, x)
  {
    if a != [] {
      SmallerValuesCountMore(a[1..], b[1..], x);
    }
  }

  // ---- the percentile ----

  lemma RankGrows(n: nat, q1: real, q2: real)
    requires n > 0 && 0.0 <= q1 <= q2 <= 100.0
    ensures RankOf(n, q1) <= RankOf(n, q2)
  {
    var m := (n - 1) as real;
    Product(q2 / 100.0 - q1 / 100.0, m);
    assert (q2 / 100.0 - q1 / 100.0) * m == q2 / 100.0 * m - q1 / 100.0 * m;
  }

  /** With samples, a percentile is the interpolation at its rank, one sample included. */
  lemma PercentileIs(values: seq<real>, q: real)
    requires values != [] && 0.0 <= q <= 100.0
    ensures Sorted(LE, Ordered(values)) && |Ordered(values)| == |values|
    ensures multiset(Ordered(values)) == multiset(values)
    ensures PercentileOf(values, q) == Quantile(Interpolate(Ordered(values), RankOf(|values|, q)))
  {
    SortSorts(LE, values);
    if |values| == 1 {
      var a := Ordered(values)[0];
      assert RankOf(1, q) == 0.0;
      assert Interpolate(Ordered(values), 0.0) == Mix(a, a, 0.0);
    }
  }

  lemma OrderedMembers(values: seq<real>, i: nat)
    requires i < |values|
    ensures |Ordered(values)| == |values| && Ordered(values)[i] in values
  {
    SortSorts(LE, values);
    assert Ordered(values)[i] in multiset(Ordered(values));
  }

  /** A percentile lies between the least and the greatest sample. */
  lemma BetweenLeastAndGreatest(values: seq<real>, q: real, least: real, greatest: real)
    requires values != [] && 0.0 <= q <= 100.0
    requires forall i :: 0 <= i < |values| ==> least <= values[i] <= greatest
    ensures PercentileOf(values, q).Quantile? && least <= PercentileOf(values, q).value <= greatest
  {
    PercentileIs(values, q);
    var rank := RankOf(|values|, q);
    var lower := rank.Floor;
    InterpolateBetween(Ordered(values), rank);
    OrderedMembers(values, lower);
    OrderedMembers(values, Upper(|values|, lower));
  }

  /** For the same samples a larger `q` never gives a smaller percentile. */
  lemma GrowsWithQ(values: seq<real>, q1: real, q2: real)
    requires values != [] && 0.0 <= q1 <= q2 <= 100.0
    ensures PercentileOf(values, q1).Quantile? && PercentileOf(values, q2).Quantile?
    ensures PercentileOf(values, q1).value <= PercentileOf(values, q2).value
  {
    PercentileIs(values, q1);
    PercentileIs(values, q2);
    RankGrows(|values|, q1, q2);
    InterpolateGrows(Ordered(values), RankOf(|values|, q1), RankOf(|values|, q2));
  }

  lemma PercentileOfLess(a: seq<real>, b: seq<real>, q: real)
    requires |a| == |b| > 0 && 0.0 <= q <= 100.0
    requires forall x :: CountAtMost(a, x) >= CountAtMost(b, x)
    ensures PercentileOf(a, q).Quantile? && PercentileOf(b, q).Quantile?
    ensures PercentileOf(a, q).value <= PercentileOf(b, q).value
  {
    PercentileIs(a, q);
    PercentileIs(b, q);
    forall k | 0 <= k < |a| ensures Ordered(a)[k] <= Ordered(b)[k] { OrderStatistics(a, b, k); }
    InterpolatePointwise(Ordered(a), Ordered(b), RankOf(|a|, q));
  }

  /** Raising samples never lowers a percentile, wherever in the list they are. */
  lemma GrowsWithSamples(a: seq<real>, b: seq<real>, q: real)
    requires |a| == |b| > 0 && 0.0 <= q <= 100.0
    requires forall i :: 0 <= i < |a| ==> a[i] <= b[i]
    ensures PercentileOf(a, q).Quantile? && PercentileOf(b, q).Quantile?
    ensures PercentileOf(a, q).value <= PercentileOf(b, q).value
  {
    forall x ensures CountAtMost(a, x) >= CountAtMost(b, x) { SmallerValuesCountMore(a, b, x); }
    PercentileOfLess(a, b, q);
  }

  lemma OrderOfSamplesDoesNotMatter(a: seq<real>, b: seq<real>, q: real)
    requires multiset(a) == multiset(b)
    ensures PercentileOf(a, q) == PercentileOf(b, q)
  {
    assert |a| == |multiset(a)| == |multiset(b)| == |b|;
    if a != [] && 0.0 <= q <= 100.0 {
      forall x ensures CountAtMost(a, x) == CountAtMost(b, x) {
        CountPermutation((v: real) => AtMost(v, x), a, b);
      }
      PercentileOfLess(a, b, q);
      PercentileOfLess(b, a, q);
    }
  }

  /** On sorted samples the triage formula at `q / 100` gives the same value. */
  lemma BothFormulasAgree(values: seq<real>, q: real)
    requires values != [] && 0.0 <= q <= 100.0
    ensures |Ordered(values)| == |values|
    ensures PercentileOf(values, q) == Quantile(TriagePercentile(Ordered(values), q / 100.0))
  {
    PercentileIs(values, q);
    SortSorts(LE, values);
    var ordered, rank := Ordered(values), RankOf(|values|, q);
    if |ordered| > 1 {
      assert Position(|values|, q / 100.0) == rank;
      var lower := rank.Floor;
      var a, b, w := ordered[lower], ordered[Upper(|ordered|, lower)], rank - lower as real;
      MixForms(a, b, w, w);
    }
  }
}
