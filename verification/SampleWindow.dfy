/**
 The latency windows of the gateway (gateway.rs, `GatewayMetrics::record_sample` and
 `percentile`): the last 2,048 samples and the percentiles read from them.
 */
module SampleWindow {
  import opened Outcomes
  import opened Sorting

  const SAMPLE_LIMIT: nat := 2048
  const USIZE_MAX: nat := 0xFFFF_FFFF_FFFF_FFFF

  // ------------------------------------------------------------------ specification

  function AtMost(): (nat, nat) -> bool {
    (a: nat, b: nat) => a <= b
  }

  lemma AtMostIsTotalOrder()
    ensures TotalOrder(AtMost())
  {
  }

  /** The last `n` elements. */
  function Last<T>(xs: seq<T>, n: nat): seq<T> {
    if |xs| <= n then xs else xs[|xs| - n..]
  }

  /** Which element of the sorted samples is reported; the product saturates. */
  function PercentileIndex(count: nat, p: nat): nat
    requires count > 0
  {
    var product := (count - 1) * p;
    var saturated := if product <= USIZE_MAX then product else USIZE_MAX;
    (saturated + 99) / 100
  }

  function PercentileOf(samples: seq<nat>, p: nat): Option<nat> {
    if samples == [] then None
    else
      var index := PercentileIndex(|samples|, p);
      if index < |Sort(samples, AtMost())| then Some(Sort(samples, AtMost())[index]) else None
  }

  function CountAtMost(samples: seq<nat>, v: nat): nat {
    if samples == [] then 0 else (if samples[0] <= v then 1 else 0) + CountAtMost(samples[1..], v)
  }

  function CountBelow(samples: seq<nat>, v: nat): nat {
    if samples == [] then 0 else (if samples[0] < v then 1 else 0) + CountBelow(samples[1..], v)
  }

  // ------------------------------------------------------------------ counting

  lemma {:induction false} CountsOfInsert(x: nat, xs: seq<nat>, v: nat)
    ensures CountAtMost(Insert(x, xs, AtMost()), v) == (if x <= v then 1 else 0) + CountAtMost(xs, v)
    ensures CountBelow(Insert(x, xs, AtMost()), v) == (if x < v then 1 else 0) + CountBelow(xs, v)
  {
    var inserted := Insert(x, xs, AtMost());
    if xs == [] || x <= xs[0] {
      assert inserted[0] == x && inserted[1..] == xs;
    } else {
      assert inserted[0] == xs[0] && inserted[1..] == Insert(x, xs[1..], AtMost());
      CountsOfInsert(x, xs[1..], v);
    }
  }

  lemma {:induction false} CountsOfSort(xs: seq<nat>, v: nat)
    ensures CountAtMost(Sort(xs, AtMost()), v) == CountAtMost(xs, v)
    ensures CountBelow(Sort(xs, AtMost()), v) == CountBelow(xs, v)
  {
    if xs != [] {
      CountsOfSort(xs[1..], v);
      CountsOfInsert(xs[0], Sort(xs[1..], AtMost()), v);
    }
  }

  lemma {:induction false} CountOfPrefix(s: seq<nat>, m: nat, v: nat)
    requires m <= |s| && forall i | 0 <= i < m :: s[i] <= v
    ensures CountAtMost(s, v) >= m
  {
    if m > 0 {
      CountOfPrefix(s[1..], m - 1, v);
    }
  }

  lemma {:induction false} CountOfSuffix(s: seq<nat>, m: nat, v: nat)
    requires m <= |s| && forall i | m <= i < |s| :: s[i] >= v
    ensures CountBelow(s, v) <= m
  {
    if s != [] {
      CountOfSuffix(s[1..], if m > 0 then m - 1 else 0, v);
    }
  }

  // --------------------------------------------------------------- percentiles

  lemma ProductBound(count: nat, p: nat)
    requires 0 < count && p <= 100
    ensures 0 <= (count - 1) * p <= (count - 1) * 100
    ensures count * p == (count - 1) * p + p
  {
  }

  lemma IndexBounds(count: nat, p: nat)
    requires 0 < count <= SAMPLE_LIMIT && p <= 100
    ensures var index := PercentileIndex(count, p);
            index < count && (count - 1) * p <= 100 * index < (count - 1) * p + 100
  {
    ProductBound(count, p);
  }

  lemma IndexBeyond(count: nat, p: nat)
    requires 1 < count <= SAMPLE_LIMIT && p > 100
    ensures PercentileIndex(count, p) >= count
  {
    var product := (count - 1) * p;
    assert product >= (count - 1) * 101 by {
      assert (count - 1) * (p - 101) >= 0;
      assert (count - 1) * (p - 101) == product - (count - 1) * 101;
    }
  }

  /** A percentile is missing exactly for an empty window, or above 100 with two samples or more. */
  lemma PercentileMissingExactly(samples: seq<nat>, p: nat)
    requires |samples| <= SAMPLE_LIMIT
    ensures PercentileOf(samples, p).None? <==> samples == [] || (p > 100 && |samples| > 1)
  {
    AtMostIsTotalOrder();
    SortSorts(samples, AtMost());
    if samples != [] {
      if p <= 100 {
        IndexBounds(|samples|, p);
      } else if |samples| > 1 {
        IndexBeyond(|samples|, p);
      } else {
        assert PercentileIndex(1, p) == 0;
      }
    }
  }

  /**
   The reported value is a retained sample; at least `p` percent of the samples are no larger,
   and no more than `p` percent of the others, rounded up, are smaller.
   */
  lemma PercentileRank(samples: seq<nat>, p: nat)
    requires 0 < |samples| <= SAMPLE_LIMIT && p <= 100
    ensures var reported := PercentileOf(samples, p);
            && reported.Some? && reported.value in samples
            && 100 * CountAtMost(samples, reported.value) >= p * |samples|
            && 100 * CountBelow(samples, reported.value) < p * (|samples| - 1) + 100
  {
    var sorted := Sort(samples, AtMost());
    AtMostIsTotalOrder();
    SortSorts(samples, AtMost());
    IndexBounds(|samples|, p);
    ProductBound(|samples|, p);
    var index := PercentileIndex(|samples|, p);
    var v := sorted[index];
    assert v in multiset(sorted);
    CountsOfSort(samples, v);
    SortedAround(sorted, index);
    CountOfPrefix(sorted, index + 1, v);
    CountOfSuffix(sorted, index, v);
  }

  lemma SortedAround(sorted: seq<nat>, k: nat)
    requires Sorted(sorted, AtMost()) && k < |sorted|
    ensures forall i | 0 <= i <= k :: sorted[i] <= sorted[k]
    ensures forall i | k <= i < |sorted| :: sorted[k] <= sorted[i]
  {
    forall i | 0 <= i < k
      ensures sorted[i] <= sorted[k]
    {
      assert AtMost()(sorted[i], sorted[k]);
    }
    forall i | k < i < |sorted|
      ensures sorted[k] <= sorted[i]
    {
      assert AtMost()(sorted[k], sorted[i]);
    }
  }

  lemma ProductMonotone(n: nat, p: nat, q: nat)
    requires p <= q
    ensures n * p <= n * q
  {
  }

  lemma QuotientMonotone(a: nat, b: nat)
    requires a <= b
    ensures (a + 99) / 100 <= (b + 99) / 100
  {
  }

  lemma IndexMonotone(count: nat, p: nat, q: nat)
    requires 0 < count <= SAMPLE_LIMIT && p <= q <= 100
    ensures PercentileIndex(count, p) <= PercentileIndex(count, q) < count
  {
    ProductMonotone(count - 1, p, q);
    ProductBound(count, q);
    QuotientMonotone((count - 1) * p, (count - 1) * q);
    IndexBounds(count, q);
  }

  /** A higher percentile is never smaller; 0 gives the least sample and 100 the greatest. */
  lemma PercentileMonotone(samples: seq<nat>, p: nat, q: nat)
    requires 0 < |samples| <= SAMPLE_LIMIT && p <= q <= 100
    ensures PercentileOf(samples, p).Some? && PercentileOf(samples, q).Some?
    ensures PercentileOf(samples, p).value <= PercentileOf(samples, q).value
  {
    AtMostIsTotalOrder();
    SortSorts(samples, AtMost());
    IndexMonotone(|samples|, p, q);
    SortedAround(Sort(samples, AtMost()), PercentileIndex(|samples|, q));
  }

  lemma PercentileExtremes(samples: seq<nat>)
    requires 0 < |samples| <= SAMPLE_LIMIT
    ensures PercentileOf(samples, 0).Some? && PercentileOf(samples, 100).Some?
    ensures forall x | x in samples :: PercentileOf(samples, 0).value <= x <= PercentileOf(samples, 100).value
  {
    var sorted := Sort(samples, AtMost());
    AtMostIsTotalOrder();
    SortSorts(samples, AtMost());
    assert PercentileIndex(|samples|, 0) == 0 && PercentileIndex(|samples|, 100) == |samples| - 1;
    SortedAround(sorted, 0);
    SortedAround(sorted, |samples| - 1);
    forall x | x in samples
      ensures x in sorted
    {
      assert x in multiset(samples);
    }
  }

  /** Percentiles depend on which samples are retained, not on their order. */
  lemma PercentileForgetsOrder(a: seq<nat>, b: seq<nat>, p: nat)
    requires multiset(a) == multiset(b)
    ensures PercentileOf(a, p) == PercentileOf(b, p)
  {
    AtMostIsTotalOrder();
    assert |multiset(a)| == |a| && |multiset(b)| == |b|;
    SortForgetsOrder(a, b, AtMost());
  }

  // ------------------------------------------------------------------ the window

  class Samples {
    var samples: seq<nat>
    ghost var history: seq<nat>

    /** The window holds the last 2,048 samples ever recorded. */
    ghost predicate Valid()
      reads this
    {
      samples == Last(history, SAMPLE_LIMIT)
    }

    constructor ()
      ensures Valid() && history == []
    {
      samples, history := [], [];
    }

    /** `record_sample`. */
    method Record(value: nat)
      requires Valid()
      modifies this
      ensures Valid() && history == old(history) + [value]
    {
      LastOfExtended(history, value, SAMPLE_LIMIT);
      if |samples| == SAMPLE_LIMIT {
        samples := samples[1..];
      }
      samples := samples + [value];
      history := history + [value];
    }

    /** `percentile`: it sorts a copy. */
    method Percentile(p: nat) returns (r: Option<nat>)
      requires Valid()
      ensures r == PercentileOf(Last(history, SAMPLE_LIMIT), p)
    {
      var values := samples;
      if values == [] {
        return None;
      }
      values := Sort(values, AtMost());
      AtMostIsTotalOrder();
      SortSorts(samples, AtMost());
      var index := PercentileIndex(|values|, p);
      r := if index < |values| then Some(values[index]) else None;
    }
  }

  lemma LastOfExtended<T>(xs: seq<T>, x: T, n: nat)
    requires n > 0
    ensures var last := Last(xs, n);
            Last(xs + [x], n) == (if |last| == n then last[1..] else last) + [x]
  {
  }

  /** `record_sample` on values. */
  function Recorded(samples: seq<nat>, value: nat): seq<nat> {
    (if |samples| == SAMPLE_LIMIT then samples[1..] else samples) + [value]
  }

  function RecordedAll(samples: seq<nat>, values: seq<nat>): seq<nat>
    decreases values
  {
    if values == [] then samples else RecordedAll(Recorded(samples, values[0]), values[1..])
  }

  /** After any run of samples the window is the last 2,048 of them. */
  lemma {:induction false} RunHoldsLast(history: seq<nat>, values: seq<nat>)
    ensures RecordedAll(Last(history, SAMPLE_LIMIT), values) == Last(history + values, SAMPLE_LIMIT)
    decreases values
  {
    if values == [] {
      assert history + values == history;
    } else {
      LastOfExtended(history, values[0], SAMPLE_LIMIT);
      RunHoldsLast(history + [values[0]], values[1..]);
      assert history + [values[0]] + values[1..] == history + values;
    }
  }
}
