/** The nearest-rank percentile of scripts/bench_recommend.py, over exact reals. */
module Percentile {
  import Prelude

  /** How many values are at most `x`, or below `x` when `strict`. */
  function Count(xs: seq<real>, x: real, strict: bool): nat {
    if xs == [] then 0
    else (if xs[0] < x || (!strict && xs[0] == x) then 1 else 0) + Count(xs[1..], x, strict)
  }

  lemma {:induction false} CountAppend(a: seq<real>, b: seq<real>, x: real, strict: bool)
    ensures Count(a + b, x, strict) == Count(a, x, strict) + Count(b, x, strict)
  {
    if a == [] {
      assert a + b == b;
    } else {
      assert (a + b)[1..] == a[1..] + b;
      CountAppend(a[1..], b, x, strict);
    }
  }

  lemma {:induction false} CountAtMost(xs: seq<real>, x: real, strict: bool)
    ensures Count(xs, x, strict) <= |xs|
  {
    if xs != [] { CountAtMost(xs[1..], x, strict); }
  }

  lemma {:induction false} CountAll(xs: seq<real>, x: real)
    requires forall v :: v in xs ==> v <= x
    ensures Count(xs, x, false) == |xs|
  {
    if xs != [] {
      assert xs[0] in xs && forall v :: v in xs[1..] ==> v in xs;
      CountAll(xs[1..], x);
    }
  }

  lemma {:induction false} CountNone(xs: seq<real>, x: real, strict: bool)
    requires forall v :: v in xs ==> if strict then x <= v else x < v
    ensures Count(xs, x, strict) == 0
  {
    if xs != [] {
      assert xs[0] in xs && forall v :: v in xs[1..] ==> v in xs;
      CountNone(xs[1..], x, strict);
    }
  }

  lemma SplitAt(xs: seq<real>, j: nat)
    requires j < |xs|
    ensures xs == xs[..j] + ([xs[j]] + xs[j + 1..])
    ensures multiset(xs) == multiset(xs[..j] + xs[j + 1..]) + multiset{xs[j]}
  {
    assert xs == xs[..j] + ([xs[j]] + xs[j + 1..]);
  }

  lemma CountSplitAt(xs: seq<real>, j: nat, x: real, strict: bool)
    requires j < |xs|
    ensures Count(xs, x, strict) == Count([xs[j]], x, strict) + Count(xs[..j] + xs[j + 1..], x, strict)
  {
    SplitAt(xs, j);
    CountAppend(xs[..j], [xs[j]] + xs[j + 1..], x, strict);
    CountAppend([xs[j]], xs[j + 1..], x, strict);
    CountAppend(xs[..j], xs[j + 1..], x, strict);
  }

  /** Counts do not depend on the order. */
  lemma {:induction false} CountOfPermutation(a: seq<real>, b: seq<real>, x: real, strict: bool)
    requires multiset(a) == multiset(b)
    ensures Count(a, x, strict) == Count(b, x, strict)
    decreases |a|
  {
    if a == [] {
      assert |multiset(b)| == 0;
    } else {
      assert a[0] in multiset(a);
      assert a[0] in b;
      var j :| 0 <= j < |b| && b[j] == a[0];
      SplitAt(a, 0);
      SplitAt(b, j);
      assert a[..0] + a[1..] == a[1..];
      var rest := b[..j] + b[j + 1..];
      Cancel(multiset(a[1..]), multiset(rest), a[0]);
      CountOfPermutation(a[1..], rest, x, strict);
      CountSplitAt(a, 0, x, strict);
      CountSplitAt(b, j, x, strict);
    }
  }

  lemma Cancel(s: multiset<real>, t: multiset<real>, v: real)
    requires s + multiset{v} == t + multiset{v}
    ensures s == t
  {
    assert s == (s + multiset{v}) - multiset{v};
    assert t == (t + multiset{v}) - multiset{v};
  }

  // ----- sorting

  predicate Sorted(xs: seq<real>) { forall i, j :: 0 <= i < j < |xs| ==> xs[i] <= xs[j] }

  lemma InsertedMultiset(xs: seq<real>, k: nat, v: real)
    requires k <= |xs|
    ensures multiset(xs[..k] + [v] + xs[k..]) == multiset(xs) + multiset{v}
  {
    assert xs == xs[..k] + xs[k..];
  }

  /** A sorted copy. */
  method SortedCopy(values: seq<real>) returns (xs: seq<real>)
    ensures Sorted(xs) && multiset(xs) == multiset(values)
  {
    xs := [];
    for n := 0 to |values|
      invariant Sorted(xs) && multiset(xs) == multiset(values[..n])
    {
      assert values[..n + 1] == values[..n] + [values[n]];
      xs := InsertSorted(xs, values[n]);
    }
    assert values[..|values|] == values;
  }

  method InsertSorted(xs: seq<real>, v: real) returns (ys: seq<real>)
    requires Sorted(xs)
    ensures Sorted(ys) && multiset(ys) == multiset(xs) + multiset{v}
  {
    var k := |xs|;
    while k > 0 && xs[k - 1] > v
      invariant 0 <= k <= |xs|
      invariant forall j :: k <= j < |xs| ==> v < xs[j]
    {
      k := k - 1;
    }
    InsertedMultiset(xs, k, v);
    ys := xs[..k] + [v] + xs[k..];
  }

  // ----- the percentile

  /** p percent of n. */
  function Share(p: real, n: nat): real { p / 100.0 * n as real }

  lemma ShareIsMonotone(p: real, q: real, n: nat)
    requires p <= q
    ensures Share(p, n) <= Share(q, n)
  {
    var d := q / 100.0 - p / 100.0;
    assert d >= 0.0 && d * n as real >= 0.0;
    assert Share(q, n) == Share(p, n) + d * n as real;
  }

  lemma ShareIsProper(p: real, n: nat)
    requires 0.0 < p < 100.0 && n > 0
    ensures 0.0 < Share(p, n) < n as real
  {
    var x, m := p / 100.0, n as real;
    assert 0.0 < x < 1.0 && m > 0.0;
    assert x * m > 0.0 && (1.0 - x) * m > 0.0;
    assert (1.0 - x) * m == m - x * m;
  }

  /** What a percentile is for: a value of the sample with at least p percent of the values at or
      below it, and fewer than p percent below it. */
  ghost predicate IsPercentile(values: seq<real>, p: real, r: real) {
    && r in values
    && Count(values, r, false) as real >= Share(p, |values|)
    && (Count(values, r, true) as real) < Share(p, |values|)
  }

  /** There is only one such value, and it does not decrease when p grows. */
  lemma PercentileIsMonotone(values: seq<real>, p: real, q: real, r: real, s: real)
    requires p <= q && IsPercentile(values, p, r) && IsPercentile(values, q, s)
    ensures r <= s
  {
    ShareIsMonotone(p, q, |values|);
    if s < r {
      CountStep(values, s, r);
      assert false;
    }
  }

  lemma {:induction false} CountStep(xs: seq<real>, s: real, r: real)
    requires s < r
    ensures Count(xs, s, false) <= Count(xs, r, true)
  {
    if xs != [] { CountStep(xs[1..], s, r); }
  }

  /** Reordering the sample does not change its percentiles. */
  lemma PercentileIgnoresOrder(values: seq<real>, shuffled: seq<real>, p: real, r: real, s: real)
    requires multiset(values) == multiset(shuffled)
    requires IsPercentile(values, p, r) && IsPercentile(shuffled, p, s)
    ensures r == s
  {
    SameSize(values, shuffled);
    CountOfPermutation(values, shuffled, s, false);
    CountOfPermutation(values, shuffled, s, true);
    assert IsPercentile(values, p, s);
    PercentileIsMonotone(values, p, p, r, s);
    PercentileIsMonotone(values, p, p, s, r);
  }

  function Ceil(x: real): int { if x == x.Floor as real then x.Floor else x.Floor + 1 }

  /** In a sorted sample, position k has more than k values at or below it and at most k below. */
  lemma CountsAtRank(xs: seq<real>, k: nat)
    requires Sorted(xs) && k < |xs|
    ensures Count(xs, xs[k], false) >= k + 1 && Count(xs, xs[k], true) <= k
  {
    assert xs == xs[..k + 1] + xs[k + 1..] && xs == xs[..k] + xs[k..];
    CountAppend(xs[..k + 1], xs[k + 1..], xs[k], false);
    CountAll(xs[..k + 1], xs[k]);
    CountAppend(xs[..k], xs[k..], xs[k], true);
    CountAtMost(xs[..k], xs[k], true);
    CountNone(xs[k..], xs[k], true);
  }

  /** The value at the nearest rank is the percentile. */
  lemma NearestRank(values: seq<real>, xs: seq<real>, p: real, rank: int)
    requires Sorted(xs) && multiset(xs) == multiset(values)
    requires 1 <= rank <= |xs| && rank as real >= Share(p, |xs|) && (rank - 1) as real < Share(p, |xs|)
    ensures IsPercentile(values, p, xs[rank - 1])
  {
    var r := xs[rank - 1];
    CountsAtRank(xs, rank - 1);
    CountOfPermutation(xs, values, r, false);
    CountOfPermutation(xs, values, r, true);
    SameSize(xs, values);
    assert r in multiset(xs);
  }

  lemma SameSize(a: seq<real>, b: seq<real>)
    requires multiset(a) == multiset(b)
    ensures |a| == |b| && forall v :: v in a <==> v in b
  {
    assert |multiset(a)| == |a| && |multiset(b)| == |b|;
    forall v ensures v in a <==> v in b {
      assert v in a <==> v in multiset(a);
      assert v in b <==> v in multiset(b);
    }
  }

  /** The rank of p among n values lies between 1 and n. */
  lemma RankInRange(p: real, n: nat)
    requires 0.0 < p < 100.0 && n > 0
    ensures var rank := Ceil(Share(p, n));
      1 <= rank <= n && rank as real >= Share(p, n) && (rank - 1) as real < Share(p, n)
  {
    ShareIsProper(p, n);
  }

  /** `percentile`. Below and above the range it clamps to the least and the greatest value. */
  method Percentile(values: seq<real>, p: real) returns (r: real)
    ensures values == [] ==> r == 0.0
    ensures values != [] && 0.0 < p <= 100.0 ==> IsPercentile(values, p, r)
    ensures values != [] && p >= 100.0 ==> IsPercentile(values, 100.0, r)
    ensures values != [] && p <= 0.0 ==> r in values && forall v :: v in values ==> r <= v
  {
    var xs := SortedCopy(values);
    SameSize(xs, values);
    if xs == [] {
      return 0.0;
    }
    if p <= 0.0 {
      LeastIsFirst(values, xs);
      return xs[0];
    }
    if p >= 100.0 {
      NearestRank(values, xs, 100.0, |xs|);
      return xs[|xs| - 1];
    }
    RankInRange(p, |xs|);
    var rank := Ceil(Share(p, |xs|));
    rank := if rank < 1 then 1 else rank;
    NearestRank(values, xs, p, rank);
    return xs[(if rank < |xs| then rank else |xs|) - 1];
  }

  lemma LeastIsFirst(values: seq<real>, xs: seq<real>)
    requires Sorted(xs) && multiset(xs) == multiset(values) && xs != []
    ensures xs[0] in values && forall v :: v in values ==> xs[0] <= v
  {
    assert xs[0] in multiset(xs);
    forall v | v in values ensures xs[0] <= v {
      assert v in multiset(xs);
      var k :| 0 <= k < |xs| && xs[k] == v;
    }
  }

  // ----- the aggregate

  datatype Stats = Stats(p50: real, p95: real, max: real, n: nat)

  /** The values of one stage over all the samples that report it. */
  function ValuesOf(samples: seq<map<string, real>>, stage: string): seq<real>
    decreases |samples|
  {
    if samples == [] then []
    else
      var last := samples[|samples| - 1];
      ValuesOf(samples[..|samples| - 1], stage) + (if stage in last then [last[stage]] else [])
  }

  /** The samples that report a stage, by position. */
  predicate ValuesAt(samples: seq<map<string, real>>, stage: string, vals: seq<real>, at: seq<nat>) {
    && |at| == |vals|
    && (forall j, k :: 0 <= j < k < |at| ==> at[j] < at[k])
    && (forall k :: 0 <= k < |at| ==> at[k] < |samples| && stage in samples[at[k]] && vals[k] == samples[at[k]][stage])
    && (forall k :: 0 <= k < |samples| && stage in samples[k] ==> k in at)
  }

  lemma SilentSample(init: seq<map<string, real>>, last: map<string, real>, stage: string, vals: seq<real>, at: seq<nat>)
    requires ValuesAt(init, stage, vals, at) && stage !in last
    ensures ValuesAt(init + [last], stage, vals, at)
  {
  }

  lemma ReportingSample(init: seq<map<string, real>>, last: map<string, real>, stage: string, vals: seq<real>, at: seq<nat>)
    requires ValuesAt(init, stage, vals, at) && stage in last
    ensures ValuesAt(init + [last], stage, vals + [last[stage]], at + [|init|])
  {
    var samples, next := init + [last], at + [|init|];
    forall k | 0 <= k < |samples| && stage in samples[k] ensures k in next {
      if k < |init| {
        assert samples[k] == init[k] && k in at;
      } else {
        assert next[|at|] == k;
      }
    }
  }

  /** The values of a stage are one from each sample that reports it, in order. */
  lemma {:induction false} ValuesSpelledOut(samples: seq<map<string, real>>, stage: string) returns (at: seq<nat>)
    ensures ValuesAt(samples, stage, ValuesOf(samples, stage), at)
    decreases |samples|
  {
    at := [];
    if samples != [] {
      var init, last := samples[..|samples| - 1], samples[|samples| - 1];
      at := ValuesSpelledOut(init, stage);
      hide ValuesAt;
      assert init + [last] == samples;
      if stage in last {
        ReportingSample(init, last, stage, ValuesOf(init, stage), at);
        at := at + [|init|];
      } else {
        SilentSample(init, last, stage, ValuesOf(init, stage), at);
        assert ValuesOf(init, stage) + [] == ValuesOf(init, stage);
      }
    }
  }

  /** `aggregate`: per stage, the two percentiles, the greatest value and the count. The stages are
      entered in sorted order, which is the order of the result. */
  method Aggregate(samples: seq<map<string, real>>) returns (stages: seq<string>, out: map<string, Stats>)
    ensures Prelude.Lists(stages, out.Keys)
    ensures forall k :: k in out <==> exists s :: s in samples && k in s
    ensures forall k :: k in out ==> Describes(out[k], ValuesOf(samples, k))
  {
    var keys: set<string> := {};
    for i := 0 to |samples|
      invariant forall k :: k in keys <==> exists s :: s in samples[..i] && k in s
    {
      assert samples[..i + 1] == samples[..i] + [samples[i]];
      keys := keys + samples[i].Keys;
    }
    assert samples[..|samples|] == samples;
    stages := Prelude.Sorted(keys);
    out := map[];
    for i := 0 to |stages|
      invariant forall k :: k in out <==> k in stages[..i]
      invariant forall k :: k in out ==> Describes(out[k], ValuesOf(samples, k))
    {
      var k := stages[i];
      assert k in stages && stages[..i + 1] == stages[..i] + [k];
      var vals := ValuesOf(samples, k);
      ReportedSomewhere(samples, k);
      var stats := StatsOf(vals);
      out := out[k := stats];
    }
    assert stages[..|stages|] == stages;
  }

  /** The statistics of a stage; the median is at most the 95th percentile, and that at most the
      greatest value. */
  ghost predicate Describes(st: Stats, vals: seq<real>) {
    && IsPercentile(vals, 50.0, st.p50) && IsPercentile(vals, 95.0, st.p95) && IsPercentile(vals, 100.0, st.max)
    && st.n == |vals| && st.p50 <= st.p95 <= st.max
  }

  method StatsOf(vals: seq<real>) returns (st: Stats)
    requires vals != []
    ensures Describes(st, vals)
  {
    var p50 := Percentile(vals, 50.0);
    var p95 := Percentile(vals, 95.0);
    var max := Percentile(vals, 100.0);
    PercentileIsMonotone(vals, 50.0, 95.0, p50, p95);
    PercentileIsMonotone(vals, 95.0, 100.0, p95, max);
    st := Stats(p50, p95, max, |vals|);
  }

  lemma {:induction false} ReportedSomewhere(samples: seq<map<string, real>>, k: string)
    requires exists s :: s in samples && k in s
    ensures ValuesOf(samples, k) != []
    decreases |samples|
  {
    var init, last := samples[..|samples| - 1], samples[|samples| - 1];
    assert samples == init + [last];
    if k !in last { ReportedSomewhere(init, k); }
  }
}
