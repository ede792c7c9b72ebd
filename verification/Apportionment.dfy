/** Spreading a month's target over its days, scripts/generate_demo_transactions_csv.py: the largest
    remainder method, over exact reals. */
module Apportionment {
  import opened Prelude

  function SumInts(xs: seq<int>): int { if xs == [] then 0 else xs[0] + SumInts(xs[1..]) }
  function SumReals(xs: seq<real>): real { if xs == [] then 0.0 else xs[0] + SumReals(xs[1..]) }

  predicate AllPositive(xs: seq<real>) { forall i :: 0 <= i < |xs| ==> xs[i] > 0.0 }

  /** The range of the random weights. */
  predicate InDrawRange(w: real) { 0.8 <= w <= 1.3 }
  predicate AllDrawn(xs: seq<real>) { forall i :: 0 <= i < |xs| ==> InDrawRange(xs[i]) }

  /** The exact share of each day. */
  function Quotas(target: nat, weights: seq<real>): (qs: seq<real>)
    requires weights != [] && AllPositive(weights)
    ensures |qs| == |weights|
  {
    PositiveSum(weights);
    Shares(target as real, weights, SumReals(weights))
  }

  function Share(t: real, x: real, w: real): real
    requires w != 0.0
  {
    t * (x / w)
  }

  function Shares(t: real, xs: seq<real>, w: real): (qs: seq<real>)
    requires w != 0.0
    ensures |qs| == |xs| && forall i :: 0 <= i < |xs| ==> qs[i] == Share(t, xs[i], w)
  {
    if xs == [] then [] else [Share(t, xs[0], w)] + Shares(t, xs[1..], w)
  }

  function Floors(qs: seq<real>): (fs: seq<int>)
    ensures |fs| == |qs|
  {
    seq(|qs|, i requires 0 <= i < |qs| => qs[i].Floor)
  }

  function Fraction(q: real): real { q - q.Floor as real }

  lemma {:induction false} PositiveSum(xs: seq<real>)
    requires AllPositive(xs)
    ensures SumReals(xs) >= 0.0 && (xs != [] ==> SumReals(xs) > 0.0)
  {
    if xs != [] { PositiveSum(xs[1..]); }
  }

  function Times(a: real, b: real): real { a * b }

  lemma ShareTimes(t: real, x: real, w: real)
    requires w != 0.0
    ensures Times(Share(t, x, w), w) == Times(t, x)
  {
    var y := x / w;
    assert y * w == x;
    assert (t * y) * w == t * (y * w);
  }

  lemma QuotaTimes(target: nat, weights: seq<real>, i: nat)
    requires weights != [] && AllPositive(weights) && i < |weights|
    ensures Times(Quotas(target, weights)[i], SumReals(weights)) == Times(target as real, weights[i])
  {
    hide Times, Share;
    PositiveSum(weights);
    ShareTimes(target as real, weights[i], SumReals(weights));
  }

  /** A day's quota is to the target as its weight is to all weights. */
  lemma QuotaIsProportional(target: nat, weights: seq<real>, i: nat)
    requires weights != [] && AllPositive(weights) && i < |weights|
    ensures Quotas(target, weights)[i] * SumReals(weights) == target as real * weights[i]
  {
    hide Quotas, SumReals;
    QuotaTimes(target, weights, i);
  }

  lemma ShareDistributes(t: real, a: real, b: real, w: real)
    requires w != 0.0
    ensures t * (a / w) + t * (b / w) == t * ((a + b) / w)
  {
    assert (a + b) / w == a / w + b / w;
  }

  lemma {:induction false} QuotaSum(t: real, xs: seq<real>, w: real)
    requires w != 0.0
    ensures SumReals(Shares(t, xs, w)) == t * (SumReals(xs) / w)
  {
    if xs != [] {
      QuotaSum(t, xs[1..], w);
      ShareDistributes(t, xs[0], SumReals(xs[1..]), w);
    }
  }

  /** The quotas of a month add up to its target. */
  lemma QuotasAddUp(target: nat, weights: seq<real>)
    requires weights != [] && AllPositive(weights)
    ensures SumReals(Quotas(target, weights)) == target as real
  {
    PositiveSum(weights);
    QuotaSum(target as real, weights, SumReals(weights));
  }

  lemma {:induction false} FloorsLose(qs: seq<real>)
    ensures SumInts(Floors(qs)) as real <= SumReals(qs)
    ensures qs != [] ==> SumReals(qs) < SumInts(Floors(qs)) as real + |qs| as real
  {
    if qs != [] {
      assert Floors(qs)[1..] == Floors(qs[1..]);
      FloorsLose(qs[1..]);
    }
  }

  /** What is left after rounding down is less than one per day. */
  lemma RemainderIsSmall(target: nat, weights: seq<real>)
    requires weights != [] && AllPositive(weights)
    ensures 0 <= target - SumInts(Floors(Quotas(target, weights))) < |weights|
  {
    QuotasAddUp(target, weights);
    FloorsLose(Quotas(target, weights));
  }

  // ----- the order of the extra units

  ghost predicate Before(qs: seq<real>, i: nat, j: nat)
    requires i < |qs| && j < |qs|
  {
    Fraction(qs[i]) > Fraction(qs[j]) || (Fraction(qs[i]) == Fraction(qs[j]) && i < j)
  }

  /** The first `n` days, each once, larger fractions first and earlier days first among equals. */
  ghost predicate Ranked(qs: seq<real>, n: nat, order: seq<nat>)
    requires n <= |qs|
  {
    && |order| == n && (forall k :: 0 <= k < n ==> order[k] < n) && (forall i :: 0 <= i < n ==> i in order)
    && (forall j, k :: 0 <= j < k < n ==> Before(qs, order[j], order[k]))
  }

  /** `sorted(range(n), key=fraction, reverse=True)`: a stable sort, by insertion. */
  method RankByFraction(qs: seq<real>) returns (order: seq<nat>)
    ensures Ranked(qs, |qs|, order)
  {
    order := [];
    for n := 0 to |qs|
      invariant Ranked(qs, n, order)
    {
      var k := n;
      while k > 0 && Fraction(qs[order[k - 1]]) < Fraction(qs[n])
        invariant 0 <= k <= n
        invariant forall j :: k <= j < n ==> Before(qs, n, order[j])
      {
        k := k - 1;
      }
      order := Inserted(qs, order, n, k);
    }
  }

  /** Inserting day `n` after the first `k` keeps the ranking. */
  function Inserted(qs: seq<real>, order: seq<nat>, n: nat, k: nat): (r: seq<nat>)
    requires n < |qs| && k <= n && Ranked(qs, n, order)
    requires forall j :: k <= j < n ==> Before(qs, n, order[j])
    requires k > 0 ==> Fraction(qs[order[k - 1]]) >= Fraction(qs[n])
    ensures Ranked(qs, n + 1, r)
  {
    InsertionIsRanked(qs, order, n, k);
    order[..k] + [n] + order[k..]
  }

  lemma InsertionIsRanked(qs: seq<real>, order: seq<nat>, n: nat, k: nat)
    requires n < |qs| && k <= n && Ranked(qs, n, order)
    requires forall j :: k <= j < n ==> Before(qs, n, order[j])
    requires k > 0 ==> Fraction(qs[order[k - 1]]) >= Fraction(qs[n])
    ensures Ranked(qs, n + 1, order[..k] + [n] + order[k..])
  {
    var r := order[..k] + [n] + order[k..];
    forall i | 0 <= i < n + 1 ensures i in r {
      if i < n {
        assert i in order;
        var j :| 0 <= j < |order| && order[j] == i;
        assert r[if j < k then j else j + 1] == i;
      } else {
        assert r[k] == n;
      }
    }
    forall j | 0 <= j < k ensures Before(qs, order[j], n) {
      if j < k - 1 { assert Before(qs, order[j], order[k - 1]); }
    }
  }

  lemma RankedHasNoRepeats(qs: seq<real>, order: seq<nat>)
    requires Ranked(qs, |qs|, order)
    ensures forall j, k :: 0 <= j < k < |order| ==> order[j] != order[k]
  {
    forall j, k | 0 <= j < k < |order| ensures order[j] != order[k] {
      assert Before(qs, order[j], order[k]);
    }
  }

  // ----- apportionment

  /** A fair split of the target: it adds up, every day gets its quota rounded down or one more,
      and no day is passed over for one with a smaller fraction, or an equal one and later. */
  ghost predicate Fair(target: nat, weights: seq<real>, counts: seq<int>)
    requires weights != [] && AllPositive(weights)
  {
    var qs := Quotas(target, weights);
    && |counts| == |weights|
    && SumInts(counts) == target
    && (forall i :: 0 <= i < |counts| ==> counts[i] == qs[i].Floor || counts[i] == qs[i].Floor + 1)
    && (forall i, j :: 0 <= i < |counts| && 0 <= j < |counts| && PassedOver(qs, counts, i, j) ==> Before(qs, i, j))
  }

  predicate PassedOver(qs: seq<real>, counts: seq<int>, i: nat, j: nat)
    requires |qs| == |counts| && i < |qs| && j < |qs|
  {
    counts[i] == qs[i].Floor + 1 && counts[j] == qs[j].Floor
  }

  /** Less than one away from a proportional share. */
  predicate NearShare(count: int, w: real, t: real, x: real) { -w < Times(count as real, w) - Times(t, x) < w }

  /** No day is as much as one away from its proportional share of the target. */
  predicate Proportional(target: nat, weights: seq<real>, counts: seq<int>)
    requires |counts| == |weights|
  {
    forall i :: 0 <= i < |counts| ==> NearShare(counts[i], SumReals(weights), target as real, weights[i])
  }

  lemma {:induction false} SumsCompare(counts: seq<int>, qs: seq<real>)
    requires |counts| == |qs| && forall i :: 0 <= i < |qs| ==> counts[i] as real >= qs[i]
    ensures SumInts(counts) as real >= SumReals(qs)
    ensures (exists i :: 0 <= i < |qs| && counts[i] as real > qs[i]) ==> SumInts(counts) as real > SumReals(qs)
  {
    if qs != [] {
      SumsCompare(counts[1..], qs[1..]);
      if i :| 0 <= i < |qs| && counts[i] as real > qs[i] {
        assert i > 0 ==> counts[1..][i - 1] as real > qs[1..][i - 1];
      }
    }
  }

  /** A day whose quota is whole gets no extra unit: otherwise all others would have had one, and the
      counts would come to more than the target. */
  lemma ExtraHasFraction(target: nat, weights: seq<real>, counts: seq<int>, i: nat)
    requires weights != [] && AllPositive(weights) && Fair(target, weights, counts)
    requires i < |counts| && counts[i] == Quotas(target, weights)[i].Floor + 1
    ensures Fraction(Quotas(target, weights)[i]) > 0.0
  {
    var qs := Quotas(target, weights);
    if Fraction(qs[i]) == 0.0 {
      forall j | 0 <= j < |counts| ensures counts[j] as real >= qs[j] {
        assert !PassedOver(qs, counts, i, j) || Before(qs, i, j);
      }
      QuotasAddUp(target, weights);
      assert counts[i] as real > qs[i];
      SumsCompare(counts, qs);
    }
  }

  lemma PositiveTimes(a: real, b: real)
    requires a > 0.0 && b > 0.0
    ensures Times(a, b) > 0.0
  {
  }

  lemma TimesDifference(a: real, b: real, w: real)
    ensures Times(a - b, w) == Times(a, w) - Times(b, w)
  {
  }

  lemma TimesOne(w: real)
    ensures Times(1.0, w) == w
  {
  }

  lemma NearByQuota(count: int, q: real, w: real, t: real, x: real)
    requires -1.0 < count as real - q < 1.0 && w > 0.0 && Times(q, w) == Times(t, x)
    ensures NearShare(count, w, t, x)
  {
    hide Times;
    var c := count as real;
    PositiveTimes(1.0 - (c - q), w);
    PositiveTimes(1.0 - (q - c), w);
    TimesDifference(1.0, c - q, w);
    TimesDifference(1.0, q - c, w);
    TimesDifference(c, q, w);
    TimesDifference(q, c, w);
    TimesOne(w);
  }

  lemma FairIsProportional(target: nat, weights: seq<real>, counts: seq<int>)
    requires weights != [] && AllPositive(weights) && Fair(target, weights, counts)
    ensures Proportional(target, weights, counts)
  {
    hide NearShare;
    forall i | 0 <= i < |counts| ensures NearShare(counts[i], SumReals(weights), target as real, weights[i]) {
      DayIsNear(target, weights, counts, i);
    }
  }

  lemma DayIsNear(target: nat, weights: seq<real>, counts: seq<int>, i: nat)
    requires weights != [] && AllPositive(weights) && Fair(target, weights, counts) && i < |counts|
    ensures NearShare(counts[i], SumReals(weights), target as real, weights[i])
  {
    hide NearShare, Quotas, Times;
    PositiveSum(weights);
    QuotaTimes(target, weights, i);
    var q := Quotas(target, weights)[i];
    if counts[i] != q.Floor { ExtraHasFraction(target, weights, counts, i); }
    NearByQuota(counts[i], q, SumReals(weights), target as real, weights[i]);
  }

  lemma {:induction false} SumAfterIncrement(xs: seq<int>, i: nat)
    requires i < |xs|
    ensures SumInts(xs[i := xs[i] + 1]) == SumInts(xs) + 1
  {
    if i > 0 {
      assert xs[i := xs[i] + 1][1..] == xs[1..][i - 1 := xs[i] + 1];
      SumAfterIncrement(xs[1..], i - 1);
    } else {
      assert xs[0 := xs[0] + 1][1..] == xs[1..];
    }
  }

  /** The targeted branch of `_daily_counts` for one month, for drawn weights. */
  method Apportion(target: nat, weights: seq<real>) returns (counts: seq<int>)
    requires weights != [] && AllPositive(weights)
    ensures Fair(target, weights, counts) && Proportional(target, weights, counts)
    ensures forall i :: 0 <= i < |counts| ==> counts[i] >= 0
  {
    var n := |weights|;
    var rawAlloc := Quotas(target, weights);
    var ints := Floors(rawAlloc);
    var remainder := target - SumInts(ints);
    var fracIdx := RankByFraction(rawAlloc);
    RemainderIsSmall(target, weights);
    RankedHasNoRepeats(rawAlloc, fracIdx);
    var i := 0;
    while i < remainder
      invariant 0 <= i <= remainder
      invariant |ints| == n && SumInts(ints) == target - remainder + i
      invariant forall k :: 0 <= k < n ==>
        ints[fracIdx[k]] == rawAlloc[fracIdx[k]].Floor + (if k < i then 1 else 0)
    {
      SmallRemainder(i, n);
      var k := fracIdx[i % n];
      SumAfterIncrement(ints, k);
      ints := ints[k := ints[k] + 1];
      i := i + 1;
    }
    counts := ints;
    FirstOnesGetMore(target, weights, counts, fracIdx, i);
    FairIsProportional(target, weights, counts);
  }

  lemma FirstOnesGetMore(target: nat, weights: seq<real>, counts: seq<int>, order: seq<nat>, extra: nat)
    requires weights != [] && AllPositive(weights) && |counts| == |weights| && SumInts(counts) == target
    requires Ranked(Quotas(target, weights), |weights|, order) && extra <= |weights|
    requires forall k :: 0 <= k < |weights| ==>
      counts[order[k]] == Quotas(target, weights)[order[k]].Floor + (if k < extra then 1 else 0)
    ensures Fair(target, weights, counts) && forall i :: 0 <= i < |counts| ==> counts[i] >= 0
  {
    var n, qs := |weights|, Quotas(target, weights);
    forall a | 0 <= a < n
      ensures counts[a] == qs[a].Floor || counts[a] == qs[a].Floor + 1
      ensures counts[a] >= 0
    {
      assert a in order;
      QuotaIsNonNegative(target, weights, a);
    }
    forall a, b | 0 <= a < n && 0 <= b < n && PassedOver(qs, counts, a, b) ensures Before(qs, a, b) {
      assert a in order && b in order;
      var j :| 0 <= j < n && order[j] == a;
      var k :| 0 <= k < n && order[k] == b;
      assert j < k;
    }
  }

  lemma SmallRemainder(i: nat, n: nat)
    requires i < n
    ensures i % n == i
  {
  }

  lemma QuotaIsNonNegative(target: nat, weights: seq<real>, a: nat)
    requires weights != [] && AllPositive(weights) && a < |weights|
    ensures Quotas(target, weights)[a] >= 0.0
  {
    PositiveSum(weights);
    NonNegativeProduct(target as real, weights[a] / SumReals(weights));
  }

  lemma NonNegativeProduct(x: real, y: real)
    requires x >= 0.0 && y >= 0.0
    ensures x * y >= 0.0
  {
  }

  // ----- all the days

  /** The days of one month, in order. */
  function DaysOf(months: seq<string>, m: string): seq<nat>
    decreases |months|
  {
    if months == [] then []
    else DaysOf(months[..|months| - 1], m) + (if months[|months| - 1] == m then [|months| - 1] else [])
  }

  lemma {:induction false} DaysOfMembers(months: seq<string>, m: string)
    ensures forall d :: d in DaysOf(months, m) <==> 0 <= d < |months| && months[d] == m
    ensures forall j, k :: 0 <= j < k < |DaysOf(months, m)| ==> DaysOf(months, m)[j] < DaysOf(months, m)[k]
    decreases |months|
  {
    if months != [] {
      var init := months[..|months| - 1];
      DaysOfMembers(init, m);
      forall k | 0 <= k < |DaysOf(init, m)| ensures DaysOf(init, m)[k] < |init| {
        assert DaysOf(init, m)[k] in DaysOf(init, m);
      }
    }
  }

  function CountsOn(out: map<nat, int>, days: seq<nat>): seq<int>
    requires forall d :: d in days ==> d in out
  {
    seq(|days|, i requires 0 <= i < |days| => assert days[i] in days; out[days[i]])
  }

  /** What a month must look like: a fair split of its target for weights in the drawn range if it
      has one, and otherwise random numbers between the bounds. */
  ghost predicate MonthDone(months: seq<string>, m: string, minTx: int, maxTx: int, targets: map<string, nat>, out: map<nat, int>) {
    var days := DaysOf(months, m);
    && (forall d :: d in days ==> d in out)
    && (m in targets ==>
          exists weights :: weights != [] && AllDrawn(weights) && Fair(targets[m], weights, CountsOn(out, days))
                            && Proportional(targets[m], weights, CountsOn(out, days)))
    && (m !in targets ==> forall d :: d in days ==> minTx <= out[d] <= maxTx)
  }

  /** A month is not affected by writes to other days. */
  lemma MonthStaysDone(months: seq<string>, m: string, minTx: int, maxTx: int, targets: map<string, nat>,
                       out: map<nat, int>, out': map<nat, int>)
    requires MonthDone(months, m, minTx, maxTx, targets, out)
    requires forall d :: d in DaysOf(months, m) ==> d in out' && out'[d] == out[d]
    ensures MonthDone(months, m, minTx, maxTx, targets, out')
  {
    assert CountsOn(out', DaysOf(months, m)) == CountsOn(out, DaysOf(months, m));
  }

  method DrawWeights(n: nat) returns (weights: seq<real>)
    ensures |weights| == n && AllDrawn(weights)
  {
    weights := [];
    while |weights| < n
      invariant |weights| <= n && AllDrawn(weights)
    {
      assert InDrawRange(1.0);
      var w: real :| InDrawRange(w);
      assert InDrawRange(w);
      weights := weights + [w];
    }
  }

  method DrawCounts(n: nat, minTx: int, maxTx: int) returns (counts: seq<int>)
    requires minTx <= maxTx
    ensures |counts| == n && forall i :: 0 <= i < n ==> minTx <= counts[i] <= maxTx
  {
    counts := [];
    while |counts| < n
      invariant |counts| <= n && forall i :: 0 <= i < |counts| ==> minTx <= counts[i] <= maxTx
    {
      var c: int :| minTx <= c <= maxTx;
      counts := counts + [c];
    }
  }

  method WriteCounts(out0: map<nat, int>, days: seq<nat>, counts: seq<int>) returns (out: map<nat, int>)
    requires |days| == |counts| && forall j, k :: 0 <= j < k < |days| ==> days[j] < days[k]
    ensures forall d: nat :: d in out <==> d in out0 || d in days
    ensures forall d :: d in out0 && d !in days ==> out[d] == out0[d]
    ensures CountsOn(out, days) == counts
  {
    out := out0;
    for i := 0 to |days|
      invariant forall d: nat :: d in out <==> d in out0 || d in days[..i]
      invariant forall d :: d in out0 && d !in days ==> out[d] == out0[d]
      invariant forall k :: 0 <= k < i ==> days[k] in out && out[days[k]] == counts[k]
    {
      assert days[i] in days && days[..i + 1] == days[..i] + [days[i]];
      out := out[days[i] := counts[i]];
    }
    assert days[..|days|] == days;
  }

  /** One month of `_daily_counts`, which draws between the bounds only without a target. */
  method FillMonth(ghost months: seq<string>, ghost m: string, days: seq<nat>, target: Option<nat>, minTx: int, maxTx: int,
                   ghost targets: map<string, nat>, out0: map<nat, int>) returns (out: map<nat, int>)
    requires days == DaysOf(months, m) && days != [] && (target.None? ==> minTx <= maxTx)
    requires target == if m in targets then Some(targets[m]) else None
    ensures MonthDone(months, m, minTx, maxTx, targets, out)
    ensures forall d: nat :: d in out <==> d in out0 || d in days
    ensures forall d :: d in out0 && d !in days ==> out[d] == out0[d]
  {
    DaysOfMembers(months, m);
    if target.None? {
      var drawn := DrawCounts(|days|, minTx, maxTx);
      out := WriteCounts(out0, days, drawn);
      forall d | d in days ensures minTx <= out[d] <= maxTx {
        var k :| 0 <= k < |days| && days[k] == d;
        assert out[d] == CountsOn(out, days)[k];
      }
      return;
    }
    var weights := DrawWeights(|days|);
    var ints := Apportion(target.value, weights);
    ints := AtLeastZero(ints);
    out := WriteCounts(out0, days, ints);
  }

  /** `max(0, ints[i])`, which changes nothing here. */
  method AtLeastZero(ints: seq<int>) returns (r: seq<int>)
    requires forall i :: 0 <= i < |ints| ==> ints[i] >= 0
    ensures r == ints
  {
    r := seq(|ints|, i requires 0 <= i < |ints| => if ints[i] < 0 then 0 else ints[i]);
  }

  /** Months by first appearance: a month comes before those whose first day is later. */
  ghost predicate ByFirstDay(months: seq<string>, order: seq<string>) {
    forall j, k :: 0 <= j < k < |order| && DaysOf(months, order[j]) != [] && DaysOf(months, order[k]) != [] ==>
      DaysOf(months, order[j])[0] < DaysOf(months, order[k])[0]
  }

  ghost predicate Grouped(months: seq<string>, order: seq<string>, byMonth: map<string, seq<nat>>) {
    && (forall m :: m in byMonth <==> m in months)
    && (forall m :: m in order <==> m in months)
    && (forall m :: m in byMonth ==> byMonth[m] == DaysOf(months, m))
    && (forall j, k :: 0 <= j < k < |order| ==> order[j] != order[k])
  }

  lemma {:induction false} AbsentMonthHasNoDays(months: seq<string>, m: string)
    requires m !in months
    ensures DaysOf(months, m) == []
    decreases |months|
  {
    if months != [] { AbsentMonthHasNoDays(months[..|months| - 1], m); }
  }

  lemma DaysAppend(months: seq<string>, m: string, n: string)
    ensures DaysOf(months + [m], n) == DaysOf(months, n) + (if m == n then [|months|] else [])
  {
    assert (months + [m])[..|months|] == months;
  }

  /** A month that is already there keeps its first day; a new one has a later first day than all. */
  lemma OneMoreFirstDay(months: seq<string>, order: seq<string>, m: string)
    requires ByFirstDay(months, order) && forall n :: n in order <==> n in months
    ensures ByFirstDay(months + [m], if m in months then order else order + [m])
  {
    var all, next := months + [m], if m in months then order else order + [m];
    forall j, k | 0 <= j < k < |next| && DaysOf(all, next[j]) != [] && DaysOf(all, next[k]) != []
      ensures DaysOf(all, next[j])[0] < DaysOf(all, next[k])[0]
    {
      FirstDayStays(months, m, order[j]);
      if k < |order| {
        FirstDayStays(months, m, order[k]);
      } else {
        AbsentMonthHasNoDays(months, m);
        DaysAppend(months, m, m);
      }
    }
  }

  lemma FirstDayStays(months: seq<string>, m: string, n: string)
    requires n in months
    ensures DaysOf(months, n) != [] && DaysOf(months + [m], n) != []
    ensures DaysOf(months + [m], n)[0] == DaysOf(months, n)[0] < |months|
  {
    DaysAppend(months, m, n);
    DaysOfMembers(months, n);
    var d :| 0 <= d < |months| && months[d] == n;
    assert d in DaysOf(months, n) && DaysOf(months, n)[0] in DaysOf(months, n);
  }

  lemma OneMoreDay(months: seq<string>, order: seq<string>, byMonth: map<string, seq<nat>>, m: string)
    requires Grouped(months, order, byMonth)
    ensures m in byMonth ==> Grouped(months + [m], order, byMonth[m := byMonth[m] + [|months|]])
    ensures m !in byMonth ==> Grouped(months + [m], order + [m], byMonth[m := [|months|]])
  {
    hide DaysOf;
    forall n ensures DaysOf(months + [m], n) == DaysOf(months, n) + (if m == n then [|months|] else []) {
      DaysAppend(months, m, n);
    }
    if m !in byMonth {
      AbsentMonthHasNoDays(months, m);
      assert [] + [|months|] == [|months|];
    }
  }

  /** Group the days by month, months in order of first appearance. */
  method GroupByMonth(months: seq<string>) returns (order: seq<string>, byMonth: map<string, seq<nat>>)
    ensures Grouped(months, order, byMonth) && ByFirstDay(months, order)
  {
    hide ByFirstDay, DaysOf;
    order, byMonth := [], map[];
    NoDays();
    for d := 0 to |months|
      invariant Grouped(months[..d], order, byMonth) && ByFirstDay(months[..d], order)
    {
      var m := months[d];
      assert months[..d + 1] == months[..d] + [m];
      OneMoreDay(months[..d], order, byMonth, m);
      OneMoreFirstDay(months[..d], order, m);
      if m !in byMonth {
        order := order + [m];
        byMonth := byMonth[m := [d]];
      } else {
        byMonth := byMonth[m := byMonth[m] + [d]];
      }
    }
    assert months[..|months|] == months;
  }

  lemma NoDays()
    ensures Grouped([], [], map[]) && ByFirstDay([], [])
  {
  }

  /** `random.randint` on bounds that leave no number raises. */
  datatype DrawError = EmptyRange

  /** `_daily_counts`, with the random draws left open. It fails exactly when some month without a
      target would draw from bounds that leave no number. */
  method DailyCounts(months: seq<string>, minTx: int, maxTx: int, targets: map<string, nat>)
    returns (r: Result<map<nat, int>, DrawError>)
    ensures r.Err? <==> minTx > maxTx && exists m :: m in months && m !in targets
    ensures r.Ok? ==> forall d: nat :: d in r.value <==> d < |months|
    ensures r.Ok? ==> forall m :: m in months ==> MonthDone(months, m, minTx, maxTx, targets, r.value)
  {
    hide MonthDone, DaysOf;
    var out: map<nat, int> := map[];
    var order, byMonth := GroupByMonth(months);
    for n := 0 to |order|
      invariant minTx > maxTx ==> forall k :: 0 <= k < n ==> order[k] in targets
      invariant forall d: nat :: d in out ==> d < |months|
      invariant forall k :: 0 <= k < n ==> MonthDone(months, order[k], minTx, maxTx, targets, out)
    {
      var m := order[n];
      ghost var before := out;
      MonthHasDays(months, order, n);
      if m !in targets && minTx > maxTx {
        assert m in order;
        return Err(EmptyRange);
      }
      var target := if m in targets then Some(targets[m]) else None;
      out := FillMonth(months, m, byMonth[m], target, minTx, maxTx, targets, out);
      OtherMonthsStayDone(months, order, n, minTx, maxTx, targets, before, out);
    }
    AllDaysDone(months, order, minTx, maxTx, targets, out);
    if minTx > maxTx {
      AllHaveTargets(months, order, targets);
    }
    r := Ok(out);
  }

  lemma AllHaveTargets(months: seq<string>, order: seq<string>, targets: map<string, nat>)
    requires forall m :: m in order <==> m in months
    requires forall k :: 0 <= k < |order| ==> order[k] in targets
    ensures forall m :: m in months ==> m in targets
  {
    forall m | m in months ensures m in targets {
      assert m in order;
    }
  }

  lemma MonthHasDays(months: seq<string>, order: seq<string>, n: nat)
    requires n < |order| && forall m :: m in order <==> m in months
    ensures DaysOf(months, order[n]) != [] && forall d :: d in DaysOf(months, order[n]) ==> d < |months|
  {
    assert order[n] in months;
    var first: nat :| first < |months| && months[first] == order[n];
    DaysOfMembers(months, order[n]);
    assert first in DaysOf(months, order[n]);
  }

  lemma AllDaysDone(months: seq<string>, order: seq<string>, minTx: int, maxTx: int, targets: map<string, nat>, out: map<nat, int>)
    requires forall m :: m in order <==> m in months
    requires forall k :: 0 <= k < |order| ==> MonthDone(months, order[k], minTx, maxTx, targets, out)
    ensures forall d: nat :: d < |months| ==> d in out
    ensures forall m :: m in months ==> MonthDone(months, m, minTx, maxTx, targets, out)
  {
    forall m | m in months ensures MonthDone(months, m, minTx, maxTx, targets, out) {
      assert m in order;
    }
    forall d: nat | d < |months| ensures d in out {
      assert months[d] in months;
      DaysOfMembers(months, months[d]);
      assert d in DaysOf(months, months[d]);
    }
  }

  lemma OtherMonthsStayDone(months: seq<string>, order: seq<string>, n: nat, minTx: int, maxTx: int,
                            targets: map<string, nat>, before: map<nat, int>, out: map<nat, int>)
    requires n < |order| && forall j, k :: 0 <= j < k < |order| ==> order[j] != order[k]
    requires forall k :: 0 <= k < n ==> MonthDone(months, order[k], minTx, maxTx, targets, before)
    requires forall d :: d in before && d !in DaysOf(months, order[n]) ==> d in out && out[d] == before[d]
    ensures forall k :: 0 <= k < n ==> MonthDone(months, order[k], minTx, maxTx, targets, out)
  {
    forall k | 0 <= k < n ensures MonthDone(months, order[k], minTx, maxTx, targets, out) {
      DaysOfMembers(months, order[k]);
      DaysOfMembers(months, order[n]);
      assert MonthDone(months, order[k], minTx, maxTx, targets, before);
      MonthStaysDone(months, order[k], minTx, maxTx, targets, before, out);
    }
  }
}
