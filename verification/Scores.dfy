/** The scores of an `eval` (crates/tmx-core/src/fanout.rs), over the reals. */
module Scores {
  import opened Wrappers

  // ---------- A case's score ----------

  datatype Scored = Scored(score: real, weight: Option<real>)

  datatype ScoreError = BadWeight

  predicate InUnit(x: real) { 0.0 <= x <= 1.0 }

  function WeightOf(s: Scored): (w: real) { if s.weight.Some? then s.weight.value else 1.0 }

  function WeightedSum(scorers: seq<Scored>): (x: real) {
    if scorers == [] then 0.0
    else WeightedSum(scorers[..|scorers| - 1]) + scorers[|scorers| - 1].score * WeightOf(scorers[|scorers| - 1])
  }

  function WeightSum(scorers: seq<Scored>): (x: real) {
    if scorers == [] then 0.0 else WeightSum(scorers[..|scorers| - 1]) + WeightOf(scorers[|scorers| - 1])
  }

  predicate Positive(scorers: seq<Scored>) {
    forall i | 0 <= i < |scorers| :: WeightOf(scorers[i]) > 0.0
  }

  /** All scores lie between `low` and `high`. */
  predicate Between(scorers: seq<Scored>, low: real, high: real) {
    forall i | 0 <= i < |scorers| :: low <= scorers[i].score <= high
  }

  /** `x` lies between the bounds, each taken `w` times. */
  predicate Within(low: real, x: real, high: real, w: real) { low * w <= x <= high * w }

  lemma {:induction false} WeightedSumBounds(scorers: seq<Scored>, low: real, high: real)
    requires Positive(scorers) && Between(scorers, low, high)
    ensures Within(low, WeightedSum(scorers), high, WeightSum(scorers))
    decreases |scorers|
  {
    if scorers != [] {
      var front, last := scorers[..|scorers| - 1], scorers[|scorers| - 1];
      WeightedSumBounds(front, low, high);
      AddBounds(low, WeightedSum(front), high, WeightSum(front), last.score, WeightOf(last));
    }
  }

  lemma Scale(a: real, b: real, w: real)
    requires a <= b && w >= 0.0
    ensures a * w <= b * w
  {
  }

  /** One more weighted score within the bounds keeps the sum within them. */
  lemma AddBounds(low: real, x: real, high: real, w: real, score: real, weight: real)
    requires Within(low, x, high, w) && low <= score <= high && weight > 0.0
    ensures Within(low, x + score * weight, high, w + weight)
  {
    Scale(low, score, weight);
    Scale(score, high, weight);
    assert low * (w + weight) == low * w + low * weight;
    assert high * (w + weight) == high * w + high * weight;
  }

  lemma DivideThenMultiply(x: real, w: real)
    requires w > 0.0
    ensures x / w * w == x
  {
  }

  lemma DivideBounds(low: real, x: real, high: real, w: real)
    requires w > 0.0 && Within(low, x, high, w)
    ensures low <= x / w <= high
  {
  }

  /** The weighted-mean loop of `score_case`: it stops at the first scorer whose weight is not positive;
      the mean lies between any bounds on the scores, so in `[0, 1]`. */
  method CaseScore(scorers: seq<Scored>) returns (r: Result<real, ScoreError>)
    requires scorers != [] && Between(scorers, 0.0, 1.0)
    ensures r.Ok? <==> Positive(scorers)
    ensures r.Ok? ==> r.value * WeightSum(scorers) == WeightedSum(scorers) && InUnit(r.value)
    ensures r.Ok? ==> forall low, high :: Between(scorers, low, high) ==> low <= r.value <= high
  {
    var weightedSum, weightSum := 0.0, 0.0;
    for i := 0 to |scorers|
      invariant weightedSum == WeightedSum(scorers[..i]) && weightSum == WeightSum(scorers[..i])
      invariant Positive(scorers[..i])
    {
      var weight := if scorers[i].weight.Some? then scorers[i].weight.value else 1.0;
      if !(weight > 0.0) {
        return Err(BadWeight);
      }
      SumsStep(scorers, i);
      weightedSum := weightedSum + scorers[i].score * weight;
      weightSum := weightSum + weight;
    }
    assert scorers[..|scorers|] == scorers;
    WeightedMeanIsMean(scorers);
    r := Ok(WeightedMean(weightedSum, weightSum));
  }

  function WeightedMean(weightedSum: real, weightSum: real): (mean: real)
    requires weightSum > 0.0
  {
    weightedSum / weightSum
  }

  lemma SumsStep(scorers: seq<Scored>, i: nat)
    requires i < |scorers|
    ensures WeightedSum(scorers[..i + 1]) == WeightedSum(scorers[..i]) + scorers[i].score * WeightOf(scorers[i])
    ensures WeightSum(scorers[..i + 1]) == WeightSum(scorers[..i]) + WeightOf(scorers[i])
    ensures Positive(scorers[..i + 1]) <==> Positive(scorers[..i]) && WeightOf(scorers[i]) > 0.0
  {
    assert scorers[..i + 1] == scorers[..i] + [scorers[i]];
    assert scorers[..i + 1][..i] == scorers[..i];
  }

  /** The scorers with every missing weight written out as one. */
  function WithUnitWeights(scorers: seq<Scored>): (r: seq<Scored>) {
    if scorers == [] then []
    else
      var last := scorers[|scorers| - 1];
      WithUnitWeights(scorers[..|scorers| - 1])
      + [Scored(last.score, Some(match last.weight case Some(w) => w case None => 1.0))]
  }

  /** A scorer without a weight counts as one of weight one. */
  lemma {:induction false} MissingWeightIsOne(scorers: seq<Scored>)
    ensures WeightSum(WithUnitWeights(scorers)) == WeightSum(scorers)
    ensures WeightedSum(WithUnitWeights(scorers)) == WeightedSum(scorers)
    decreases |scorers|
  {
    if scorers != [] {
      var front, r := WithUnitWeights(scorers[..|scorers| - 1]), WithUnitWeights(scorers);
      MissingWeightIsOne(scorers[..|scorers| - 1]);
      assert r[..|r| - 1] == front;
    }
  }

  lemma WeightedMeanIsMean(scorers: seq<Scored>)
    requires scorers != [] && Positive(scorers)
    ensures WeightSum(scorers) > 0.0
    ensures var mean := WeightedMean(WeightedSum(scorers), WeightSum(scorers));
            && mean * WeightSum(scorers) == WeightedSum(scorers)
            && forall low, high :: Between(scorers, low, high) ==> low <= mean <= high
  {
    WeightsArePositive(scorers);
    DivideThenMultiply(WeightedSum(scorers), WeightSum(scorers));
    forall low, high | Between(scorers, low, high)
      ensures low <= WeightedMean(WeightedSum(scorers), WeightSum(scorers)) <= high
    {
      WeightedSumBounds(scorers, low, high);
      DivideBounds(low, WeightedSum(scorers), high, WeightSum(scorers));
    }
  }

  lemma {:induction false} WeightsArePositive(scorers: seq<Scored>)
    requires Positive(scorers)
    ensures WeightSum(scorers) >= 0.0 && (scorers != [] ==> WeightSum(scorers) > 0.0)
    decreases |scorers|
  {
    if scorers != [] {
      WeightsArePositive(scorers[..|scorers| - 1]);
    }
  }

  // ---------- The summary ----------

  function Sum(xs: seq<real>): (x: real) {
    if xs == [] then 0.0 else Sum(xs[..|xs| - 1]) + xs[|xs| - 1]
  }

  /** How many of `xs` are at most `v`. */
  function CountAtMost(xs: seq<real>, v: real): (n: nat)
    ensures n <= |xs|
  {
    if xs == [] then 0 else (if xs[0] <= v then 1 else 0) + CountAtMost(xs[1..], v)
  }

  /** How many of `xs` are at least `v`. */
  function CountAtLeast(xs: seq<real>, v: real): (n: nat)
    ensures n <= |xs|
  {
    if xs == [] then 0 else CountAtLeast(xs[..|xs| - 1], v) + (if xs[|xs| - 1] >= v then 1 else 0)
  }

  lemma CountsAreSizes(xs: seq<real>, v: real)
    ensures CountAtMost(xs, v) == |set i | 0 <= i < |xs| && xs[i] <= v|
    ensures CountAtLeast(xs, v) == |set i | 0 <= i < |xs| && xs[i] >= v|
  {
    AtMostIsSize(xs, v);
    AtLeastIsSize(xs, v);
  }

  lemma {:induction false} AtMostIsSize(xs: seq<real>, v: real)
    ensures CountAtMost(xs, v) == |set i | 0 <= i < |xs| && xs[i] <= v|
    decreases |xs|
  {
    if xs != [] {
      var n, front := |xs| - 1, xs[..|xs| - 1];
      AtMostIsSize(front, v);
      CountLast(xs, v);
      var most := set i | 0 <= i < n && front[i] <= v;
      assert (set i | 0 <= i < |xs| && xs[i] <= v) == if xs[n] <= v then most + {n} else most;
    }
  }

  lemma {:induction false} AtLeastIsSize(xs: seq<real>, v: real)
    ensures CountAtLeast(xs, v) == |set i | 0 <= i < |xs| && xs[i] >= v|
    decreases |xs|
  {
    if xs != [] {
      var n, front := |xs| - 1, xs[..|xs| - 1];
      AtLeastIsSize(front, v);
      var least := set i | 0 <= i < n && front[i] >= v;
      assert (set i | 0 <= i < |xs| && xs[i] >= v) == if xs[n] >= v then least + {n} else least;
    }
  }

  lemma {:induction false} CountLast(xs: seq<real>, v: real)
    requires xs != []
    ensures CountAtMost(xs, v) == CountAtMost(xs[..|xs| - 1], v) + (if xs[|xs| - 1] <= v then 1 else 0)
    decreases |xs|
  {
    if |xs| > 1 {
      var front := xs[..|xs| - 1];
      CountLast(xs[1..], v);
      assert front[1..] == xs[1..][..|xs| - 2];
    }
  }

  predicate Ascending(xs: seq<real>) { forall i, j | 0 <= i < j < |xs| :: xs[i] <= xs[j] }

  function Insert(x: real, xs: seq<real>): (r: seq<real>)
    ensures multiset(r) == multiset(xs) + multiset{x}
  {
    if xs == [] || x <= xs[0] then [x] + xs
    else
      assert xs == [xs[0]] + xs[1..];
      [xs[0]] + Insert(x, xs[1..])
  }

  /** The ascending order of `xs`. */
  function Sorted(xs: seq<real>): (r: seq<real>)
    ensures multiset(r) == multiset(xs) && |r| == |xs|
  {
    if xs == [] then []
    else
      assert xs == [xs[0]] + xs[1..];
      var r := Insert(xs[0], Sorted(xs[1..]));
      assert |r| == |multiset(r)| == |multiset(xs)|;
      r
  }

  /** Every element of `xs` is at least `low`. */
  predicate AllAtLeast(xs: seq<real>, low: real) { forall i | 0 <= i < |xs| :: low <= xs[i] }

  lemma {:induction false} InsertAtLeast(x: real, xs: seq<real>, low: real)
    requires AllAtLeast(xs, low) && low <= x
    ensures AllAtLeast(Insert(x, xs), low)
  {
    if xs != [] && x > xs[0] {
      InsertAtLeast(x, xs[1..], low);
    }
  }

  lemma {:induction false} InsertAscending(x: real, xs: seq<real>)
    requires Ascending(xs)
    ensures Ascending(Insert(x, xs))
  {
    if xs != [] && x > xs[0] {
      InsertAscending(x, xs[1..]);
      InsertAtLeast(x, xs[1..], xs[0]);
      ConsAscending(xs[0], Insert(x, xs[1..]));
    }
  }

  lemma ConsAscending(x: real, xs: seq<real>)
    requires Ascending(xs) && AllAtLeast(xs, x)
    ensures Ascending([x] + xs)
  {
  }

  lemma {:induction false} SortedAscending(xs: seq<real>)
    ensures Ascending(Sorted(xs))
  {
    if xs != [] {
      SortedAscending(xs[1..]);
      InsertAscending(xs[0], Sorted(xs[1..]));
    }
  }

  lemma {:induction false} InsertCount(x: real, xs: seq<real>, v: real)
    ensures CountAtMost(Insert(x, xs), v) == CountAtMost(xs, v) + if x <= v then 1 else 0
  {
    if xs != [] && x > xs[0] {
      InsertCount(x, xs[1..], v);
    } else {
      assert Insert(x, xs)[1..] == xs;
    }
  }

  lemma {:induction false} SortedCount(xs: seq<real>, v: real)
    ensures CountAtMost(Sorted(xs), v) == CountAtMost(xs, v)
  {
    if xs != [] {
      SortedCount(xs[1..], v);
      InsertCount(xs[0], Sorted(xs[1..]), v);
    }
  }

  /** In ascending order, at least the first `k + 1` are at most the one at `k`; below it, at most `k` are. */
  lemma {:induction false} AscendingCount(xs: seq<real>, k: nat, v: real)
    requires Ascending(xs) && k < |xs|
    ensures v >= xs[k] ==> CountAtMost(xs, v) >= k + 1
    ensures v < xs[k] ==> CountAtMost(xs, v) <= k
    decreases xs
  {
    if k > 0 {
      AscendingCount(xs[1..], k - 1, v);
    } else if v < xs[0] {
      NoneAtMost(xs, v);
    }
  }

  lemma {:induction false} NoneAtMost(xs: seq<real>, v: real)
    requires forall i | 0 <= i < |xs| :: v < xs[i]
    ensures CountAtMost(xs, v) == 0
  {
    if xs != [] {
      NoneAtMost(xs[1..], v);
    }
  }

  function Ceil(x: real): (n: int)
    ensures n as real >= x > n as real - 1.0
  {
    -((-x).Floor)
  }

  /** The rank of the nearest-rank percentile, from 1. */
  function Rank(n: nat, fraction: real): (rank: nat)
    requires n > 0
    ensures 1 <= rank <= n
  {
    var r := Ceil(fraction * n as real);
    if r < 1 then 1 else if r > n then n else r
  }

  function Percentile(ascending: seq<real>, fraction: real): (p: Option<real>) {
    if ascending == [] then None else Some(ascending[Rank(|ascending|, fraction) - 1])
  }

  /** For a fraction of a nonempty list the clamp is idle. */
  lemma RankIsCeiling(n: nat, fraction: real)
    requires n > 0 && 0.0 < fraction <= 1.0
    ensures Rank(n, fraction) as real >= fraction * n as real > Rank(n, fraction) as real - 1.0
  {
    Scale(fraction, 1.0, n as real);
    PositiveProduct(fraction, n as real);
  }

  lemma PositiveProduct(a: real, b: real)
    requires a > 0.0 && b > 0.0
    ensures a * b > 0.0
  {
  }

  /** `v` reaches the fraction of the cases. */
  predicate Reaches(xs: seq<real>, v: real, fraction: real) {
    IsEnough(CountAtMost(xs, v), |xs|, fraction)
  }

  predicate IsEnough(count: nat, n: nat, fraction: real) { count as real >= fraction * n as real }

  lemma CountDecides(xs: seq<real>, fraction: real, v: real)
    requires xs != [] && 0.0 < fraction <= 1.0
    ensures Reaches(xs, v, fraction) <==> v >= Percentile(Sorted(xs), fraction).value
  {
    SortedAscending(xs);
    SortedCount(xs, v);
    AscendingReaches(Sorted(xs), fraction, v);
    assert |Sorted(xs)| == |xs|;
  }

  lemma AscendingReaches(s: seq<real>, fraction: real, v: real)
    requires s != [] && Ascending(s) && 0.0 < fraction <= 1.0
    ensures Reaches(s, v, fraction) <==> v >= s[Rank(|s|, fraction) - 1]
  {
    var rank := Rank(|s|, fraction);
    AscendingCount(s, rank - 1, v);
    RankIsCeiling(|s|, fraction);
    ReachesAtRank(CountAtMost(s, v), rank, fraction * |s| as real);
  }

  lemma ReachesAtRank(count: nat, rank: nat, x: real)
    requires rank as real >= x > rank as real - 1.0
    ensures count as real >= x <==> count >= rank
  {
  }

  /** The percentile is the least value that at least that fraction of the cases do not exceed, and it is
      one of the scores. */
  lemma PercentileIsLeast(xs: seq<real>, fraction: real)
    requires xs != [] && 0.0 < fraction <= 1.0
    ensures Percentile(Sorted(xs), fraction).value in xs
    ensures forall v :: Reaches(xs, v, fraction) <==> v >= Percentile(Sorted(xs), fraction).value
  {
    var s := Sorted(xs);
    assert s[Rank(|s|, fraction) - 1] in multiset(s);
    forall v
      ensures Reaches(xs, v, fraction) <==> v >= Percentile(s, fraction).value
    {
      CountDecides(xs, fraction, v);
    }
  }

  datatype Summary = Summary(mean: real, weightedMean: real, passRate: real,
                             min: Option<real>, p50: Option<real>, p90: Option<real>, count: nat)

  function Mean(xs: seq<real>): (m: real)
    requires xs != []
  {
    Sum(xs) / |xs| as real
  }

  method Totals(scores: seq<real>, passScore: real) returns (sum: real, passed: nat)
    ensures sum == Sum(scores) && passed == CountAtLeast(scores, passScore)
  {
    sum, passed := 0.0, 0;
    for i := 0 to |scores|
      invariant sum == Sum(scores[..i]) && passed == CountAtLeast(scores[..i], passScore)
    {
      assert scores[..i + 1][..i] == scores[..i];
      sum := sum + scores[i];
      passed := passed + (if scores[i] >= passScore then 1 else 0);
    }
    assert scores[..|scores|] == scores;
  }

  /** `aggregate_summary` over the case scores. */
  method AggregateSummary(scores: seq<real>, passScore: real) returns (s: Summary)
    ensures s.count == |scores| && s.weightedMean == s.mean
    ensures scores == [] ==> s == Summary(0.0, 0.0, 0.0, None, None, None, 0)
    ensures scores != [] ==>
              && s.mean == Mean(scores)
              && s.passRate == |set i | 0 <= i < |scores| && scores[i] >= passScore| as real / |scores| as real
              && InUnit(s.passRate)
              && s.min == Some(Sorted(scores)[0])
              && s.p50 == Percentile(Sorted(scores), 0.5)
              && s.p90 == Percentile(Sorted(scores), 0.9)
  {
    var count := |scores|;
    if count == 0 {
      return Summary(0.0, 0.0, 0.0, None, None, None, 0);
    }
    var sum, passed := Totals(scores, passScore);
    CountsAreSizes(scores, passScore);
    var mean := sum / count as real;
    var passRate := passed as real / count as real;
    DivideBounds(0.0, passed as real, 1.0, count as real);
    var sorted := Sorted(scores);
    s := Summary(mean, mean, passRate, Some(sorted[0]), Percentile(sorted, 0.5), Percentile(sorted, 0.9), count);
  }

  predicate AllBetween(xs: seq<real>, low: real, high: real) { forall i | 0 <= i < |xs| :: low <= xs[i] <= high }

  lemma {:induction false} SumBounds(xs: seq<real>, low: real, high: real)
    requires AllBetween(xs, low, high)
    ensures Within(low, Sum(xs), high, |xs| as real)
    decreases |xs|
  {
    if xs != [] {
      var front, last := xs[..|xs| - 1], xs[|xs| - 1];
      SumBounds(front, low, high);
      AddBounds(low, Sum(front), high, |front| as real, last, 1.0);
      assert |xs| as real == |front| as real + 1.0;
    }
  }

  /** The ends of the sorted list bound the list. */
  lemma SortedEnds(xs: seq<real>)
    requires xs != []
    ensures var s := Sorted(xs); s[0] in xs && s[|s| - 1] in xs && AllBetween(xs, s[0], s[|s| - 1])
  {
    var s := Sorted(xs);
    SortedAscending(xs);
    assert s[0] in multiset(s) && s[|s| - 1] in multiset(s);
    forall i | 0 <= i < |xs|
      ensures s[0] <= xs[i] <= s[|s| - 1]
    {
      assert xs[i] in multiset(xs) && xs[i] in s;
    }
  }

  lemma RankGrows(n: nat, f: real, g: real)
    requires n > 0 && f <= g
    ensures Rank(n, f) <= Rank(n, g)
  {
    Scale(f, g, n as real);
    CeilGrows(f * n as real, g * n as real);
  }

  lemma CeilGrows(x: real, y: real)
    requires x <= y
    ensures Ceil(x) <= Ceil(y)
  {
  }

  /** The mean lies between the least and the greatest score. */
  lemma MeanIsBetween(scores: seq<real>)
    requires scores != []
    ensures var s := Sorted(scores);
            s[0] in scores && s[|s| - 1] in scores && s[0] <= Mean(scores) <= s[|s| - 1]
  {
    SortedEnds(scores);
    MeanRespectsBounds(scores, Sorted(scores)[0], Sorted(scores)[|scores| - 1]);
  }

  lemma MeanRespectsBounds(xs: seq<real>, low: real, high: real)
    requires xs != [] && AllBetween(xs, low, high)
    ensures low <= Mean(xs) <= high
  {
    SumBounds(xs, low, high);
    DivideBounds(low, Sum(xs), high, |xs| as real);
  }

  /** Percentiles of growing fractions ascend, between the least and the greatest score. */
  lemma PercentilesAscend(s: seq<real>, f: real, g: real)
    requires s != [] && Ascending(s) && f <= g
    ensures s[0] <= Percentile(s, f).value <= Percentile(s, g).value <= s[|s| - 1]
  {
    RankGrows(|s|, f, g);
  }

  /** The metrics a threshold can gate on are ordered: the least score, then percentiles of growing
      fractions, as the median and the 90th percentile are. */
  lemma SummaryIsOrdered(scores: seq<real>, f: real, g: real)
    requires scores != [] && f <= g
    ensures var s := Sorted(scores);
            && AllBetween(scores, s[0], s[|s| - 1])
            && s[0] <= Percentile(s, f).value <= Percentile(s, g).value
  {
    SortedEnds(scores);
    SortedAscending(scores);
    PercentilesAscend(Sorted(scores), f, g);
  }
}
