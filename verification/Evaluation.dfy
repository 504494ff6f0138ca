/** The arithmetic of the extraction metrics, on exact reals and before rounding (evaluation/judge_eval.py). */
module Evaluation {
  import opened Options
  import opened Sets

  function Sum(xs: seq<real>): real {
    if xs == [] then 0.0 else Sum(xs[..|xs| - 1]) + xs[|xs| - 1]
  }

  function Mean(xs: seq<real>): real
    requires xs != []
  {
    Sum(xs) / |xs| as real
  }

  ghost predicate Within(xs: seq<real>, lo: real, hi: real) {
    forall x :: x in xs ==> lo <= x <= hi
  }

  lemma {:induction false} SumWithin(xs: seq<real>, lo: real, hi: real)
    requires Within(xs, lo, hi)
    ensures |xs| as real * lo <= Sum(xs) <= |xs| as real * hi
  {
    if xs != [] {
      var n := |xs| - 1;
      assert Within(xs[..n], lo, hi) by {
        assert forall x :: x in xs[..n] ==> x in xs;
      }
      SumWithin(xs[..n], lo, hi);
      assert xs[n] in xs;
      OneMore(n as real, lo);
      OneMore(n as real, hi);
      assert |xs| as real == n as real + 1.0;
    }
  }

  lemma OneMore(n: real, x: real)
    ensures (n + 1.0) * x == n * x + x
  {
  }

  /** Sums are additive, and the sum of one value is that value. */
  lemma {:induction false} SumConcat(xs: seq<real>, ys: seq<real>, x: real)
    ensures Sum(xs + ys) == Sum(xs) + Sum(ys) && Sum([x]) == x
  {
    assert [x][..0] == [];
    if ys == [] {
      assert xs + ys == xs;
    } else {
      var last := |ys| - 1;
      assert (xs + ys)[..|xs + ys| - 1] == xs + ys[..last];
      SumConcat(xs, ys[..last], x);
    }
  }

  lemma MeanWithin(xs: seq<real>, lo: real, hi: real)
    requires xs != [] && Within(xs, lo, hi)
    ensures lo <= Mean(xs) <= hi
  {
    SumWithin(xs, lo, hi);
    QuotientWithin(Sum(xs), |xs| as real, lo, hi);
  }

  lemma QuotientWithin(s: real, n: real, lo: real, hi: real)
    requires n > 0.0 && n * lo <= s <= n * hi
    ensures lo <= s / n <= hi
  {
    assert s / n - lo == (s - n * lo) / n;
    assert hi - s / n == (n * hi - s) / n;
  }

  // ---- bootstrap interval ----

  /** Ascending order, as `list.sort` leaves it. */
  function Insert(x: real, sorted: seq<real>): seq<real> {
    if sorted == [] || x <= sorted[0] then [x] + sorted else [sorted[0]] + Insert(x, sorted[1..])
  }

  function Sort(xs: seq<real>): seq<real> {
    if xs == [] then [] else Insert(xs[0], Sort(xs[1..]))
  }

  ghost predicate Ascending(xs: seq<real>) {
    forall i, j :: 0 <= i <= j < |xs| ==> xs[i] <= xs[j]
  }

  lemma {:induction false} InsertKeeps(x: real, sorted: seq<real>)
    ensures multiset(Insert(x, sorted)) == multiset(sorted) + multiset{x}
  {
    if sorted == [] || x <= sorted[0] {
    } else {
      InsertKeeps(x, sorted[1..]);
      assert sorted == [sorted[0]] + sorted[1..];
    }
  }

  lemma {:induction false} InsertSorts(x: real, sorted: seq<real>)
    requires Ascending(sorted)
    ensures Ascending(Insert(x, sorted))
  {
    if sorted == [] || x <= sorted[0] {
      assert Insert(x, sorted) == [x] + sorted;
    } else {
      assert Ascending(sorted[1..]);
      InsertSorts(x, sorted[1..]);
      var rest := Insert(x, sorted[1..]);
      forall i | 0 <= i < |rest|
        ensures sorted[0] <= rest[i]
      {
        InsertKeeps(x, sorted[1..]);
        assert rest[i] in multiset(rest);
        assert rest[i] == x || rest[i] in sorted[1..];
      }
      assert Insert(x, sorted) == [sorted[0]] + rest;
    }
  }

  lemma {:induction false} SortSorts(xs: seq<real>)
    ensures Ascending(Sort(xs)) && multiset(Sort(xs)) == multiset(xs)
  {
    if xs != [] {
      SortSorts(xs[1..]);
      InsertSorts(xs[0], Sort(xs[1..]));
      InsertKeeps(xs[0], Sort(xs[1..]));
      assert xs == [xs[0]] + xs[1..];
    }
  }

  lemma SortKeepsLength(xs: seq<real>)
    ensures |Sort(xs)| == |xs|
  {
    SortSorts(xs);
    assert |multiset(Sort(xs))| == |multiset(xs)|;
  }

  /** How many of the values are at most x, and at least x. */
  function AtMost(xs: seq<real>, x: real): (n: nat)
    ensures n <= |xs|
  {
    if xs == [] then 0 else AtMost(xs[..|xs| - 1], x) + if xs[|xs| - 1] <= x then 1 else 0
  }

  function AtLeast(xs: seq<real>, x: real): (n: nat)
    ensures n <= |xs|
  {
    if xs == [] then 0 else AtLeast(xs[..|xs| - 1], x) + if xs[|xs| - 1] >= x then 1 else 0
  }

  /** In ascending order k + 1 values are at most the k-th, and all but k at least. */
  lemma {:induction false} RankCounts(xs: seq<real>, k: nat, n: nat)
    requires Ascending(xs) && k < |xs| && n <= |xs|
    ensures AtMost(xs[..n], xs[k]) >= if n <= k then n else k + 1
    ensures AtLeast(xs[..n], xs[k]) >= if n <= k then 0 else n - k
  {
    if n > 0 {
      assert xs[..n][..n - 1] == xs[..n - 1];
      RankCounts(xs, k, n - 1);
    }
  }

  function Without(xs: seq<real>, p: nat): seq<real>
    requires p < |xs|
  {
    xs[..p] + xs[p + 1..]
  }

  lemma WithoutOne(xs: seq<real>, p: nat)
    requires p < |xs|
    ensures multiset(Without(xs, p)) == multiset(xs) - multiset{xs[p]}
  {
    assert xs == xs[..p] + [xs[p]] + xs[p + 1..];
  }

  lemma {:induction false} CountsWithout(xs: seq<real>, p: nat, x: real)
    requires p < |xs|
    ensures AtMost(xs, x) == AtMost(Without(xs, p), x) + if xs[p] <= x then 1 else 0
    ensures AtLeast(xs, x) == AtLeast(Without(xs, p), x) + if xs[p] >= x then 1 else 0
  {
    var last := |xs| - 1;
    if p < last {
      CountsWithout(xs[..last], p, x);
      WithoutEarlier(xs, p);
      CountsAppend(Without(xs[..last], p), xs[last], x);
    } else {
      assert Without(xs, p) == xs[..last];
    }
  }

  lemma WithoutEarlier(xs: seq<real>, p: nat)
    requires p < |xs| - 1
    ensures Without(xs, p) == Without(xs[..|xs| - 1], p) + [xs[|xs| - 1]]
  {
  }

  lemma CountsAppend(xs: seq<real>, y: real, x: real)
    ensures AtMost(xs + [y], x) == AtMost(xs, x) + if y <= x then 1 else 0
    ensures AtLeast(xs + [y], x) == AtLeast(xs, x) + if y >= x then 1 else 0
  {
    assert (xs + [y])[..|xs|] == xs;
  }

  lemma WithoutSame(xs: seq<real>, p: nat, ys: seq<real>, q: nat)
    requires multiset(xs) == multiset(ys) && p < |xs| && q < |ys| && xs[p] == ys[q]
    ensures multiset(Without(xs, p)) == multiset(Without(ys, q))
  {
    WithoutOne(xs, p);
    WithoutOne(ys, q);
  }

  /** Counting does not depend on the order. */
  lemma {:induction false} CountsOfMultiset(xs: seq<real>, ys: seq<real>, x: real)
    requires multiset(xs) == multiset(ys)
    ensures AtMost(xs, x) == AtMost(ys, x) && AtLeast(xs, x) == AtLeast(ys, x)
    decreases |xs|
  {
    if xs == [] {
      assert |multiset(ys)| == 0;
    } else {
      var last := |xs| - 1;
      assert xs[last] in multiset(ys);
      var p :| 0 <= p < |ys| && ys[p] == xs[last];
      CountsWithout(xs, last, x);
      CountsWithout(ys, p, x);
      WithoutSame(xs, last, ys, p);
      CountsOfMultiset(Without(xs, last), Without(ys, p), x);
    }
  }

  /** The given values, absent ones left out. */
  function Clean(values: seq<Option<real>>): seq<real> {
    if values == [] then []
    else Clean(values[..|values| - 1]) + if values[|values| - 1].Some? then [values[|values| - 1].value] else []
  }

  /** One resample: n draws, each by the random generator's choice. */
  function Resample(clean: seq<real>, draw: nat -> nat): (s: seq<real>)
    requires clean != []
    ensures |s| == |clean| && forall x :: x in s ==> x in clean
    ensures forall k :: 0 <= k < |s| ==> s[k] == clean[draw(k) % |clean|]
  {
    seq(|clean|, k requires 0 <= k < |clean| => clean[draw(k) % |clean|])
  }

  function Means(clean: seq<real>, draws: (nat, nat) -> nat, resamples: nat): (ms: seq<real>)
    requires clean != []
    ensures |ms| == resamples
  {
    if resamples == 0 then []
    else Means(clean, draws, resamples - 1) + [Mean(Resample(clean, k => draws(resamples - 1, k)))]
  }

  function Lower(resamples: nat): nat {
    (0.025 * resamples as real).Floor
  }

  function Upper(resamples: nat): nat {
    (0.975 * resamples as real).Floor
  }

  datatype Interval =
    | Unavailable  // fewer than two values
    | IndexError   // no resamples
    | Interval(lower: real, upper: real, mean: real)

  method BootstrapCi95(values: seq<Option<real>>, resamples: nat, draws: (nat, nat) -> nat) returns (ci: Interval)
    ensures |Clean(values)| < 2 <==> ci == Unavailable
    ensures |Clean(values)| >= 2 && resamples == 0 <==> ci == IndexError
    ensures |Clean(values)| >= 2 && resamples >= 1 ==>
      var means := Means(Clean(values), draws, resamples);
      Lower(resamples) <= Upper(resamples) < |Sort(means)|
      && ci == Interval(Sort(means)[Lower(resamples)], Sort(means)[Upper(resamples)], Mean(Clean(values)))
  {
    var clean: seq<real> := [];
    for i := 0 to |values|
      invariant clean == Clean(values[..i])
    {
      assert values[..i + 1][..i] == values[..i];
      if values[i].Some? {
        clean := clean + [values[i].value];
      }
    }
    assert values[..|values|] == values;
    if |clean| < 2 {
      return Unavailable;
    }
    var means: seq<real> := [];
    for r := 0 to resamples
      invariant means == Means(clean, draws, r)
    {
      means := means + [Mean(Resample(clean, k => draws(r, k)))];
    }
    if resamples == 0 {
      return IndexError;
    }
    SortSorts(means);
    SortKeepsLength(means);
    PercentileIndices(resamples);
    var sorted := Sort(means);
    ci := Interval(sorted[Lower(resamples)], sorted[Upper(resamples)], Mean(clean));
  }

  /** The 2.5th and the 97.5th percentile, rounded down. */
  lemma PercentileIndices(resamples: nat)
    requires resamples >= 1
    ensures Lower(resamples) <= Upper(resamples) < resamples
    ensures 40 * Lower(resamples) <= resamples < 40 * (Lower(resamples) + 1)
    ensures 40 * Upper(resamples) <= 39 * resamples < 40 * (Upper(resamples) + 1)
  {
  }

  /** The mean of each resample. */
  lemma {:induction false} MeansAt(clean: seq<real>, draws: (nat, nat) -> nat, resamples: nat, r: nat)
    requires clean != [] && r < resamples
    ensures Means(clean, draws, resamples)[r] == Mean(Resample(clean, k => draws(r, k)))
  {
    if r < resamples - 1 {
      MeansAt(clean, draws, resamples - 1, r);
    }
  }

  lemma MeanMeans(xs: seq<real>)
    requires xs != []
    ensures Mean(xs) * |xs| as real == Sum(xs)
  {
    TimesQuotient(Sum(xs), |xs| as real);
  }

  /** The places of the values that are there, in order. */
  ghost predicate PlacesOf(values: seq<Option<real>>, ps: seq<nat>, clean: seq<real>) {
    && |ps| == |clean|
    && (forall i, j :: 0 <= i < j < |ps| ==> ps[i] < ps[j])
    && (forall i :: 0 <= i < |ps| ==> ps[i] < |values| && values[ps[i]] == Some(clean[i]))
    && (forall k :: 0 <= k < |values| && values[k].Some? ==> k in ps)
  }

  lemma PlacesOfMore(init: seq<Option<real>>, v: Option<real>, ps: seq<nat>, clean: seq<real>)
    requires PlacesOf(init, ps, clean)
    ensures v.None? ==> PlacesOf(init + [v], ps, clean)
    ensures v.Some? ==> PlacesOf(init + [v], ps + [|init|], clean + [v.value])
  {
    var all := init + [v];
    assert forall k :: 0 <= k < |init| ==> all[k] == init[k];
    if v.Some? {
      assert forall k :: k in ps ==> k in ps + [|init|];
    }
  }

  lemma {:induction false} CleanMeans(values: seq<Option<real>>) returns (ps: seq<nat>)
    ensures PlacesOf(values, ps, Clean(values))
  {
    ps := [];
    if values != [] {
      var init, v := values[..|values| - 1], values[|values| - 1];
      ps := CleanMeans(init);
      PlacesOfMore(init, v, ps, Clean(init));
      assert values == init + [v];
      if v.Some? {
        ps := ps + [|init|];
      } else {
        assert Clean(values) == Clean(init);
      }
    }
  }

  lemma {:induction false} MeansWithin(clean: seq<real>, draws: (nat, nat) -> nat, resamples: nat, lo: real, hi: real)
    requires clean != [] && Within(clean, lo, hi)
    ensures Within(Means(clean, draws, resamples), lo, hi)
  {
    if resamples > 0 {
      MeansWithin(clean, draws, resamples - 1, lo, hi);
      MeanWithin(Resample(clean, k => draws(resamples - 1, k)), lo, hi);
    }
  }

  /**
   * Whatever is drawn: the bounds are ordered and within the range of the values, at least floor(0.025 n) + 1 of the
   * resampled means are at or below the lower one, and at least n - floor(0.975 n) at or above the upper one.
   */
  lemma IntervalIsPercentile(clean: seq<real>, draws: (nat, nat) -> nat, n: nat, lo: real, hi: real)
    requires clean != [] && n >= 1 && Within(clean, lo, hi)
    ensures var means := Means(clean, draws, n);
      var sorted := Sort(means);
      Lower(n) <= Upper(n) < |sorted|
      && var lower, upper := sorted[Lower(n)], sorted[Upper(n)];
      lo <= lower <= upper <= hi
      && AtMost(means, lower) >= Lower(n) + 1
      && AtLeast(means, upper) >= n - Upper(n)
      && 40 * AtMost(means, lower) > n && 40 * AtLeast(means, upper) >= n
  {
    var means := Means(clean, draws, n);
    var sorted := Sort(means);
    SortSorts(means);
    SortKeepsLength(means);
    PercentileIndices(n);
    var lower, upper := sorted[Lower(n)], sorted[Upper(n)];
    MeansWithin(clean, draws, n, lo, hi);
    assert lower in multiset(sorted) && upper in multiset(sorted);
    assert lower in means && upper in means;
    assert sorted[..|sorted|] == sorted;
    RankCounts(sorted, Lower(n), |sorted|);
    RankCounts(sorted, Upper(n), |sorted|);
    CountsOfMultiset(sorted, means, lower);
    CountsOfMultiset(sorted, means, upper);
  }

  // ---- quality bands and the weighted score ----

  datatype Band = Excellent | Good | Fair | Poor

  function BandOf(f1: real): Band {
    if f1 >= 0.9 then Excellent else if f1 >= 0.7 then Good else if f1 >= 0.5 then Fair else Poor
  }

  function Weight(band: Band): real {
    match band
    case Excellent => 1.0
    case Good => 0.75
    case Fair => 0.5
    case Poor => 0.0
  }

  datatype Distribution = Distribution(excellent: nat, good: nat, fair: nat, poor: nat)

  /** The samples of a batch that fall in a band. */
  ghost function InBand(f1s: seq<real>, band: Band): set<nat> {
    set k: nat | k < |f1s| && BandOf(f1s[k]) == band
  }

  ghost predicate Describes(d: Distribution, f1s: seq<real>) {
    && d.excellent == |InBand(f1s, Excellent)|
    && d.good == |InBand(f1s, Good)|
    && d.fair == |InBand(f1s, Fair)|
    && d.poor == |InBand(f1s, Poor)|
  }

  lemma InBandGrows(f1s: seq<real>, n: nat, band: Band)
    requires n < |f1s|
    ensures |InBand(f1s[..n + 1], band)| == |InBand(f1s[..n], band)| + if BandOf(f1s[n]) == band then 1 else 0
  {
    var before, after := InBand(f1s[..n], band), InBand(f1s[..n + 1], band);
    if BandOf(f1s[n]) == band {
      assert after == before + {n};
    } else {
      assert after == before;
    }
  }

  function WeightedScore(d: Distribution): real {
    var total := d.excellent + d.good + d.fair + d.poor;
    if total == 0 then 0.0
    else
      (d.excellent as real * Weight(Excellent) + d.good as real * Weight(Good) + d.fair as real * Weight(Fair)
       + d.poor as real * Weight(Poor)) / total as real
  }

  /** The bands in numbers. */
  lemma BandSets(f1s: seq<real>)
    ensures InBand(f1s, Excellent) == set k: nat | k < |f1s| && 0.9 <= f1s[k]
    ensures InBand(f1s, Good) == set k: nat | k < |f1s| && 0.7 <= f1s[k] < 0.9
    ensures InBand(f1s, Fair) == set k: nat | k < |f1s| && 0.5 <= f1s[k] < 0.7
    ensures InBand(f1s, Poor) == set k: nat | k < |f1s| && f1s[k] < 0.5
  {
  }

  /** The weighted share of the samples, 0 without any. */
  lemma WeightedScoreMeans(d: Distribution)
    ensures var total := d.excellent + d.good + d.fair + d.poor;
      if total == 0 then WeightedScore(d) == 0.0
      else WeightedScore(d) * total as real == d.excellent as real + 0.75 * d.good as real + 0.5 * d.fair as real
  {
    var total := d.excellent + d.good + d.fair + d.poor;
    if total > 0 {
      TimesQuotient(d.excellent as real + 0.75 * d.good as real + 0.5 * d.fair as real, total as real);
    }
  }

  lemma TimesQuotient(x: real, y: real)
    requires y > 0.0
    ensures x / y * y == x
  {
  }

  method Distribute(f1s: seq<real>) returns (d: Distribution)
    ensures Describes(d, f1s)
    ensures d.excellent == |set k: nat | k < |f1s| && 0.9 <= f1s[k]|
    ensures d.good == |set k: nat | k < |f1s| && 0.7 <= f1s[k] < 0.9|
    ensures d.fair == |set k: nat | k < |f1s| && 0.5 <= f1s[k] < 0.7|
    ensures d.poor == |set k: nat | k < |f1s| && f1s[k] < 0.5|
  {
    d := Distribution(0, 0, 0, 0);
    for i := 0 to |f1s|
      invariant Describes(d, f1s[..i])
    {
      InBandGrows(f1s, i, Excellent);
      InBandGrows(f1s, i, Good);
      InBandGrows(f1s, i, Fair);
      InBandGrows(f1s, i, Poor);
      if f1s[i] >= 0.9 {
        d := d.(excellent := d.excellent + 1);
      } else if f1s[i] >= 0.7 {
        d := d.(good := d.good + 1);
      } else if f1s[i] >= 0.5 {
        d := d.(fair := d.fair + 1);
      } else {
        d := d.(poor := d.poor + 1);
      }
    }
    assert f1s[..|f1s|] == f1s;
    BandSets(f1s);
  }

  function Weights(f1s: seq<real>): (ws: seq<real>)
    ensures |ws| == |f1s|
  {
    seq(|f1s|, k requires 0 <= k < |f1s| => Weight(BandOf(f1s[k])))
  }

  lemma {:induction false} BandsPartition(f1s: seq<real>, d: Distribution)
    requires Describes(d, f1s)
    ensures d.excellent + d.good + d.fair + d.poor == |f1s|
    ensures d.excellent as real + d.good as real * 0.75 + d.fair as real * 0.5 == Sum(Weights(f1s))
    decreases |f1s|
  {
    if f1s == [] {
      assert forall band :: InBand(f1s, band) == {};
    } else {
      var n := |f1s| - 1;
      var init := f1s[..n];
      assert f1s[..n + 1] == f1s;
      InBandGrows(f1s, n, Excellent);
      InBandGrows(f1s, n, Good);
      InBandGrows(f1s, n, Fair);
      InBandGrows(f1s, n, Poor);
      BandsPartition(init, Distribution(|InBand(init, Excellent)|, |InBand(init, Good)|,
                                        |InBand(init, Fair)|, |InBand(init, Poor)|));
      assert Weights(f1s)[..n] == Weights(init);
    }
  }

  /** The score is the mean of the weights the samples earn. */
  lemma ScoreIsMeanWeight(f1s: seq<real>, d: Distribution)
    requires f1s != [] && Describes(d, f1s)
    ensures WeightedScore(d) == Mean(Weights(f1s))
  {
    BandsPartition(f1s, d);
  }

  /** Pointwise order and distance carry over to sums. */
  lemma {:induction false} SumsApart(xs: seq<real>, ys: seq<real>, lo: real, hi: real)
    requires |xs| == |ys| && forall k :: 0 <= k < |xs| ==> lo <= xs[k] - ys[k] <= hi
    ensures |xs| as real * lo <= Sum(xs) - Sum(ys) <= |xs| as real * hi
  {
    if xs != [] {
      var n := |xs| - 1;
      SumsApart(xs[..n], ys[..n], lo, hi);
      OneMore(n as real, lo);
      OneMore(n as real, hi);
      assert |xs| as real == n as real + 1.0;
    }
  }

  lemma MeansApart(xs: seq<real>, ys: seq<real>, lo: real, hi: real)
    requires |xs| == |ys| > 0 && forall k :: 0 <= k < |xs| ==> lo <= xs[k] - ys[k] <= hi
    ensures lo <= Mean(xs) - Mean(ys) <= hi
  {
    SumsApart(xs, ys, lo, hi);
    var n := |xs| as real;
    QuotientWithin(Sum(xs) - Sum(ys), n, lo, hi);
    assert (Sum(xs) - Sum(ys)) / n == Sum(xs) / n - Sum(ys) / n;
  }

  /** The largest gap between corresponding values. */
  function LargestGap(xs: seq<real>, ys: seq<real>): (gap: real)
    requires |xs| == |ys| > 0
    ensures forall k :: 0 <= k < |xs| ==> xs[k] - ys[k] <= gap
    ensures exists k :: 0 <= k < |xs| && xs[k] - ys[k] == gap
  {
    var n := |xs| - 1;
    if n == 0 then xs[0] - ys[0]
    else
      var gap := LargestGap(xs[..n], ys[..n]);
      if xs[n] - ys[n] >= gap then xs[n] - ys[n] else gap
  }

  lemma WeightIsNear(f1: real)
    requires 0.0 <= f1 <= 1.0
    ensures -0.5 < Weight(BandOf(f1)) - f1 <= 0.1
  {
  }

  lemma MeansStrictlyApart(xs: seq<real>, ys: seq<real>, lo: real, hi: real)
    requires |xs| == |ys| > 0 && forall k :: 0 <= k < |xs| ==> lo < xs[k] - ys[k] <= hi
    ensures lo < Mean(xs) - Mean(ys) <= hi
  {
    var gap := LargestGap(ys, xs);
    var k :| 0 <= k < |xs| && ys[k] - xs[k] == gap;
    MeansApart(xs, ys, -gap, hi);
  }

  /** The weighted score stays within (-0.5, 0.1] of the mean F1. */
  lemma ScoreTracksMean(f1s: seq<real>, d: Distribution)
    requires f1s != [] && Describes(d, f1s) && forall k :: 0 <= k < |f1s| ==> 0.0 <= f1s[k] <= 1.0
    ensures -0.5 < WeightedScore(d) - Mean(f1s) <= 0.1
  {
    ScoreIsMeanWeight(f1s, d);
    var ws := Weights(f1s);
    forall k | 0 <= k < |f1s|
      ensures -0.5 < ws[k] - f1s[k] <= 0.1
    {
      WeightIsNear(f1s[k]);
    }
    MeansStrictlyApart(ws, f1s, -0.5, 0.1);
  }

  /** Neither end of that range can be moved. */
  lemma ScoreRangeIsSharp(gap: real)
    requires 0.0 < gap <= 0.5
    ensures Describes(Distribution(1, 0, 0, 0), [0.9]) && WeightedScore(Distribution(1, 0, 0, 0)) - Mean([0.9]) == 0.1
    ensures Describes(Distribution(0, 0, 0, 1), [0.5 - gap])
    ensures WeightedScore(Distribution(0, 0, 0, 1)) - Mean([0.5 - gap]) == gap - 0.5
  {
    SingleBand(0.9);
    SingleBand(0.5 - gap);
    assert Sum([0.9]) == Sum([]) + 0.9 && Sum([0.5 - gap]) == Sum([]) + 0.5 - gap by {
      assert [0.9][..0] == [] && [0.5 - gap][..0] == [];
    }
  }

  lemma SingleBand(f1: real)
    ensures forall band :: |InBand([f1], band)| == if band == BandOf(f1) then 1 else 0
  {
    forall band
      ensures |InBand([f1], band)| == if band == BandOf(f1) then 1 else 0
    {
      assert InBand([f1], band) == if band == BandOf(f1) then {0} else {};
    }
  }

  /** Improving samples never lowers the score. */
  lemma ScoreIsMonotone(low: seq<real>, dl: Distribution, high: seq<real>, dh: Distribution)
    requires |low| == |high| && Describes(dl, low) && Describes(dh, high)
    requires forall k :: 0 <= k < |low| ==> low[k] <= high[k]
    ensures WeightedScore(dl) <= WeightedScore(dh)
  {
    BandsPartition(low, dl);
    BandsPartition(high, dh);
    if low != [] {
      ScoreIsMeanWeight(low, dl);
      ScoreIsMeanWeight(high, dh);
      MeansApart(Weights(high), Weights(low), 0.0, 1.0);
    }
  }

  // ---- F1 over skill names ----

  /** How names are compared: which count as blank, and the normal form of the others. */
  datatype Naming = Naming(blank: string -> bool, normal: string -> string)

  function Skills(names: seq<string>, naming: Naming): set<string> {
    (set name | name in names && !naming.blank(name) :: naming.normal(name)) - {""}
  }

  datatype Scores = Scores(precision: real, recall: real, f1: real)

  function SkillScores(golden: set<string>, system: set<string>): Scores {
    if golden == {} && system == {} then Scores(1.0, 1.0, 1.0)
    else if golden == {} || system == {} then Scores(0.0, 0.0, 0.0)
    else
      var hits := |golden * system| as real;
      var precision, recall := hits / |system| as real, hits / |golden| as real;
      Scores(precision, recall,
             if precision + recall > 0.0 then 2.0 * precision * recall / (precision + recall) else 0.0)
  }

  /** The skills of a list: the normal forms of its names that are not blank, other than the empty one. */
  lemma SkillsMeans(names: seq<string>, naming: Naming, skill: string)
    ensures skill in Skills(names, naming)
       <==> skill != "" && exists name :: name in names && !naming.blank(name) && naming.normal(name) == skill
  {
  }

  /** Precision is the share of the system's skills that are expected, recall that of the expected ones found. */
  lemma PrecisionAndRecall(golden: set<string>, system: set<string>)
    ensures var sc := SkillScores(golden, system);
      && (golden != {} && system != {} ==>
            sc.precision * |system| as real == |golden * system| as real
            && sc.recall * |golden| as real == |golden * system| as real)
      && (golden == {} && system == {} ==> sc == Scores(1.0, 1.0, 1.0))
      && ((golden == {}) != (system == {}) ==> sc == Scores(0.0, 0.0, 0.0))
  {
    if golden != {} && system != {} {
      TimesQuotient(|golden * system| as real, |system| as real);
      TimesQuotient(|golden * system| as real, |golden| as real);
    }
  }

  lemma HarmonicMean(hits: real, g: real, s: real)
    requires 0.0 < hits && 0.0 < g && 0.0 < s
    ensures var p, r := hits / s, hits / g;
      p > 0.0 && r > 0.0 && 2.0 * p * r / (p + r) == 2.0 * hits / (g + s)
  {
    var p, r := hits / s, hits / g;
    var f := 2.0 * hits / (g + s);
    Positive(hits, s);
    Positive(hits, g);
    assert p * s == hits && r * g == hits && f * (g + s) == 2.0 * hits;
    calc {
      f * (p + r) * g * s;
      f * (hits * g + hits * s);
      hits * (f * (g + s));
      2.0 * hits * hits;
      2.0 * p * r * g * s;
    }
    Cancel(f * (p + r), 2.0 * p * r, g, s);
    assert f * (p + r) / (p + r) == f;
  }

  lemma Positive(x: real, y: real)
    requires x > 0.0 && y > 0.0
    ensures x / y > 0.0 && x / y * y == x
  {
  }

  lemma Cancel(a: real, b: real, g: real, s: real)
    requires g > 0.0 && s > 0.0 && a * g * s == b * g * s
    ensures a == b
  {
    assert (a - b) * (g * s) == 0.0;
  }

  /** F1 is twice the overlap over the two sizes, and lies between precision and recall. */
  lemma F1IsOverlap(golden: set<string>, system: set<string>)
    requires golden != {} && system != {}
    ensures var sc := SkillScores(golden, system);
      && sc.f1 * (|golden| + |system|) as real == 2.0 * |golden * system| as real
      && (sc.precision <= sc.f1 <= sc.recall || sc.recall <= sc.f1 <= sc.precision)
  {
    var hits, g, s := |golden * system| as real, |golden| as real, |system| as real;
    assert (|golden| + |system|) as real == g + s;
    if golden * system != {} {
      ScoresOfHits(golden, system);
      Between(hits, g, s);
      TimesQuotient(2.0 * hits, g + s);
    } else {
      assert SkillScores(golden, system) == Scores(0.0, 0.0, 0.0);
    }
  }

  lemma ScoresOfHits(golden: set<string>, system: set<string>)
    requires golden * system != {}
    ensures var hits, g, s := |golden * system| as real, |golden| as real, |system| as real;
      SkillScores(golden, system) == Scores(hits / s, hits / g, 2.0 * hits / (g + s))
  {
    HarmonicMean(|golden * system| as real, |golden| as real, |system| as real);
  }

  lemma Between(hits: real, g: real, s: real)
    requires 0.0 <= hits && 0.0 < g && 0.0 < s
    ensures g <= s ==> hits / s <= 2.0 * hits / (g + s) <= hits / g
    ensures s <= g ==> hits / g <= 2.0 * hits / (g + s) <= hits / s
  {
    var f := 2.0 * hits / (g + s);
    assert f == hits / ((g + s) / 2.0);
    if g <= s {
      Antitone(hits, (g + s) / 2.0, s);
      Antitone(hits, g, (g + s) / 2.0);
    } else {
      Antitone(hits, (g + s) / 2.0, g);
      Antitone(hits, s, (g + s) / 2.0);
    }
  }

  lemma Antitone(x: real, a: real, b: real)
    requires 0.0 <= x && 0.0 < a <= b
    ensures x / b <= x / a
  {
    assert x / a - x / b == x * (b - a) / (a * b);
  }

  /** F1 ranges over [0, 1], with 1 for equal sets only and 0 for disjoint ones that are not both empty. */
  lemma F1Extremes(golden: set<string>, system: set<string>)
    ensures var f1 := SkillScores(golden, system).f1;
      && 0.0 <= f1 <= 1.0
      && (f1 == 1.0 <==> golden == system)
      && (f1 == 0.0 <==> golden * system == {} && golden + system != {})
  {
    if golden != {} && system != {} {
      F1IsOverlap(golden, system);
      var both, f1 := golden * system, SkillScores(golden, system).f1;
      var n := |golden - system| + |system - golden|;
      OverlapAndRest(golden, system);
      assert (|golden| + |system|) as real == 2.0 * |both| as real + n as real;
      Share(f1, |both| as real, n as real);
    }
  }

  lemma OverlapAndRest(a: set<string>, b: set<string>)
    ensures |a| + |b| == 2 * |a * b| + |a - b| + |b - a|
    ensures |a - b| + |b - a| == 0 <==> a == b
  {
    assert a == a * b + (a - b) && b == a * b + (b - a);
  }

  lemma Share(f: real, both: real, n: real)
    requires 0.0 <= both && 0.0 <= n && 2.0 * both + n > 0.0 && f * (2.0 * both + n) == 2.0 * both
    ensures 0.0 <= f <= 1.0 && (f == 1.0 <==> n == 0.0) && (f == 0.0 <==> both == 0.0)
  {
    var total := 2.0 * both + n;
    assert (1.0 - f) * total == n;
  }

  /** Exchanging the sides exchanges precision and recall. */
  lemma ScoresSwap(golden: set<string>, system: set<string>)
    ensures var sc := SkillScores(golden, system);
      SkillScores(system, golden) == Scores(sc.recall, sc.precision, sc.f1)
  {
    assert golden * system == system * golden;
  }

  datatype Lists = Lists(required: seq<string>, bonus: seq<string>)

  function ListScores(golden: seq<string>, system: seq<string>, naming: Naming): Scores {
    SkillScores(Skills(golden, naming), Skills(system, naming))
  }

  /** The scores of one sample: both lists, weighted by the length of the expected ones. */
  function SampleScores(golden: Lists, system: Lists, naming: Naming): Scores {
    var required, bonus := |golden.required| as real, |golden.bonus| as real;
    if golden.required != [] || golden.bonus != [] then
      var onRequired := ListScores(golden.required, system.required, naming);
      var onBonus := ListScores(golden.bonus, system.bonus, naming);
      Scores(Blended(onRequired.precision, onBonus.precision, required, bonus),
             Blended(onRequired.recall, onBonus.recall, required, bonus),
             Blended(onRequired.f1, onBonus.f1, required, bonus))
    else Scores(0.0, 0.0, 0.0)
  }

  function Blended(x: real, y: real, a: real, b: real): real
    requires a + b > 0.0
  {
    (x * a + y * b) / (a + b)
  }

  /** z is the mean of x and y by the weights a and b. */
  ghost predicate IsBlend(z: real, x: real, y: real, a: real, b: real) {
    z * (a + b) == x * a + y * b
  }

  /** Each score of a sample is that of its two lists, weighted by the lengths of the expected ones. */
  lemma SampleScoresMean(golden: Lists, system: Lists, naming: Naming)
    ensures golden.required == [] && golden.bonus == [] ==>
      SampleScores(golden, system, naming) == Scores(0.0, 0.0, 0.0)
    ensures golden.required != [] || golden.bonus != [] ==>
      var sc := SampleScores(golden, system, naming);
      var x := SkillScores(Skills(golden.required, naming), Skills(system.required, naming));
      var y := SkillScores(Skills(golden.bonus, naming), Skills(system.bonus, naming));
      var a, b := |golden.required| as real, |golden.bonus| as real;
      && IsBlend(sc.precision, x.precision, y.precision, a, b) && IsBlend(sc.recall, x.recall, y.recall, a, b)
      && IsBlend(sc.f1, x.f1, y.f1, a, b)
  {
    var x, y := ListScores(golden.required, system.required, naming), ListScores(golden.bonus, system.bonus, naming);
    var a, b := |golden.required| as real, |golden.bonus| as real;
    if golden.required != [] || golden.bonus != [] {
      BlendedIsBlend(x.precision, y.precision, a, b);
      BlendedIsBlend(x.recall, y.recall, a, b);
      BlendedIsBlend(x.f1, y.f1, a, b);
    }
  }

  lemma BlendedIsBlend(x: real, y: real, a: real, b: real)
    requires a + b > 0.0
    ensures IsBlend(Blended(x, y, a, b), x, y, a, b)
  {
    TimesQuotient(x * a + y * b, a + b);
  }

  ghost predicate Proportion(x: real) {
    0.0 <= x <= 1.0
  }

  lemma ScoresInRange(golden: set<string>, system: set<string>)
    ensures var sc := SkillScores(golden, system);
      Proportion(sc.precision) && Proportion(sc.recall) && Proportion(sc.f1)
  {
    F1Extremes(golden, system);
    if golden != {} && system != {} {
      SubsetSize(golden * system, golden);
      SubsetSize(golden * system, system);
      QuotientWithin(|golden * system| as real, |system| as real, 0.0, 1.0);
      QuotientWithin(|golden * system| as real, |golden| as real, 0.0, 1.0);
    }
  }

  /**
   * A sample's scores are in [0, 1]; its F1 is 1 exactly when something is expected and each list with an expectation
   * is met.
   */
  lemma SampleScoresRange(golden: Lists, system: Lists, naming: Naming)
    ensures var sc := SampleScores(golden, system, naming);
      && Proportion(sc.precision) && Proportion(sc.recall) && Proportion(sc.f1)
      && (sc.f1 == 1.0 <==>
          (golden.required != [] || golden.bonus != [])
          && (golden.required != [] ==> Skills(golden.required, naming) == Skills(system.required, naming))
          && (golden.bonus != [] ==> Skills(golden.bonus, naming) == Skills(system.bonus, naming)))
  {
    if golden.required != [] || golden.bonus != [] {
      var required, bonus := |golden.required| as real, |golden.bonus| as real;
      assert required > 0.0 <==> golden.required != [];
      assert bonus > 0.0 <==> golden.bonus != [];
      var x, y := ListScores(golden.required, system.required, naming), ListScores(golden.bonus, system.bonus, naming);
      ScoresInRange(Skills(golden.required, naming), Skills(system.required, naming));
      ScoresInRange(Skills(golden.bonus, naming), Skills(system.bonus, naming));
      F1Extremes(Skills(golden.required, naming), Skills(system.required, naming));
      F1Extremes(Skills(golden.bonus, naming), Skills(system.bonus, naming));
      Blend(x.precision, y.precision, required, bonus);
      Blend(x.recall, y.recall, required, bonus);
      Blend(x.f1, y.f1, required, bonus);
    }
  }

  lemma Times(x: real, y: real)
    requires 0.0 <= x && 0.0 <= y
    ensures 0.0 <= x * y && (x * y == 0.0 <==> x == 0.0 || y == 0.0)
  {
  }

  lemma Blend(x: real, y: real, a: real, b: real)
    requires Proportion(x) && Proportion(y) && 0.0 <= a && 0.0 <= b && a + b > 0.0
    ensures Proportion(Blended(x, y, a, b))
    ensures Blended(x, y, a, b) == 1.0 <==> (a > 0.0 ==> x == 1.0) && (b > 0.0 ==> y == 1.0)
  {
    var f := Blended(x, y, a, b);
    assert f * (a + b) == x * a + y * b;
    assert (1.0 - f) * (a + b) == (1.0 - x) * a + (1.0 - y) * b;
    Times(x, a);
    Times(y, b);
    Times(1.0 - x, a);
    Times(1.0 - y, b);
    QuotientWithin(x * a + y * b, a + b, 0.0, 1.0);
  }
}
