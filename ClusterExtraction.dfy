/** The cluster extractor of `analyze_strict_divergence`: one left-to-right
    scan over the window that groups maximal runs of negative MACD-histogram
    bars into clusters and summarises each by its area and its two troughs.

    `Clusters` is the specification (one summary per maximal red run, found by
    `NegativeRuns.Runs`); `ExtractClusters` is the scan itself, with the source's
    `in_red` flag and running accumulators, and is proved to return exactly
    `Clusters`.  All arithmetic is over exact reals. */
module ClusterExtraction {
  import opened NegativeRuns

  /** The "not yet set" value the scan starts each minimum from. */
  const SENTINEL: real := 999999.0

  /** One bar of the window: the bar's low and close prices and the MACD
      momentum line (DIF) and histogram aligned with it. */
  datatype Sample = Sample(low: real, close: real, dif: real, hist: real)

  /** Summary of one red run: area under the histogram and the two troughs. */
  datatype Cluster = Cluster(area: real, minDif: real, minPrice: real)

  function Hist(s: seq<Sample>): seq<real>
  {
    seq(|s|, k requires 0 <= k < |s| => s[k].hist)
  }

  function Dif(s: seq<Sample>): seq<real>
  {
    seq(|s|, k requires 0 <= k < |s| => s[k].dif)
  }

  function Low(s: seq<Sample>): seq<real>
  {
    seq(|s|, k requires 0 <= k < |s| => s[k].low)
  }

  function Abs(x: real): real
  {
    if x < 0.0 then -x else x
  }

  function Min(a: real, b: real): real
  {
    if b < a then b else a
  }

  /** The sum of the absolute values of `xs`, added up left to right. */
  function AbsSum(xs: seq<real>): (a: real)
    ensures a >= 0.0
  {
    if xs == [] then 0.0 else AbsSum(xs[..|xs| - 1]) + Abs(xs[|xs| - 1])
  }

  /** The sum over a nonempty stretch of negative values is positive. */
  lemma AbsSumPositive(xs: seq<real>)
    requires xs != [] && forall k :: 0 <= k < |xs| ==> xs[k] < 0.0
    ensures AbsSum(xs) > 0.0
  {
  }

  /** The running minimum of `xs` started from the sentinel, that is
      min(SENTINEL, min xs). */
  function TroughOf(xs: seq<real>): (m: real)
    ensures m <= SENTINEL
  {
    if xs == [] then SENTINEL else Min(TroughOf(xs[..|xs| - 1]), xs[|xs| - 1])
  }

  /** The trough is a lower bound of `xs` and is either the sentinel or one
      of the values, so it is min(SENTINEL, min xs). */
  lemma {:induction false} TroughOfIsMin(xs: seq<real>)
    ensures forall k :: 0 <= k < |xs| ==> TroughOf(xs) <= xs[k]
    ensures TroughOf(xs) == SENTINEL || exists k :: 0 <= k < |xs| && TroughOf(xs) == xs[k]
    decreases |xs|
  {
    if xs != [] {
      var ys := xs[..|xs| - 1];
      TroughOfIsMin(ys);
      assert forall k :: 0 <= k < |ys| ==> ys[k] == xs[k];
      if TroughOf(xs) != SENTINEL && TroughOf(xs) != xs[|xs| - 1] {
        var k :| 0 <= k < |ys| && TroughOf(ys) == ys[k];
        assert TroughOf(xs) == xs[k];
      }
    }
  }

  /** The sentinel caps the trough: when every value exceeds 999999, the
      trough is exactly 999999. */
  lemma SentinelCapsAll(xs: seq<real>)
    requires forall k :: 0 <= k < |xs| ==> xs[k] > SENTINEL
    ensures TroughOf(xs) == SENTINEL
  {
    TroughOfIsMin(xs);
  }

  /** The summary of the bars of run `r`. */
  function ClusterOf(s: seq<Sample>, r: Run): Cluster
    requires r.start <= r.end <= |s|
  {
    Cluster(AbsSum(Hist(s)[r.start..r.end]),
            TroughOf(Dif(s)[r.start..r.end]),
            TroughOf(Low(s)[r.start..r.end]))
  }

  /** The summaries of the runs `rs`, in the same order. */
  function Summaries(s: seq<Sample>, rs: seq<Run>): seq<Cluster>
    requires forall r :: r in rs ==> r.start <= r.end <= |s|
  {
    seq(|rs|, j requires 0 <= j < |rs| => ClusterOf(s, rs[j]))
  }

  /** The clusters of a window: one summary per maximal red run, oldest first. */
  function Clusters(s: seq<Sample>): seq<Cluster>
  {
    Summaries(s, Runs(Hist(s)))
  }

  lemma SummariesAppend(s: seq<Sample>, rs: seq<Run>, r: Run)
    requires forall r' :: r' in rs ==> r'.start <= r'.end <= |s|
    requires r.start <= r.end <= |s|
    ensures Summaries(s, rs + [r]) == Summaries(s, rs) + [ClusterOf(s, r)]
  {
    var rs' := rs + [r];
    assert forall j :: 0 <= j < |rs| ==> rs'[j] == rs[j];
  }

  /** One step of a running accumulator: extending the slice xs[a..b] by one
      value adds its absolute value to the sum and takes the minimum with it. */
  lemma ExtendSlice(xs: seq<real>, a: nat, b: nat)
    requires a <= b < |xs|
    ensures AbsSum(xs[a..b + 1]) == AbsSum(xs[a..b]) + Abs(xs[b])
    ensures TroughOf(xs[a..b + 1]) == Min(TroughOf(xs[a..b]), xs[b])
  {
    assert xs[a..b + 1][..b - a] == xs[a..b];
  }

  /** Adding bar `i` to a run that started at `start` adds |hist| to its area
      and takes the minimum of each trough with the bar's DIF and low. */
  lemma Accumulate(s: seq<Sample>, start: nat, i: nat)
    requires start <= i < |s|
    ensures AbsSum(Hist(s)[start..i + 1]) == AbsSum(Hist(s)[start..i]) + Abs(s[i].hist)
    ensures TroughOf(Dif(s)[start..i + 1]) == Min(TroughOf(Dif(s)[start..i]), s[i].dif)
    ensures TroughOf(Low(s)[start..i + 1]) == Min(TroughOf(Low(s)[start..i]), s[i].low)
  {
    ExtendSlice(Hist(s), start, i);
    ExtendSlice(Dif(s), start, i);
    ExtendSlice(Low(s), start, i);
  }

  /** Scan state between runs: the runs found so far, `done`, followed by the
      runs of the rest of the window, make up all the runs of the window. */
  ghost predicate Idle(s: seq<Sample>, i: nat, done: seq<Run>)
  {
    i <= |s| && Runs(Hist(s)) == done + RunsFrom(Hist(s), i)
  }

  /** Scan state inside a run that started at `start` and is red up to `i`. */
  ghost predicate Open(s: seq<Sample>, i: nat, start: nat, done: seq<Run>)
  {
    && start < i <= |s|
    && Runs(Hist(s)) == done + RunsFrom(Hist(s), start)
    && (forall k :: start <= k < i ==> s[k].hist < 0.0)
  }

  lemma IdleSkip(s: seq<Sample>, i: nat, done: seq<Run>)
    requires Idle(s, i, done) && i < |s| && s[i].hist >= 0.0
    ensures Idle(s, i + 1, done)
  {
    RunsFromSkip(Hist(s), i);
  }

  lemma IdleOpen(s: seq<Sample>, i: nat, done: seq<Run>)
    requires Idle(s, i, done) && i < |s| && s[i].hist < 0.0
    ensures Open(s, i + 1, i, done)
  {
  }

  lemma OpenExtend(s: seq<Sample>, i: nat, start: nat, done: seq<Run>)
    requires Open(s, i, start, done) && i < |s| && s[i].hist < 0.0
    ensures Open(s, i + 1, start, done)
  {
  }

  /** A run that has reached position `i` ends there when bar `i` is not red
      or the window is over. */
  lemma OpenClose(s: seq<Sample>, i: nat, start: nat, done: seq<Run>)
    requires Open(s, i, start, done) && (i == |s| || s[i].hist >= 0.0)
    ensures Idle(s, i, done + [Run(start, i)])
  {
    var h := Hist(s);
    assert forall k :: start <= k < i ==> h[k] < 0.0;
    RunEndAt(h, start, i);
    assert RunsFrom(h, start) == [Run(start, i)] + RunsFrom(h, i);
  }

  /** The scan of the source: a single pass with the `in_red` flag and the
      accumulators `area`, `min_dif` and `min_price`, which start at 0,
      SENTINEL, SENTINEL and are reset to them whenever a run closes; a run
      still open at the end of the window is emitted too. */
  method ExtractClusters(s: seq<Sample>) returns (clusters: seq<Cluster>)
    ensures clusters == Clusters(s)
  {
    clusters := [];
    var currArea, currMinDif, currMinPrice := 0.0, SENTINEL, SENTINEL;
    var inRed := false;
    ghost var done: seq<Run> := [];
    ghost var start: nat := 0;
    for i := 0 to |s|
      invariant forall r :: r in done ==> r.start <= r.end <= i
      invariant clusters == Summaries(s, done)
      invariant !inRed ==> Idle(s, i, done)
      invariant !inRed ==> currArea == 0.0 && currMinDif == SENTINEL && currMinPrice == SENTINEL
      invariant inRed ==> Open(s, i, start, done)
      invariant inRed ==> forall r :: r in done ==> r.end <= start
      invariant inRed ==> currArea == AbsSum(Hist(s)[start..i])
      invariant inRed ==> currMinDif == TroughOf(Dif(s)[start..i])
      invariant inRed ==> currMinPrice == TroughOf(Low(s)[start..i])
    {
      var hVal, dVal, pVal := s[i].hist, s[i].dif, s[i].low;
      if hVal < 0.0 {
        if !inRed {
          IdleOpen(s, i, done);
          start := i;
          assert Hist(s)[i..i] == Dif(s)[i..i] == Low(s)[i..i] == [];
        } else {
          OpenExtend(s, i, start, done);
        }
        Accumulate(s, start, i);
        inRed := true;
        currArea := currArea + Abs(hVal);
        currMinDif := Min(currMinDif, dVal);
        currMinPrice := Min(currMinPrice, pVal);
      } else {
        if inRed {
          OpenClose(s, i, start, done);
          SummariesAppend(s, done, Run(start, i));
          clusters := clusters + [Cluster(currArea, currMinDif, currMinPrice)];
          done := done + [Run(start, i)];
          currArea, currMinDif, currMinPrice := 0.0, SENTINEL, SENTINEL;
          inRed := false;
        }
        IdleSkip(s, i, done);
      }
    }
    if inRed {
      OpenClose(s, |s|, start, done);
      SummariesAppend(s, done, Run(start, |s|));
      clusters := clusters + [Cluster(currArea, currMinDif, currMinPrice)];
      done := done + [Run(start, |s|)];
    }
    assert Runs(Hist(s)) == done;
  }

  /** Every cluster has a strictly positive area: a bar joins a run only when
      its histogram value is negative, and it then adds |value| > 0.  This is
      what keeps the classifier's area ratio well defined. */
  lemma ClustersAreaPositive(s: seq<Sample>)
    ensures forall j :: 0 <= j < |Clusters(s)| ==> Clusters(s)[j].area > 0.0
  {
    var h := Hist(s);
    RunsFromEachMaximal(h, 0);
    forall j | 0 <= j < |Clusters(s)|
      ensures Clusters(s)[j].area > 0.0
    {
      var r := Runs(h)[j];
      assert r in Runs(h);
      RunAreaPositive(h, r);
    }
  }

  lemma RunAreaPositive(h: seq<real>, r: Run)
    requires IsMaximalRun(h, r)
    ensures AbsSum(h[r.start..r.end]) > 0.0
  {
    var xs := h[r.start..r.end];
    assert forall k :: 0 <= k < |xs| ==> xs[k] == h[r.start + k];
    AbsSumPositive(xs);
  }

  /** There is one cluster per bar that starts a red run (a red bar that is
      first in the window or follows a bar that is not red). */
  lemma ClusterCount(s: seq<Sample>)
    ensures |Clusters(s)| == CountStarts(Hist(s), 0)
  {
    RunCount(Hist(s));
  }

  /** The trough of a slice xs[a..b] is the minimum of the sentinel and the
      values at indices a to b - 1. */
  lemma TroughOfSlice(xs: seq<real>, a: nat, b: nat)
    requires a <= b <= |xs|
    ensures TroughOf(xs[a..b]) <= SENTINEL
    ensures forall k :: a <= k < b ==> TroughOf(xs[a..b]) <= xs[k]
    ensures TroughOf(xs[a..b]) == SENTINEL || exists k :: a <= k < b && TroughOf(xs[a..b]) == xs[k]
  {
    var ys := xs[a..b];
    var m := TroughOf(ys);
    TroughOfIsMin(ys);
    assert forall k :: a <= k < b ==> ys[k - a] == xs[k];
    if m != SENTINEL {
      var i :| 0 <= i < |ys| && m == ys[i];
      assert xs[a + i] == m;
    }
  }

  /** Cluster `j` summarises exactly the bars of the `j`-th maximal red run:
      its area is the sum of |hist| over them, and each trough is the minimum
      of the sentinel and the values over them. */
  lemma ClusterSummarisesRun(s: seq<Sample>, j: nat)
    requires j < |Clusters(s)|
    ensures IsMaximalRun(Hist(s), Runs(Hist(s))[j])
    ensures var r, c := Runs(Hist(s))[j], Clusters(s)[j];
      && c.area == AbsSum(Hist(s)[r.start..r.end])
      && c.minDif <= SENTINEL
      && (forall k :: r.start <= k < r.end ==> c.minDif <= s[k].dif)
      && (c.minDif == SENTINEL || exists k :: r.start <= k < r.end && c.minDif == s[k].dif)
      && c.minPrice <= SENTINEL
      && (forall k :: r.start <= k < r.end ==> c.minPrice <= s[k].low)
      && (c.minPrice == SENTINEL || exists k :: r.start <= k < r.end && c.minPrice == s[k].low)
  {
    var h := Hist(s);
    RunsFromEachMaximal(h, 0);
    var r, c := Runs(h)[j], Clusters(s)[j];
    assert r in Runs(h);
    assert c == ClusterOf(s, r);
    TroughOfSlice(Dif(s), r.start, r.end);
    TroughOfSlice(Low(s), r.start, r.end);
    assert forall k :: r.start <= k < r.end ==> Dif(s)[k] == s[k].dif && Low(s)[k] == s[k].low;
    if c.minDif != SENTINEL {
      var k :| r.start <= k < r.end && c.minDif == Dif(s)[k];
      assert Dif(s)[k] == s[k].dif;
    }
    if c.minPrice != SENTINEL {
      var k :| r.start <= k < r.end && c.minPrice == Low(s)[k];
      assert Low(s)[k] == s[k].low;
    }
  }

  /** The last cluster: when the window ends on a red bar, the run still open
      at the end is emitted as the last cluster and reaches the window's end;
      otherwise the last cluster closed at a red-to-not-red transition, and no
      red bar follows it. */
  lemma LastCluster(s: seq<Sample>)
    requires |s| > 0
    ensures s[|s| - 1].hist < 0.0 ==> |Clusters(s)| > 0
    ensures |Clusters(s)| > 0 ==>
      var r := Runs(Hist(s))[|Runs(Hist(s))| - 1];
      && s[r.end - 1].hist < 0.0
      && (r.end == |s| <==> s[|s| - 1].hist < 0.0)
      && (r.end < |s| ==> s[r.end].hist >= 0.0)
      && (forall k :: r.end <= k < |s| ==> s[k].hist >= 0.0)
  {
    LastRun(Hist(s));
    assert forall k :: 0 <= k < |s| ==> Hist(s)[k] == s[k].hist;
  }

  /** The total histogram mass below zero in `h`: the sum of -h[k] over the
      red bars, independently of how they group into runs. */
  function RedArea(h: seq<real>): real
  {
    if h == [] then 0.0 else (if h[0] < 0.0 then -h[0] else 0.0) + RedArea(h[1..])
  }

  /** The sum of the areas of `cs`. */
  function TotalArea(cs: seq<Cluster>): real
  {
    if cs == [] then 0.0 else cs[0].area + TotalArea(cs[1..])
  }

  lemma {:induction false} AbsSumCons(x: real, xs: seq<real>)
    ensures AbsSum([x] + xs) == Abs(x) + AbsSum(xs)
    decreases |xs|
  {
    if xs != [] {
      var ys := [x] + xs;
      assert ys[..|ys| - 1] == [x] + xs[..|xs| - 1];
      AbsSumCons(x, xs[..|xs| - 1]);
    }
  }

  /** Over a red stretch [i, e), the red mass is the stretch's |hist| sum. */
  lemma {:induction false} RedStretch(h: seq<real>, i: nat, e: nat)
    requires i <= e <= |h|
    requires forall k :: i <= k < e ==> h[k] < 0.0
    ensures RedArea(h[i..]) == AbsSum(h[i..e]) + RedArea(h[e..])
    decreases e - i
  {
    if i < e {
      RedStretch(h, i + 1, e);
      assert h[i..][1..] == h[i + 1..];
      assert h[i..e] == [h[i]] + h[i + 1..e];
      AbsSumCons(h[i], h[i + 1..e]);
    }
  }

  /** The sum of the |hist| sums of the runs `rs`. */
  function RunAreas(h: seq<real>, rs: seq<Run>): real
    requires forall r :: r in rs ==> r.start <= r.end <= |h|
  {
    if rs == [] then 0.0 else AbsSum(h[rs[0].start..rs[0].end]) + RunAreas(h, rs[1..])
  }

  lemma {:induction false} TotalAreaOfSummaries(s: seq<Sample>, rs: seq<Run>)
    requires forall r :: r in rs ==> r.start <= r.end <= |s|
    ensures TotalArea(Summaries(s, rs)) == RunAreas(Hist(s), rs)
    decreases |rs|
  {
    if rs != [] {
      var cs := Summaries(s, rs);
      assert cs[1..] == Summaries(s, rs[1..]);
      assert cs[0].area == AbsSum(Hist(s)[rs[0].start..rs[0].end]);
      TotalAreaOfSummaries(s, rs[1..]);
    }
  }

  /** A bar that is not red adds no red mass. */
  lemma SkipStep(h: seq<real>, i: nat)
    requires i < |h| && h[i] >= 0.0
    ensures RedArea(h[i..]) == RedArea(h[i + 1..])
  {
    assert h[i..][1..] == h[i + 1..];
  }

  /** The run a red bar starts contributes the first term of the run areas. */
  lemma RedStep(h: seq<real>, i: nat)
    requires i < |h| && h[i] < 0.0
    ensures var e := RunEnd(h, i);
      RunAreas(h, RunsFrom(h, i)) == AbsSum(h[i..e]) + RunAreas(h, RunsFrom(h, e))
  {
    RunsFromRed(h, i);
    assert RunsFrom(h, i)[1..] == RunsFrom(h, RunEnd(h, i));
  }

  /** The runs from `i` on carry all the red mass of h[i..]. */
  lemma {:induction false} RunsFromArea(h: seq<real>, i: nat)
    requires i <= |h|
    ensures RunAreas(h, RunsFrom(h, i)) == RedArea(h[i..])
    decreases |h| - i
  {
    if i == |h| {
      assert h[i..] == [];
    } else if h[i] >= 0.0 {
      RunsFromSkip(h, i);
      SkipStep(h, i);
      RunsFromArea(h, i + 1);
    } else {
      var e := RunEnd(h, i);
      RedStep(h, i);
      RedStretch(h, i, e);
      RunsFromArea(h, e);
    }
  }

  /** No bar contributes to two clusters and every red bar contributes to one:
      the cluster areas add up to the window's whole red histogram mass. */
  lemma AreaConserved(s: seq<Sample>)
    ensures TotalArea(Clusters(s)) == RedArea(Hist(s))
  {
    TotalAreaOfSummaries(s, Runs(Hist(s)));
    RunsFromArea(Hist(s), 0);
    assert Hist(s)[0..] == Hist(s);
  }
}
