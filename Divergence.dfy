/** The divergence classifier of `analyze_strict_divergence` and the function
    as a whole: the length guard, the choice of the last WINDOW bars, the
    cluster scan, and the comparison of the last two clusters under the price
    tolerance, area-halving and rising-DIF-trough tests. */
module Divergence {
  import opened NegativeRuns
  import opened ClusterExtraction

  /** Fewer bars than this give no result. */
  const MIN_BARS: nat := 100
  /** Only the last WINDOW bars are scanned for clusters. */
  const WINDOW: nat := 150
  /** The current price trough may be at most 8% above the previous one. */
  const PRICE_TOLERANCE: real := 1.08
  /** The current cluster's area must be below half of the previous one's. */
  const AREA_SHRINK: real := 0.5

  datatype Option<T> = None | Some(value: T)

  /** The result record: the last close, the current cluster's area as a
      percentage of the previous one's, and the current DIF trough. */
  datatype Signal = Signal(price: real, areaRatio: real, difVal: real)

  /** The last min(WINDOW, |bars|) bars, as a pandas `tail(WINDOW)` gives. */
  function Window(bars: seq<Sample>): (w: seq<Sample>)
    ensures |w| == if |bars| < WINDOW then |bars| else WINDOW
    ensures w == bars[|bars| - |w|..]
  {
    if |bars| <= WINDOW then bars else bars[|bars| - WINDOW..]
  }

  predicate PriceCheck(prev: Cluster, curr: Cluster)
  {
    curr.minPrice <= prev.minPrice * PRICE_TOLERANCE
  }

  predicate AreaDivergence(prev: Cluster, curr: Cluster)
  {
    curr.area < prev.area * AREA_SHRINK
  }

  predicate DifDivergence(prev: Cluster, curr: Cluster)
  {
    curr.minDif > prev.minDif
  }

  /** All three tests of the strict two-cluster rule. */
  predicate Divergent(prev: Cluster, curr: Cluster)
  {
    PriceCheck(prev, curr) && AreaDivergence(prev, curr) && DifDivergence(prev, curr)
  }

  /** What the extractor guarantees of every cluster it emits. */
  predicate PositiveAreas(cs: seq<Cluster>)
  {
    forall j :: 0 <= j < |cs| ==> cs[j].area > 0.0
  }

  /** For a positive previous area, the area test is exactly "the area ratio,
      in percent, is below 50", and the ratio of two positive areas is
      positive. */
  lemma AreaRatioCriterion(prev: Cluster, curr: Cluster)
    requires prev.area > 0.0
    ensures AreaDivergence(prev, curr) <==> curr.area / prev.area * 100.0 < 50.0
    ensures curr.area > 0.0 ==> curr.area / prev.area * 100.0 > 0.0
  {
    var q := curr.area / prev.area;
    assert q * prev.area == curr.area;
    var d := q - 0.5;
    assert d * prev.area == curr.area - 0.5 * prev.area;
    assert d < 0.0 <==> d * prev.area < 0.0;
    assert q > 0.0 <==> q * prev.area > 0.0;
  }

  /** With a zero previous area the area test fails for any current area that
      is not negative, so the ratio is never formed from a zero divisor. */
  lemma ZeroPreviousAreaNotDivergent(prev: Cluster, curr: Cluster)
    requires prev.area == 0.0 && curr.area >= 0.0
    ensures !Divergent(prev, curr)
  {
  }

  /** The strict two-cluster rule on the cluster sequence, oldest first. */
  function Classify(clusters: seq<Cluster>, lastClose: real): (r: Option<Signal>)
    requires PositiveAreas(clusters)
    ensures |clusters| < 2 ==> r == None
    ensures r.Some? ==>
      var prev, curr := clusters[|clusters| - 2], clusters[|clusters| - 1];
      && r.value.price == lastClose
      && 0.0 < r.value.areaRatio < 50.0
      && r.value.areaRatio * prev.area == curr.area * 100.0
      && r.value.difVal == curr.minDif > prev.minDif
      && curr.minPrice <= prev.minPrice * PRICE_TOLERANCE
  {
    if |clusters| < 2 then None
    else
      var prev, curr := clusters[|clusters| - 2], clusters[|clusters| - 1];
      if Divergent(prev, curr) then
        AreaRatioCriterion(prev, curr);
        Some(Signal(lastClose, curr.area / prev.area * 100.0, curr.minDif))
      else None
  }

  /** A result is returned exactly when there are at least two clusters and
      the last two pass all three tests. */
  lemma ClassifySignalsIff(clusters: seq<Cluster>, lastClose: real)
    requires PositiveAreas(clusters)
    ensures Classify(clusters, lastClose).Some? <==>
      |clusters| >= 2 && Divergent(clusters[|clusters| - 2], clusters[|clusters| - 1])
  {
  }

  /** Only the last two clusters influence the decision. */
  lemma ClassifyLastTwo(cs: seq<Cluster>, cs': seq<Cluster>, lastClose: real)
    requires PositiveAreas(cs) && PositiveAreas(cs')
    requires |cs| >= 2 && |cs'| >= 2
    requires cs[|cs| - 2..] == cs'[|cs'| - 2..]
    ensures Classify(cs, lastClose) == Classify(cs', lastClose)
  {
    assert cs[|cs| - 2] == cs[|cs| - 2..][0] && cs[|cs| - 1] == cs[|cs| - 2..][1];
    assert cs'[|cs'| - 2] == cs'[|cs'| - 2..][0] && cs'[|cs'| - 1] == cs'[|cs'| - 2..][1];
  }

  /** `analyze_strict_divergence` on a frame that may be missing (`None`).  A
      result holds the last close, an area ratio strictly between 0 and 50
      percent, and the DIF trough of the window's last cluster, which is above
      the trough of the cluster before it.  (That trough is the minimum of the
      sentinel and the DIF values over the last red run:
      `ClusterSummarisesRun`.) */
  function Analyze(df: Option<seq<Sample>>): (r: Option<Signal>)
    ensures df.None? || |df.value| < MIN_BARS ==> r == None
    ensures r.Some? ==>
      var bars := df.value;
      var cs := Clusters(Window(bars));
      && |cs| >= 2
      && r.value.price == bars[|bars| - 1].close
      && 0.0 < r.value.areaRatio < 50.0
      && r.value.difVal == cs[|cs| - 1].minDif > cs[|cs| - 2].minDif
  {
    if df.None? || |df.value| < MIN_BARS then None
    else
      var bars := df.value;
      var w := Window(bars);
      ClustersAreaPositive(w);
      Classify(Clusters(w), bars[|bars| - 1].close)
  }

  /** The source's procedure: guard, window, scan, classify. */
  method AnalyzeStrictDivergence(df: Option<seq<Sample>>) returns (r: Option<Signal>)
    ensures r == Analyze(df)
  {
    if df.None? || |df.value| < MIN_BARS {
      return None;
    }
    var bars := df.value;
    var w := Window(bars);
    var clusters := ExtractClusters(w);
    ClustersAreaPositive(w);
    r := Classify(clusters, bars[|bars| - 1].close);
  }

  /** A result is returned exactly when there are at least MIN_BARS bars, the
      window holds at least two clusters, and the last two pass all tests. */
  lemma AnalyzeSignalsIff(bars: seq<Sample>)
    ensures var cs := Clusters(Window(bars));
      Analyze(Some(bars)).Some? <==>
        |bars| >= MIN_BARS && |cs| >= 2 && Divergent(cs[|cs| - 2], cs[|cs| - 1])
  {
    ClustersAreaPositive(Window(bars));
  }

  /** Only the last min(WINDOW, |bars|) samples reach the scan: replacing a
      sample (its low, close, DIF or histogram value) before them leaves the
      result unchanged.  This is the tail selection alone; the DIF and
      histogram values are inputs here, whereas in the program an earlier
      close still enters the moving averages they are computed from. */
  lemma EarlierBarsIrrelevant(bars: seq<Sample>, k: nat, b: Sample)
    requires k + WINDOW < |bars|
    ensures Analyze(Some(bars[k := b])) == Analyze(Some(bars))
  {
    assert Window(bars[k := b]) == Window(bars);
  }
}
