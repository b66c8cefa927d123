/** Worked cases of the extractor and the classifier on small concrete inputs. */
module Examples {
  import opened NegativeRuns
  import opened ClusterExtraction
  import opened Divergence

  /** A bar with the given histogram value, DIF and low; its close is set to
      its low (the cluster scan never reads the close, and the classifier
      takes the last close as a separate argument). */
  function Bar(hist: real, dif: real, low: real): Sample
  {
    Sample(low, low, dif, hist)
  }

  /** The red runs of the histogram [-2, -3, 1, 1, -1, -0.5, 2] are [0, 2)
      and [4, 6). */
  lemma ExampleRuns()
    ensures Runs([-2.0, -3.0, 1.0, 1.0, -1.0, -0.5, 2.0]) == [Run(0, 2), Run(4, 6)]
  {
    var h := [-2.0, -3.0, 1.0, 1.0, -1.0, -0.5, 2.0];
    RunEndAt(h, 0, 2);
    RunEndAt(h, 4, 6);
    assert RunsFrom(h, 6) == RunsFrom(h, 7) == [];
    assert RunsFrom(h, 2) == RunsFrom(h, 3) == RunsFrom(h, 4) == [Run(4, 6)];
  }

  /** The summary of a run of two red bars starting at `i`. */
  lemma TwoBarCluster(s: seq<Sample>, i: nat)
    requires i + 2 <= |s| && s[i].hist < 0.0 && s[i + 1].hist < 0.0
    ensures ClusterOf(s, Run(i, i + 2)) ==
      Cluster(-s[i].hist - s[i + 1].hist,
              Min(Min(SENTINEL, s[i].dif), s[i + 1].dif),
              Min(Min(SENTINEL, s[i].low), s[i + 1].low))
  {
    assert Hist(s)[i..i + 2] == [s[i].hist, s[i + 1].hist];
    assert Dif(s)[i..i + 2] == [s[i].dif, s[i + 1].dif];
    assert Low(s)[i..i + 2] == [s[i].low, s[i + 1].low];
    forall xs: seq<real> | |xs| == 2
      ensures AbsSum(xs) == Abs(xs[0]) + Abs(xs[1])
      ensures TroughOf(xs) == Min(Min(SENTINEL, xs[0]), xs[1])
    {
      assert xs[..1] == [xs[0]] && xs[..1][..0] == [];
      assert AbsSum(xs[..1]) == Abs(xs[0]);
      assert TroughOf(xs[..1]) == Min(SENTINEL, xs[0]);
    }
  }

  /** The histogram [-2, -3, 1, 1, -1, -0.5, 2] has two red runs, of areas 5
      and 1.5; the DIF and price troughs are the minima over each run. */
  lemma TwoRunsExample()
    ensures var s := [Bar(-2.0, -0.4, 10.0), Bar(-3.0, -0.6, 9.0), Bar(1.0, -0.9, 8.0),
                      Bar(1.0, 0.1, 11.0), Bar(-1.0, -0.3, 9.5), Bar(-0.5, -0.2, 9.8),
                      Bar(2.0, 0.5, 12.0)];
      Clusters(s) == [Cluster(5.0, -0.6, 9.0), Cluster(1.5, -0.3, 9.5)]
  {
    var s := [Bar(-2.0, -0.4, 10.0), Bar(-3.0, -0.6, 9.0), Bar(1.0, -0.9, 8.0),
              Bar(1.0, 0.1, 11.0), Bar(-1.0, -0.3, 9.5), Bar(-0.5, -0.2, 9.8),
              Bar(2.0, 0.5, 12.0)];
    assert Hist(s) == [-2.0, -3.0, 1.0, 1.0, -1.0, -0.5, 2.0];
    ExampleRuns();
    TwoBarCluster(s, 0);
    TwoBarCluster(s, 4);
  }

  /** Areas 10 then 4, DIF troughs -1 then -0.5, price troughs 100 then 105:
      all three tests pass and the ratio is 40 percent. */
  lemma SignalExample(lastClose: real)
    ensures Classify([Cluster(10.0, -1.0, 100.0), Cluster(4.0, -0.5, 105.0)], lastClose)
      == Some(Signal(lastClose, 40.0, -0.5))
  {
  }

  /** The same, but with a current area of 6 (not below half of 10): no result. */
  lemma NoSignalExample(lastClose: real)
    ensures Classify([Cluster(10.0, -1.0, 100.0), Cluster(6.0, -0.5, 105.0)], lastClose) == None
  {
  }

  /** The sentinel caps the troughs: a one-bar window whose DIF and low exceed
      999999 reports both troughs as exactly 999999 (the general fact is
      `SentinelCapsAll`). */
  lemma SentinelCapsTrough()
    ensures Clusters([Bar(-1.0, 2000000.0, 2000000.0)]) == [Cluster(1.0, SENTINEL, SENTINEL)]
  {
    var s := [Bar(-1.0, 2000000.0, 2000000.0)];
    var h := Hist(s);
    assert |h| == 1 && h[0] == -1.0;
    RunEndAt(h, 0, 1);
    assert RunsFrom(h, 1) == [];
    assert Runs(h) == [Run(0, 1)] + RunsFrom(h, 1);
    assert h[0..1] == [-1.0] && Dif(s)[0..1] == [2000000.0] && Low(s)[0..1] == [2000000.0];
  }
}
