# Strict MACD divergence detector — a Dafny model

This project models `analyze_strict_divergence` from `monitor.py`. The function is the core of a weekly-chart screener for the 150 OKX `/USDT` pairs with the highest quote volume (monitor.py:27-29). It takes a frame of weekly bars (the bar lows and closes, plus the MACD histogram and DIF line derived from the closes). It rejects frames with fewer than 100 bars and looks at the last 150 bars. In one left-to-right scan it groups consecutive bars whose histogram is strictly negative ("red" bars) into *clusters*. Each cluster records three things:

- its area, the sum of |hist| over its bars;
- its DIF trough;
- its price trough.

Each trough is a running minimum started from the sentinel 999999. A run still open at the end of the window is emitted as a cluster too. With at least two clusters, the last cluster (`curr`) is compared with the one before it (`prev`). A result is returned when all three of these hold:

- `curr`'s price trough is at most 1.08 times `prev`'s;
- `curr`'s area is below half of `prev`'s;
- `curr`'s DIF trough is above `prev`'s.

The result holds the last close, the area ratio in percent and `curr`'s DIF trough.

The model has three parts:

- **`NegativeRuns`** defines the red runs of a histogram (`RunsFrom`, `Runs`) as a reference recursion. It proves that this recursion yields exactly the maximal red runs, and that no other sequence of runs is maximal, ordered and covering.
- **`ClusterExtraction`** has the following:
  - The bar record `Sample`, with fields `low`, `close`, `dif` and `hist`. The frame's aligned columns become one sequence of records.
  - The cluster record `Cluster`.
  - The specification `Clusters`: one summary per maximal red run.
  - The scan `ExtractClusters`. It is an imperative loop with the source's `in_red` flag and its three accumulators, proved to return exactly `Clusters`.
  - Lemmas on what a cluster holds: positive area, the troughs as minima over the run, which run comes last, how many clusters there are, and that the areas add up to the window's red mass.
- **`Divergence`** has the constants, the tail window, the three tests, the classifier `Classify`, and the function as a whole. The whole function appears as a pure `Analyze` and as the procedure `AnalyzeStrictDivergence`, which is proved equal to `Analyze`.

`Examples` works a few concrete windows through the definitions.

Arithmetic is over exact reals.

## Model

| member | source | states |
|---|---|---|
| NegativeRuns.RunEnd | monitor.py:74-79 | a run that starts at `i` extends exactly over the red bars that follow, up to the first bar that is not red or the window's end |
| NegativeRuns.RunEndAt | monitor.py:74-87 | a red stretch followed by a bar that is not red, or by the end of the window, is exactly where the run ends |
| NegativeRuns.RunsFromEachMaximal | monitor.py:69-90 | every run found from a boundary position is non-empty, red throughout and maximal on both sides |
| NegativeRuns.RunsFromOrdered | monitor.py:69-90 | the runs found are in window order and pairwise disjoint |
| NegativeRuns.RunsFromCover | monitor.py:69-90 | every red bar at or after the start position lies in one of the runs found |
| NegativeRuns.RunsAreMaximal | monitor.py:69-90 | the runs of a window are exactly its maximal red runs: each maximal, ordered, and together covering every red bar |
| NegativeRuns.RunsCharacterised | monitor.py:69-90 | a sequence of runs is maximal, ordered and covering if and only if it equals `Runs(h)`, so the grouping is unique |
| NegativeRuns.RunsFromUnique | monitor.py:69-90 | any ordered sequence of maximal runs that tiles the red bars from a boundary position on equals `RunsFrom` there |
| NegativeRuns.LastRun | monitor.py:80-90 | if the window ends red, then there is a last run and it reaches the end; if the last run ends earlier, a bar that is not red follows it and no red bar comes after it |
| NegativeRuns.RunsFromCount | monitor.py:74-87 | from a boundary, the number of runs equals the number of bars that start a red run |
| NegativeRuns.RunCount | monitor.py:74-90 | the number of runs in a window equals the number of red-run starts |
| ClusterExtraction.AbsSum | monitor.py:76 | the accumulated area is never negative |
| ClusterExtraction.AbsSumPositive | monitor.py:74-76 | the area of a non-empty stretch of red bars is strictly positive |
| ClusterExtraction.TroughOf | monitor.py:59-78 | a trough never exceeds the sentinel 999999 |
| ClusterExtraction.TroughOfIsMin | monitor.py:59-78 | a trough is at most every value of the run, and is either the sentinel or one of those values, so it is min(999999, min of the run) |
| ClusterExtraction.SentinelCapsAll | monitor.py:59-78 | when every value of a run exceeds 999999, its trough is exactly 999999 |
| ClusterExtraction.ExtractClusters | monitor.py:58-90 | the scan returns exactly one summary per maximal red run, in order, including a run still open at the end |
| ClusterExtraction.ClustersAreaPositive | monitor.py:74-90 | every emitted cluster has a strictly positive area, so the classifier's ratio is defined |
| ClusterExtraction.ClusterSummarisesRun | monitor.py:74-86 | cluster `j` belongs to the `j`-th maximal red run. Its area is the run's sum of abs(hist). Its DIF trough and price trough are each at most 999999 and at most every value of the run, and each is either 999999 or one of those values. |
| ClusterExtraction.ClusterCount | monitor.py:74-90 | there is one cluster per bar that starts a red run |
| ClusterExtraction.LastCluster | monitor.py:80-90 | if the window's last bar is red, then a cluster exists and the last one reaches the window's end; if the last cluster ends earlier, it ends at a bar that is not red and no red bar follows it |
| ClusterExtraction.RunsFromArea | monitor.py:74-87 | the runs from a position on carry all of the red histogram mass there |
| ClusterExtraction.AreaConserved | monitor.py:74-90 | the cluster areas sum to the total of abs(hist) over all red bars of the window, so no bar is counted twice or missed |
| Divergence.Window | monitor.py:65-67 | the window is the last min(150, n) bars of the frame |
| Divergence.AreaRatioCriterion | monitor.py:101-111 | for a positive previous area, the area test holds exactly when the percentage ratio is below 50; when both areas are positive, the ratio is positive |
| Divergence.Classify | monitor.py:93-113 | fewer than two clusters give no result. A result carries the last close, a ratio strictly between 0 and 50 with ratio times the previous area equal to 100 times the current area, and the current DIF trough, which is above the previous one. The price check holds. |
| Divergence.ClassifySignalsIff | monitor.py:93-108 | a result is returned if and only if there are at least two clusters and the last two pass all three tests |
| Divergence.ZeroPreviousAreaNotDivergent | monitor.py:101-108 | with a zero previous area and a current area that is not negative, the area test fails, so the division at line 111 is never reached |
| Divergence.ClassifyLastTwo | monitor.py:95 | only the last two clusters influence the decision |
| Divergence.Analyze | monitor.py:34-114 | a missing frame or one with fewer than 100 bars gives no result. A result carries the frame's last close, a ratio strictly between 0 and 50, and the last window cluster's DIF trough, which is above the trough of the cluster before it. |
| Divergence.AnalyzeStrictDivergence | monitor.py:42-114 | the guard, the window, the scan and the classification compute exactly `Analyze` |
| Divergence.AnalyzeSignalsIff | monitor.py:42-108 | a result is returned if and only if the frame has at least 100 bars, the window has at least two clusters, and the last two pass all three tests |
| Divergence.EarlierBarsIrrelevant | monitor.py:65-67 | replacing a sample (its low, close, DIF or histogram value) before the last 150 does not change the result; with DIF and histogram taken as inputs this is the tail selection |
| Examples.ExampleRuns | monitor.py:74-90 | the histogram [-2, -3, 1, 1, -1, -0.5, 2] has the red runs [0, 2) and [4, 6) |
| Examples.TwoBarCluster | monitor.py:74-78 | a two-bar red run sums the two abs(hist) values and takes both troughs starting from the sentinel |
| Examples.TwoRunsExample | monitor.py:58-90 | a seven-bar window yields the clusters (5, -0.6, 9) and (1.5, -0.3, 9.5) |
| Examples.SignalExample | monitor.py:93-113 | areas 10 then 4, DIF troughs -1 then -0.5 and price troughs 100 then 105 give a signal with ratio 40 |
| Examples.NoSignalExample | monitor.py:101-108 | a current area of 6 against 10 fails the area test, so there is no result |
| Examples.SentinelCapsTrough | monitor.py:59-78 | a one-bar window whose DIF and low exceed 999999 reports both troughs as exactly 999999 |

## Left out

- The MACD computation (EMA-12, EMA-26, DIF, DEA and the histogram, monitor.py:44-55). The model takes the aligned DIF and histogram values as inputs, one `Sample` per bar, because the exponential moving averages are floating-point series code and the cluster logic does not depend on how they are formed.
- Floating point. All values are exact reals, so rounding, NaN and infinities are not modelled.
- Classify: `area_ratio` is the exact real `curr.area / prev.area * 100`, not the string rounded to one decimal with a `%` sign (monitor.py:111). This is because rounding and formatting are presentation.
- Classify: `dif_val` is the exact DIF trough, not the trough rounded to six places (monitor.py:112), for the same reason.
- Classify: requires that every cluster area is positive. Dafny's `/` needs a non-zero divisor when the cluster sequence is arbitrary, and the bound `0 < areaRatio` needs a positive current area. Every scan result meets the requirement (`ClustersAreaPositive`). The source itself never divides by zero: with a zero previous area the area test already fails (`ZeroPreviousAreaNotDivergent`).
- EarlierBarsIrrelevant: holds because each `Sample` carries its own DIF and histogram value. In the program, DIF and the histogram come from exponential moving averages over the whole close column (monitor.py:51-55), so changing an earlier close can still move them inside the last 150 bars and change the result.
- The unused `symbol` parameter. It does not affect the result.
- `get_okx_symbols`, `send_telegram_msg`, `main`, and the network, exchange and clock use around the core. These are I/O and are outside the analysed function.
- The sentinel 999999 is kept as written. A run whose values all exceed it reports 999999 (`ClusterExtraction.SentinelCapsAll`; `Examples.SentinelCapsTrough` works one such window).
