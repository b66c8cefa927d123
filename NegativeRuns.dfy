/** Maximal runs of strictly negative values in a histogram window.

    A bar is "red" when its histogram value is strictly below zero; a value of
    exactly zero is not red and closes a run.  This module gives the reference
    definition of the runs the cluster scan is meant to find, as a left-to-right
    recursion (`RunsFrom`), and proves that it is exactly the set of maximal red
    runs: each run is non-empty, red throughout and cannot be extended on either
    side, the runs are ordered oldest first and pairwise disjoint, every red bar
    lies in one of them, their number is the number of red-run starts, and no
    other sequence of runs has all of these properties. */
module NegativeRuns {

  /** The half-open index interval [start, end) of a window. */
  datatype Run = Run(start: nat, end: nat)

  /** The first index at or after `i` whose value is not negative, or |h|. */
  function RunEnd(h: seq<real>, i: nat): (e: nat)
    requires i <= |h|
    ensures i <= e <= |h|
    ensures forall k :: i <= k < e ==> h[k] < 0.0
    ensures e == |h| || h[e] >= 0.0
    decreases |h| - i
  {
    if i == |h| || h[i] >= 0.0 then i else RunEnd(h, i + 1)
  }

  /** `RunEnd` is determined by its contract: a red stretch [i, e) followed by
      a non-red bar or the end of the window ends at `e`. */
  lemma RunEndAt(h: seq<real>, i: nat, e: nat)
    requires i <= e <= |h|
    requires forall k :: i <= k < e ==> h[k] < 0.0
    requires e == |h| || h[e] >= 0.0
    ensures RunEnd(h, i) == e
  {
  }

  /** The red runs of `h` that start at or after `i`, oldest first. */
  function RunsFrom(h: seq<real>, i: nat): (rs: seq<Run>)
    requires i <= |h|
    ensures forall r :: r in rs ==> i <= r.start < r.end <= |h|
    decreases |h| - i
  {
    if i == |h| then []
    else if h[i] >= 0.0 then RunsFrom(h, i + 1)
    else
      var e := RunEnd(h, i);
      [Run(i, e)] + RunsFrom(h, e)
  }

  /** The red runs of the whole window, oldest first. */
  function Runs(h: seq<real>): (rs: seq<Run>)
    ensures forall r :: r in rs ==> r.start < r.end <= |h|
  {
    RunsFrom(h, 0)
  }

  /** `r` is a maximal red run of `h`: non-empty, red throughout, and the bars
      just outside it (where they exist) are not red. */
  predicate IsMaximalRun(h: seq<real>, r: Run)
  {
    && r.start < r.end <= |h|
    && (forall k :: r.start <= k < r.end ==> h[k] < 0.0)
    && (r.start == 0 || h[r.start - 1] >= 0.0)
    && (r.end == |h| || h[r.end] >= 0.0)
  }

  /** Every run of `rs` ends strictly before any later run starts. */
  predicate Ordered(rs: seq<Run>)
  {
    forall j, j' :: 0 <= j < j' < |rs| ==> rs[j].end < rs[j'].start
  }

  /** Index `k` lies inside one of the runs of `rs`. */
  predicate Covers(rs: seq<Run>, k: int)
  {
    exists j :: 0 <= j < |rs| && rs[j].start <= k < rs[j].end
  }

  /** `rs` is the sequence of all maximal red runs of `h`, oldest first. */
  predicate MaximalRuns(h: seq<real>, rs: seq<Run>)
  {
    && (forall j :: 0 <= j < |rs| ==> IsMaximalRun(h, rs[j]))
    && Ordered(rs)
    && (forall k :: 0 <= k < |h| && h[k] < 0.0 ==> Covers(rs, k))
  }

  /** Position `i` is not strictly inside a red run. */
  predicate AtBoundary(h: seq<real>, i: nat)
    requires i <= |h|
  {
    i == 0 || i == |h| || h[i - 1] >= 0.0 || h[i] >= 0.0
  }

  /** Bar `k` is the first bar of a red run. */
  predicate IsRunStart(h: seq<real>, k: nat)
    requires k < |h|
  {
    h[k] < 0.0 && (k == 0 || h[k - 1] >= 0.0)
  }

  /** The number of red-run starts at or after index `i`. */
  function CountStarts(h: seq<real>, i: nat): nat
    requires i <= |h|
    decreases |h| - i
  {
    if i == |h| then 0
    else (if IsRunStart(h, i) then 1 else 0) + CountStarts(h, i + 1)
  }

  /** A run found from position `e` starts strictly after `e` when `e` is the
      end of a red stretch. */
  lemma RunsFromStartAfter(h: seq<real>, e: nat)
    requires e < |h| && h[e] >= 0.0
    ensures forall r :: r in RunsFrom(h, e) ==> e < r.start
  {
    assert RunsFrom(h, e) == RunsFrom(h, e + 1);
  }

  /** Every run found from a boundary position is a maximal red run. */
  lemma {:induction false} RunsFromEachMaximal(h: seq<real>, i: nat)
    requires i <= |h| && AtBoundary(h, i)
    ensures forall r :: r in RunsFrom(h, i) ==> IsMaximalRun(h, r)
    decreases |h| - i
  {
    if i == |h| {
    } else if h[i] >= 0.0 {
      RunsFromEachMaximal(h, i + 1);
    } else {
      var e := RunEnd(h, i);
      assert RunsFrom(h, i) == [Run(i, e)] + RunsFrom(h, e);
      RunsFromEachMaximal(h, e);
    }
  }

  /** The runs found from any position are ordered oldest first. */
  lemma {:induction false} RunsFromOrdered(h: seq<real>, i: nat)
    requires i <= |h|
    ensures Ordered(RunsFrom(h, i))
    decreases |h| - i
  {
    if i == |h| {
    } else if h[i] >= 0.0 {
      RunsFromOrdered(h, i + 1);
    } else {
      var e := RunEnd(h, i);
      RunsFromOrdered(h, e);
      if e < |h| {
        RunsFromStartAfter(h, e);
      }
      OrderedCons(Run(i, e), RunsFrom(h, e));
    }
  }

  /** A run placed before an ordered sequence whose runs all start after it
      ends gives an ordered sequence. */
  lemma OrderedCons(r: Run, rest: seq<Run>)
    requires Ordered(rest)
    requires forall x :: x in rest ==> r.end < x.start
    ensures Ordered([r] + rest)
  {
    var rs := [r] + rest;
    forall j, j' | 0 <= j < j' < |rs|
      ensures rs[j].end < rs[j'].start
    {
      assert rs[j'] == rest[j' - 1];
      if j > 0 {
        assert rs[j] == rest[j - 1];
      }
    }
  }

  /** Every red bar at or after a boundary position lies in a run found from it. */
  lemma {:induction false} RunsFromCover(h: seq<real>, i: nat)
    requires i <= |h| && AtBoundary(h, i)
    ensures forall k :: i <= k < |h| && h[k] < 0.0 ==> Covers(RunsFrom(h, i), k)
    decreases |h| - i
  {
    if i == |h| {
    } else if h[i] >= 0.0 {
      RunsFromCover(h, i + 1);
    } else {
      var e := RunEnd(h, i);
      var rest := RunsFrom(h, e);
      var rs := RunsFrom(h, i);
      assert rs == [Run(i, e)] + rest;
      RunsFromCover(h, e);
      forall k | i <= k < |h| && h[k] < 0.0
        ensures Covers(rs, k)
      {
        if k < e {
          assert rs[0].start <= k < rs[0].end;
        } else {
          var j :| 0 <= j < |rest| && rest[j].start <= k < rest[j].end;
          assert rs[j + 1] == rest[j];
        }
      }
    }
  }

  /** The runs of a window are exactly its maximal red runs, oldest first. */
  lemma RunsAreMaximal(h: seq<real>)
    ensures MaximalRuns(h, Runs(h))
  {
    RunsFromEachMaximal(h, 0);
    RunsFromOrdered(h, 0);
    RunsFromCover(h, 0);
    forall j | 0 <= j < |Runs(h)|
      ensures IsMaximalRun(h, Runs(h)[j])
    {
      assert Runs(h)[j] in Runs(h);
    }
  }

  /** The last run: it reaches the end of the window exactly when the last bar
      is red (and then it exists), otherwise a non-red bar follows it; no red
      bar comes after it. */
  lemma LastRun(h: seq<real>)
    requires |h| > 0
    ensures h[|h| - 1] < 0.0 ==> |Runs(h)| > 0
    ensures |Runs(h)| > 0 ==>
      var r := Runs(h)[|Runs(h)| - 1];
      && h[r.end - 1] < 0.0
      && (r.end == |h| <==> h[|h| - 1] < 0.0)
      && (r.end < |h| ==> h[r.end] >= 0.0)
      && (forall k :: r.end <= k < |h| ==> h[k] >= 0.0)
  {
    var rs := Runs(h);
    RunsAreMaximal(h);
    if |rs| > 0 {
      var r := rs[|rs| - 1];
      assert IsMaximalRun(h, r);
      assert forall m :: 0 <= m < |rs| - 1 ==> rs[m].end < r.start;
    }
  }

  /** No run starts strictly inside a red stretch. */
  lemma {:induction false} NoStartsInsideRun(h: seq<real>, a: nat, b: nat)
    requires 0 < a <= b <= |h|
    requires forall k :: a - 1 <= k < b ==> h[k] < 0.0
    ensures CountStarts(h, a) == CountStarts(h, b)
    decreases b - a
  {
    if a < b {
      NoStartsInsideRun(h, a + 1, b);
    }
  }

  /** From a boundary position, there are exactly as many runs as run starts. */
  lemma {:induction false} RunsFromCount(h: seq<real>, i: nat)
    requires i <= |h| && AtBoundary(h, i)
    ensures |RunsFrom(h, i)| == CountStarts(h, i)
    decreases |h| - i
  {
    if i == |h| {
    } else if h[i] >= 0.0 {
      RunsFromSkip(h, i);
      RunsFromCount(h, i + 1);
      assert CountStarts(h, i) == CountStarts(h, i + 1);
    } else {
      var e := RunEnd(h, i);
      RunsFromRed(h, i);
      RunsFromCount(h, e);
      NoStartsInsideRun(h, i + 1, e);
      assert IsRunStart(h, i);
      assert CountStarts(h, i) == 1 + CountStarts(h, i + 1);
    }
  }

  /** The number of runs equals the number of bars that start a red run. */
  lemma RunCount(h: seq<real>)
    ensures |Runs(h)| == CountStarts(h, 0)
  {
    RunsFromCount(h, 0);
  }

  /** The first of a sequence of maximal runs that covers a red bar `i` at a
      boundary, with no run starting before `i`, is the run `RunsFrom` finds. */
  lemma FirstRunDetermined(h: seq<real>, i: nat, rs: seq<Run>)
    requires i < |h| && h[i] < 0.0 && (i == 0 || h[i - 1] >= 0.0)
    requires forall j :: 0 <= j < |rs| ==> IsMaximalRun(h, rs[j]) && i <= rs[j].start
    requires Ordered(rs)
    requires Covers(rs, i)
    ensures |rs| > 0 && rs[0] == Run(i, RunEnd(h, i))
  {
    var j :| 0 <= j < |rs| && rs[j].start <= i < rs[j].end;
    var r := rs[0];
    assert IsMaximalRun(h, r);
    assert forall j' :: 0 < j' < |rs| ==> r.end < rs[j'].start;
    assert j == 0;
    var e := RunEnd(h, i);
    assert forall k :: i <= k < e ==> h[k] < 0.0;
  }

  /** Dropping the first run keeps the hypotheses of `RunsFromUnique` for the
      position where that run ends. */
  lemma RestOfRuns(h: seq<real>, e: nat, rs: seq<Run>)
    requires 0 < |rs| && rs[0].end == e <= |h|
    requires forall j :: 0 <= j < |rs| ==> IsMaximalRun(h, rs[j])
    requires Ordered(rs)
    requires forall k :: e <= k < |h| && h[k] < 0.0 ==> Covers(rs, k)
    requires e == |h| || h[e] >= 0.0
    ensures TilesFrom(h, e, rs[1..])
  {
    var rest := rs[1..];
    forall j | 0 <= j < |rest|
      ensures IsMaximalRun(h, rest[j]) && e <= rest[j].start
    {
      assert rest[j] == rs[j + 1];
      assert rs[0].end < rs[j + 1].start;
    }
    forall j, j' | 0 <= j < j' < |rest|
      ensures rest[j].end < rest[j'].start
    {
      assert rest[j] == rs[j + 1] && rest[j'] == rs[j' + 1];
    }
    forall k | e <= k < |h| && h[k] < 0.0
      ensures Covers(rest, k)
    {
      var m :| 0 <= m < |rs| && rs[m].start <= k < rs[m].end;
      assert m != 0;
      assert rest[m - 1] == rs[m];
    }
  }

  /** The hypotheses of `RunsFromUnique`: `rs` is an ordered sequence of
      maximal red runs, none starting before the boundary position `i`, that
      covers every red bar from `i` on. */
  ghost predicate TilesFrom(h: seq<real>, i: nat, rs: seq<Run>)
  {
    && i <= |h| && AtBoundary(h, i)
    && (forall j :: 0 <= j < |rs| ==> IsMaximalRun(h, rs[j]) && i <= rs[j].start)
    && Ordered(rs)
    && (forall k :: i <= k < |h| && h[k] < 0.0 ==> Covers(rs, k))
  }

  /** Any sequence of runs that tiles the red bars from `i` on is
      `RunsFrom(h, i)`. */
  lemma {:induction false} RunsFromUnique(h: seq<real>, i: nat, rs: seq<Run>)
    requires TilesFrom(h, i, rs)
    ensures rs == RunsFrom(h, i)
    decreases |h| - i, 1
  {
    if i == |h| {
      assert |rs| > 0 ==> IsMaximalRun(h, rs[0]);
    } else if h[i] >= 0.0 {
      UniqueSkip(h, i, rs);
    } else {
      UniqueRed(h, i, rs);
    }
  }

  lemma {:induction false} UniqueSkip(h: seq<real>, i: nat, rs: seq<Run>)
    requires TilesFrom(h, i, rs) && i < |h| && h[i] >= 0.0
    ensures rs == RunsFrom(h, i)
    decreases |h| - i, 0
  {
    SkipNonRed(h, i, rs);
    RunsFromUnique(h, i + 1, rs);
    RunsFromSkip(h, i);
  }

  lemma {:induction false} UniqueRed(h: seq<real>, i: nat, rs: seq<Run>)
    requires TilesFrom(h, i, rs) && i < |h| && h[i] < 0.0
    ensures rs == RunsFrom(h, i)
    decreases |h| - i, 0
  {
    var e := RunEnd(h, i);
    DropFirstRun(h, i, rs);
    RunsFromUnique(h, e, rs[1..]);
    RunsFromRed(h, i);
    assert rs == [rs[0]] + rs[1..];
  }

  /** A tiling from a red boundary bar `i` starts with the run `RunsFrom`
      finds there, and the rest of it tiles from where that run ends. */
  lemma DropFirstRun(h: seq<real>, i: nat, rs: seq<Run>)
    requires TilesFrom(h, i, rs) && i < |h| && h[i] < 0.0
    ensures |rs| > 0 && rs[0] == Run(i, RunEnd(h, i))
    ensures TilesFrom(h, RunEnd(h, i), rs[1..])
  {
    FirstRunDetermined(h, i, rs);
    RestOfRuns(h, RunEnd(h, i), rs);
  }

  /** `RunsFrom` passes over a bar that is not red. */
  lemma RunsFromSkip(h: seq<real>, i: nat)
    requires i < |h| && h[i] >= 0.0
    ensures RunsFrom(h, i) == RunsFrom(h, i + 1)
  {
  }

  /** `RunsFrom` at a red bar emits the run to `RunEnd` and continues there. */
  lemma RunsFromRed(h: seq<real>, i: nat)
    requires i < |h| && h[i] < 0.0
    ensures RunsFrom(h, i) == [Run(i, RunEnd(h, i))] + RunsFrom(h, RunEnd(h, i))
  {
  }

  /** No maximal run starts on a bar that is not red. */
  lemma SkipNonRed(h: seq<real>, i: nat, rs: seq<Run>)
    requires i < |h| && h[i] >= 0.0
    requires forall j :: 0 <= j < |rs| ==> IsMaximalRun(h, rs[j]) && i <= rs[j].start
    ensures forall j :: 0 <= j < |rs| ==> i + 1 <= rs[j].start
  {
    forall j | 0 <= j < |rs|
      ensures i + 1 <= rs[j].start
    {
      assert IsMaximalRun(h, rs[j]);
    }
  }

  /** `Runs` is characterised by maximality: a sequence of runs is the sequence
      of maximal red runs exactly when it equals `Runs(h)`. */
  lemma RunsCharacterised(h: seq<real>, rs: seq<Run>)
    ensures MaximalRuns(h, rs) <==> rs == Runs(h)
  {
    RunsAreMaximal(h);
    if MaximalRuns(h, rs) {
      RunsFromUnique(h, 0, rs);
    }
  }
}
