/** `iterate_time`: the split of one aircraft's rows at large timestamp gaps,
    exactly as the generator does it. It does not sort; the row at each split
    index is yielded in no run (`start = stop + 1`); two gaps in a row give an
    empty run; an empty input gives one empty run. */
module Segmenter {
  import opened Records
  import opened Sequences

  /** The gap threshold, in seconds, at every call site. */
  const EpisodeGap := 20000

  /** Row `i` follows its predecessor by more than `threshold` seconds. Row 0
      has no predecessor: its difference is null and never compares greater. */
  predicate IsSplitAt(rows: seq<Record>, threshold: int, i: int)
  {
    1 <= i < |rows| && rows[i].timestamp - rows[i - 1].timestamp > threshold
  }

  /** The split indices at or after `from`, ascending. */
  function SplitsFrom(rows: seq<Record>, threshold: int, from: nat): (r: seq<nat>)
    requires from <= |rows|
    ensures forall k :: 0 <= k < |r| ==> from <= r[k] < |rows|
    ensures forall k, l :: 0 <= k < l < |r| ==> r[k] < r[l]
    ensures forall i :: i in r <==> from <= i < |rows| && IsSplitAt(rows, threshold, i)
    ensures ValidCuts(r, from, |rows|)
    decreases |rows| - from
  {
    if from == |rows| then []
    else
      var later := SplitsFrom(rows, threshold, from + 1);
      if IsSplitAt(rows, threshold, from) then
        var r := [from] + later;
        assert r[1..] == later;
        r
      else
        later
  }

  /** The index array `np.where(diff > threshold)` builds. */
  function SplitIndices(rows: seq<Record>, threshold: int): seq<nat>
  {
    SplitsFrom(rows, threshold, 0)
  }

  /** `cuts` is strictly ascending, starts at or after `start` and stays below `n`. */
  predicate ValidCuts(cuts: seq<nat>, start: nat, n: nat)
    decreases |cuts|
  {
    if cuts == [] then start <= n
    else start <= cuts[0] < n && ValidCuts(cuts[1..], cuts[0] + 1, n)
  }

  /** The runs the `for stop in idx` loop yields once `start` has reached
      `start`: `iloc[start:stop]` for each remaining cut, then `iloc[start:]`. */
  function RunsFrom(rows: seq<Record>, cuts: seq<nat>, start: nat): (r: seq<seq<Record>>)
    requires ValidCuts(cuts, start, |rows|)
    ensures |r| == |cuts| + 1
    decreases |cuts|
  {
    if cuts == [] then [rows[start..]]
    else [rows[start..cuts[0]]] + RunsFrom(rows, cuts[1..], cuts[0] + 1)
  }

  /** Everything `iterate_time(rows, threshold)` yields, in order: runs of input
      rows inside which no two neighbouring rows are more than `threshold` apart. */
  function Segments(rows: seq<Record>, threshold: int): (segs: seq<seq<Record>>)
    ensures forall run, x :: run in segs && x in run ==> x in rows
    ensures forall run :: run in segs ==> WithinGap(run, threshold)
  {
    var cuts := SplitIndices(rows, threshold);
    var segs := RunsFrom(rows, cuts, 0);
    assert forall run :: run in segs ==> WithinGap(run, threshold) && forall x :: x in run ==> x in rows by {
      forall run: seq<Record> | run in segs
        ensures WithinGap(run, threshold) && forall x :: x in run ==> x in rows
      {
        var k :| 0 <= k < |segs| && segs[k] == run;
        RunsAreSlices(rows, cuts, 0, k);
        RunWithinGap(rows, threshold, cuts, k);
      }
    }
    segs
  }

  /** Only the row before run `k` can sit at a split index, so the run keeps every gap within the threshold. */
  lemma RunWithinGap(rows: seq<Record>, threshold: int, cuts: seq<nat>, k: nat)
    requires cuts == SplitIndices(rows, threshold) && k < |cuts| + 1
    ensures WithinGap(RunsFrom(rows, cuts, 0)[k], threshold)
  {
    RunsAreSlices(rows, cuts, 0, k);
    var run := RunsFrom(rows, cuts, 0)[k];
    var b, e := RunBegin(cuts, 0, k), RunEnd(cuts, |rows|, k);
    forall j | 0 < j < |run|
      ensures run[j].timestamp - run[j - 1].timestamp <= threshold
    {
      var i := b + j;
      assert run[j] == rows[i] && run[j - 1] == rows[i - 1];
      forall m | 0 <= m < |cuts|
        ensures cuts[m] != i
      {
        if m < k {
          assert cuts[m] <= cuts[k - 1];
        } else {
          assert cuts[k] <= cuts[m];
        }
      }
      assert !IsSplitAt(rows, threshold, i);
    }
  }

  /** One turn of the loop: the first remaining cut closes the current run. */
  lemma RunsFromStep(rows: seq<Record>, cuts: seq<nat>, start: nat)
    requires ValidCuts(cuts, start, |rows|) && cuts != []
    ensures ValidCuts(cuts[1..], cuts[0] + 1, |rows|)
    ensures RunsFrom(rows, cuts, start) == [rows[start..cuts[0]]] + RunsFrom(rows, cuts[1..], cuts[0] + 1)
  {
  }

  /** The generator itself: compute the split indices, then slice between them. */
  method IterateTime(rows: seq<Record>, threshold: int) returns (runs: seq<seq<Record>>)
    ensures runs == Segments(rows, threshold)
  {
    var idx := SplitIndices(rows, threshold);
    var start := 0;
    runs := [];
    for k := 0 to |idx|
      invariant ValidCuts(idx[k..], start, |rows|)
      invariant runs + RunsFrom(rows, idx[k..], start) == RunsFrom(rows, idx, 0)
    {
      var stop := idx[k];
      RunsFromStep(rows, idx[k..], start);
      assert idx[k..][1..] == idx[k + 1..];
      ghost var rest := RunsFrom(rows, idx[k + 1..], stop + 1);
      assert runs + ([rows[start..stop]] + rest) == (runs + [rows[start..stop]]) + rest;
      runs := runs + [rows[start..stop]];
      start := stop + 1;
    }
    assert idx[|idx|..] == [];
    runs := runs + [rows[start..]];
  }

  /** Reference definition: the rows of `rows[from..]` not at a split index, in order. */
  function UnsplitFrom(rows: seq<Record>, threshold: int, from: nat): seq<Record>
    requires from <= |rows|
    decreases |rows| - from
  {
    if from == |rows| then []
    else (if IsSplitAt(rows, threshold, from) then [] else [rows[from]]) + UnsplitFrom(rows, threshold, from + 1)
  }

  /** First index of run `k`: 0 for the first run, one past the cut before it otherwise. */
  function RunBegin(cuts: seq<nat>, start: nat, k: nat): nat
    requires k <= |cuts|
  {
    if k == 0 then start else cuts[k - 1] + 1
  }

  /** One past the last index of run `k`: its cut, or the end of the rows for the last run. */
  function RunEnd(cuts: seq<nat>, n: nat, k: nat): nat
    requires k <= |cuts|
  {
    if k < |cuts| then cuts[k] else n
  }

  /** Run `k` is the contiguous slice between the cut before it and its own cut. */
  lemma {:induction false} RunsAreSlices(rows: seq<Record>, cuts: seq<nat>, start: nat, k: nat)
    requires ValidCuts(cuts, start, |rows|)
    requires k <= |cuts|
    ensures RunBegin(cuts, start, k) <= RunEnd(cuts, |rows|, k) <= |rows|
    ensures RunsFrom(rows, cuts, start)[k] == rows[RunBegin(cuts, start, k)..RunEnd(cuts, |rows|, k)]
    decreases |cuts|
  {
    if cuts != [] && k > 0 {
      RunsAreSlices(rows, cuts[1..], cuts[0] + 1, k - 1);
    }
  }

  /** Prepending a row that is not a split to the start of the loop prepends it to the first run. */
  lemma {:induction false} RunsFromPrepend(rows: seq<Record>, cuts: seq<nat>, start: nat)
    requires start < |rows|
    requires ValidCuts(cuts, start + 1, |rows|)
    ensures ValidCuts(cuts, start, |rows|)
    ensures var later := RunsFrom(rows, cuts, start + 1);
      RunsFrom(rows, cuts, start) == [[rows[start]] + later[0]] + later[1..]
  {
    if cuts == [] {
      assert rows[start..] == [rows[start]] + rows[start + 1..];
    } else {
      assert rows[start..cuts[0]] == [rows[start]] + rows[start + 1..cuts[0]];
    }
  }

  /** A cut at the very start of the loop yields an empty run and nothing else changes. */
  lemma ConcatRunsAfterCut(rows: seq<Record>, cuts: seq<nat>, start: nat)
    requires ValidCuts(cuts, start, |rows|) && cuts != [] && cuts[0] == start
    ensures ValidCuts(cuts[1..], start + 1, |rows|)
    ensures Concat(RunsFrom(rows, cuts, start)) == Concat(RunsFrom(rows, cuts[1..], start + 1))
  {
    var tail := RunsFrom(rows, cuts[1..], start + 1);
    assert RunsFrom(rows, cuts, start) == [rows[start..start]] + tail;
    ConcatCons(rows[start..start], tail);
  }

  /** Starting the loop one row earlier, before no cut, adds that row in front. */
  lemma ConcatRunsPrepend(rows: seq<Record>, cuts: seq<nat>, start: nat)
    requires start < |rows| && ValidCuts(cuts, start + 1, |rows|)
    ensures ValidCuts(cuts, start, |rows|)
    ensures Concat(RunsFrom(rows, cuts, start)) == [rows[start]] + Concat(RunsFrom(rows, cuts, start + 1))
  {
    RunsFromPrepend(rows, cuts, start);
    var tail := RunsFrom(rows, cuts, start + 1);
    assert tail == [tail[0]] + tail[1..];
    ConcatCons([rows[start]] + tail[0], tail[1..]);
    ConcatCons(tail[0], tail[1..]);
  }

  /** Inductive step at a split index: the row there is dropped. */
  lemma KeepFromAtSplit(rows: seq<Record>, threshold: int, from: nat)
    requires from < |rows| && IsSplitAt(rows, threshold, from)
    requires Concat(RunsFrom(rows, SplitsFrom(rows, threshold, from + 1), from + 1)) == UnsplitFrom(rows, threshold, from + 1)
    ensures Concat(RunsFrom(rows, SplitsFrom(rows, threshold, from), from)) == UnsplitFrom(rows, threshold, from)
  {
    var cuts := SplitsFrom(rows, threshold, from);
    var later := SplitsFrom(rows, threshold, from + 1);
    assert cuts == [from] + later;
    assert cuts[1..] == later;
    ConcatRunsAfterCut(rows, cuts, from);
    assert UnsplitFrom(rows, threshold, from) == [] + UnsplitFrom(rows, threshold, from + 1);
  }

  /** Inductive step elsewhere: the row joins the front of the first run. */
  lemma KeepFromElsewhere(rows: seq<Record>, threshold: int, from: nat)
    requires from < |rows| && !IsSplitAt(rows, threshold, from)
    requires Concat(RunsFrom(rows, SplitsFrom(rows, threshold, from + 1), from + 1)) == UnsplitFrom(rows, threshold, from + 1)
    ensures Concat(RunsFrom(rows, SplitsFrom(rows, threshold, from), from)) == UnsplitFrom(rows, threshold, from)
  {
    var later := SplitsFrom(rows, threshold, from + 1);
    assert SplitsFrom(rows, threshold, from) == later;
    ConcatRunsPrepend(rows, later, from);
    assert UnsplitFrom(rows, threshold, from) == [rows[from]] + UnsplitFrom(rows, threshold, from + 1);
  }

  lemma {:induction false} SegmentsKeepFrom(rows: seq<Record>, threshold: int, from: nat)
    requires from <= |rows|
    ensures Concat(RunsFrom(rows, SplitsFrom(rows, threshold, from), from)) == UnsplitFrom(rows, threshold, from)
    decreases |rows| - from
  {
    if from == |rows| {
      assert SplitsFrom(rows, threshold, from) == [] && rows[from..] == [];
    } else {
      SegmentsKeepFrom(rows, threshold, from + 1);
      if IsSplitAt(rows, threshold, from) {
        KeepFromAtSplit(rows, threshold, from);
      } else {
        KeepFromElsewhere(rows, threshold, from);
      }
    }
  }

  /** Stepping back one index adds it to the split indices exactly when it is a split. */
  lemma SplitsFromStep(rows: seq<Record>, threshold: int, from: nat)
    requires from < |rows|
    ensures |SplitsFrom(rows, threshold, from)| ==
      |SplitsFrom(rows, threshold, from + 1)| + if IsSplitAt(rows, threshold, from) then 1 else 0
  {
    var later := SplitsFrom(rows, threshold, from + 1);
    if IsSplitAt(rows, threshold, from) {
      assert SplitsFrom(rows, threshold, from) == [from] + later;
    } else {
      assert SplitsFrom(rows, threshold, from) == later;
    }
  }

  lemma UnsplitLengthStep(rows: seq<Record>, threshold: int, from: nat)
    requires from < |rows|
    requires |UnsplitFrom(rows, threshold, from + 1)| + |SplitsFrom(rows, threshold, from + 1)| == |rows| - from - 1
    ensures |UnsplitFrom(rows, threshold, from)| + |SplitsFrom(rows, threshold, from)| == |rows| - from
  {
    SplitsFromStep(rows, threshold, from);
  }

  /** The runs, concatenated, are the input with exactly the rows at split indices removed. */
  lemma SegmentsDropOnlySplitRows(rows: seq<Record>, threshold: int)
    ensures Concat(Segments(rows, threshold)) == UnsplitFrom(rows, threshold, 0)
  {
    SegmentsKeepFrom(rows, threshold, 0);
  }

  lemma {:induction false} UnsplitLength(rows: seq<Record>, threshold: int, from: nat)
    requires from <= |rows|
    ensures |UnsplitFrom(rows, threshold, from)| + |SplitsFrom(rows, threshold, from)| == |rows| - from
    decreases |rows| - from
  {
    if from < |rows| {
      UnsplitLength(rows, threshold, from + 1);
      UnsplitLengthStep(rows, threshold, from);
    }
  }

  /** Total run length is the row count less the number of split indices. */
  lemma SegmentsTotalLength(rows: seq<Record>, threshold: int)
    ensures |Concat(Segments(rows, threshold))| == |rows| - |SplitIndices(rows, threshold)|
  {
    SegmentsDropOnlySplitRows(rows, threshold);
    UnsplitLength(rows, threshold, 0);
  }

  /** The rows at or after `from` whose gap to their predecessor exceeds the threshold. */
  function GapIndicesFrom(rows: seq<Record>, threshold: int, from: nat): set<nat>
  {
    set i: nat | from <= i < |rows| && IsSplitAt(rows, threshold, i)
  }

  /** One run more than there are rows with a gap above the threshold. */
  lemma SegmentsCount(rows: seq<Record>, threshold: int)
    ensures |Segments(rows, threshold)| == |GapIndicesFrom(rows, threshold, 0)| + 1
  {
    var idx := SplitIndices(rows, threshold);
    assert |Segments(rows, threshold)| == |idx| + 1;
    DistinctCount<nat>(idx);
    var elems := set i: nat | i in idx;
    assert |elems| == |idx|;
    assert elems == GapIndicesFrom(rows, threshold, 0);
  }

  /** No two neighbouring rows of one run are more than `threshold` apart. */
  predicate WithinGap(run: seq<Record>, threshold: int)
  {
    forall j :: 0 < j < |run| ==> run[j].timestamp - run[j - 1].timestamp <= threshold
  }

  /** Two split indices in a row leave an empty run between them. */
  lemma {:induction false} AdjacentSplitsGiveEmptyRun(rows: seq<Record>, threshold: int, i: nat)
    requires IsSplitAt(rows, threshold, i) && IsSplitAt(rows, threshold, i + 1)
    ensures exists k :: 0 < k < |Segments(rows, threshold)| && Segments(rows, threshold)[k] == []
  {
    var cuts := SplitIndices(rows, threshold);
    assert i in cuts && i + 1 in cuts;
    var m :| 0 <= m < |cuts| && cuts[m] == i;
    var m' :| 0 <= m' < |cuts| && cuts[m'] == i + 1;
    assert m < m';
    assert cuts[m + 1] <= cuts[m'];
    assert cuts[m + 1] == i + 1;
    RunsAreSlices(rows, cuts, 0, m + 1);
    assert Segments(rows, threshold)[m + 1] == [];
  }

  /** Row 0 never starts a split: a non-empty input's first run starts with its first row. */
  lemma FirstRunStartsAtFirstRow(rows: seq<Record>, threshold: int)
    requires |rows| > 0
    ensures |Segments(rows, threshold)[0]| > 0 && Segments(rows, threshold)[0][0] == rows[0]
  {
    var cuts := SplitIndices(rows, threshold);
    RunsAreSlices(rows, cuts, 0, 0);
    assert 0 !in cuts;
  }

  /** An empty input yields one empty run; a single row yields one run equal to the input. */
  lemma SegmentsOfShortInputs(r: Record, threshold: int)
    ensures Segments([], threshold) == [[]]
    ensures Segments([r], threshold) == [[r]]
  {
    assert !IsSplitAt([r], threshold, 0);
    assert SplitsFrom([r], threshold, 1) == [];
    assert SplitIndices([r], threshold) == [];
    assert [r][0..] == [r];
  }
}
