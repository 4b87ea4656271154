/**
 * What the log of one run promises, proved about `Trace.Log`: its length,
 * the shape of every step, where each kind of step sits, that the counters
 * never decrease along it, and that its last step carries the totals and
 * the sorted output.
 */
module TraceProperties {
  import opened Steps
  import opened Trace

  // ----- New maxima, independently of the running maximum -----

  /** `a[i]` exceeds every element before it. */
  predicate IsNewMaximum(a: seq<int>, i: nat)
    requires i < |a|
  {
    forall j :: 0 <= j < i ==> a[j] < a[i]
  }

  /** How many of the positions 1 .. i-1 hold a new maximum. */
  function NewMaxima(a: seq<int>, i: nat): nat
    requires 1 <= i <= |a|
  {
    if i == 1 then 0 else NewMaxima(a, i - 1) + if IsNewMaximum(a, i - 1) then 1 else 0
  }

  /** The strict test `arr[i] > max` of the scan holds exactly at the new maxima. */
  lemma AboveRunningMaximum(a: seq<int>, i: nat)
    requires 1 <= i < |a|
    ensures a[i] > PrefixMax(a, i) <==> IsNewMaximum(a, i)
  {
    PrefixMaxIsMaximum(a, i);
  }

  /** The scan logs one step per inspected element and one more per new maximum. */
  lemma {:induction false} ScanLength(a: seq<int>, i: nat)
    requires 1 <= i <= |a|
    ensures |ScanSteps(a, i)| == i - 1 + NewMaxima(a, i)
  {
    if i > 1 {
      ScanLength(a, i - 1);
      AboveRunningMaximum(a, i - 1);
    }
  }

  /**
   * Inspecting `a[i]` logs a non-milestone step for index `i`, followed by
   * a second one exactly when `a[i]` is a new maximum.
   */
  lemma ScanOrder(a: seq<int>, i: nat)
    requires 1 <= i < |a|
    ensures ScanSteps(a, i + 1) == ScanSteps(a, i) +
      [Record(CheckElement(a[i]), i, NoIndex, i, i, a, false)] +
      if IsNewMaximum(a, i) then [Record(NewMaximum(a[i]), i, NoIndex, i, i, a, false)] else []
  {
    AboveRunningMaximum(a, i);
  }

  /** An empty input logs nothing; otherwise the log has 3n + 3 + (number of new maxima) steps. */
  lemma LogLength(a: seq<int>)
    requires Admissible(a)
    ensures |a| == 0 ==> Log(a) == []
    ensures |a| > 0 ==> |Log(a)| == 3 * |a| + 3 + NewMaxima(a, |a|)
  {
    if |a| > 0 {
      ScanLength(a, |a|);
      CountingSortedLength(a);
    }
  }

  // ----- The shape of every step -----

  /** The steps the engine logs as milestones (`isStateChange`). */
  predicate Milestone(d: Description) {
    d.Start? || d.CountTableCreated? || d.CountingDone? || d.PlaceElement? || d.Completed?
  }

  /**
   * A logged step over an input of length `n`: the engine's name, no swaps,
   * a snapshot of length `n`, indices in range with at least one the -1
   * sentinel, and the milestone flag set exactly on the milestones.
   */
  predicate WellFormed(s: CountingSortStep, n: nat) {
    s.algorithm == Algorithm && s.timestamp == 0 && s.swaps == 0 && |s.arrayState| == n &&
    NoIndex <= s.primaryIndex < n && NoIndex <= s.secondaryIndex < n &&
    (s.primaryIndex == NoIndex || s.secondaryIndex == NoIndex) &&
    (s.isStateChange <==> Milestone(s.description))
  }

  lemma {:induction false} ScanWellFormed(a: seq<int>, i: nat)
    requires 1 <= i <= |a|
    ensures forall s :: s in ScanSteps(a, i) ==> WellFormed(s, |a|)
  {
    if i > 1 {
      ScanWellFormed(a, i - 1);
    }
  }

  lemma LogWellFormed(a: seq<int>)
    requires Admissible(a)
    ensures forall s :: s in Log(a) ==> WellFormed(s, |a|)
  {
    if |a| > 0 {
      var n, out := |a|, CountingSorted(a);
      CountingSortedLength(a);
      ScanWellFormed(a, n);
      forall s | s in CountSteps(a, n)
        ensures WellFormed(s, n)
      {
        var i :| 0 <= i < n && s == CountSteps(a, n)[i];
      }
      forall s | s in Placements(out, n)
        ensures WellFormed(s, n)
      {
        var p :| 0 <= p < n && s == Placements(out, n)[p];
        assert |out[..p + 1] + Repeat(0, n - p - 1)| == n;
      }
    }
  }

  // ----- Counters never decrease along the log -----

  predicate CountersLe(s: CountingSortStep, t: CountingSortStep) {
    s.comparisons <= t.comparisons && s.swaps <= t.swaps && s.memoryAccesses <= t.memoryAccesses
  }

  predicate Monotone(steps: seq<CountingSortStep>) {
    forall i, j :: 0 <= i <= j < |steps| ==> CountersLe(steps[i], steps[j])
  }

  /** Every step has no swaps and at most `c` comparisons and `m` accesses. */
  predicate AtMost(steps: seq<CountingSortStep>, c: int, m: int) {
    forall s :: s in steps ==> s.comparisons <= c && s.swaps == 0 && s.memoryAccesses <= m
  }

  /** Every step has no swaps and at least `c` comparisons and `m` accesses. */
  predicate AtLeast(steps: seq<CountingSortStep>, c: int, m: int) {
    forall s :: s in steps ==> c <= s.comparisons && s.swaps == 0 && m <= s.memoryAccesses
  }

  lemma MonotoneJoin(s: seq<CountingSortStep>, t: seq<CountingSortStep>, c: int, m: int)
    requires Monotone(s) && Monotone(t) && AtMost(s, c, m) && AtLeast(t, c, m)
    ensures Monotone(s + t)
  {
    forall i, j | 0 <= i <= j < |s + t|
      ensures CountersLe((s + t)[i], (s + t)[j])
    {
      if j < |s| {
        assert (s + t)[i] == s[i] && (s + t)[j] == s[j];
      } else if i < |s| {
        assert (s + t)[i] == s[i] && (s + t)[j] == t[j - |s|];
        assert s[i] in s && t[j - |s|] in t;
      } else {
        assert (s + t)[i] == t[i - |s|] && (s + t)[j] == t[j - |s|];
      }
    }
  }

  /** Inspecting `a[i]` records its steps with `i` comparisons and `i` accesses. */
  lemma InspectCounters(a: seq<int>, i: nat)
    requires 1 <= i < |a|
    ensures Monotone(InspectSteps(a, i)) && AtMost(InspectSteps(a, i), i, i) && AtLeast(InspectSteps(a, i), i, i)
  {
  }

  lemma {:induction false} ScanCounters(a: seq<int>, i: nat)
    requires 1 <= i <= |a|
    ensures Monotone(ScanSteps(a, i))
    ensures AtMost(ScanSteps(a, i), i - 1, i - 1) && AtLeast(ScanSteps(a, i), 1, 1)
  {
    if i > 1 {
      var earlier, inspect := ScanSteps(a, i - 1), InspectSteps(a, i - 1);
      ScanCounters(a, i - 1);
      InspectCounters(a, i - 1);
      MonotoneExtend(earlier, inspect, i - 2, i - 2, i - 1, i - 1);
      assert ScanSteps(a, i) == earlier + inspect;
      forall x: CountingSortStep | x in earlier + inspect
        ensures 1 <= x.comparisons && x.swaps == 0 && 1 <= x.memoryAccesses
      {
        if x in earlier {
        } else {
          assert x in inspect;
        }
      }
    }
  }

  lemma CountCounters(a: seq<int>)
    requires |a| > 0
    ensures Monotone(CountSteps(a, |a|))
    ensures AtMost(CountSteps(a, |a|), |a| - 1, 2 * |a| - 1) && AtLeast(CountSteps(a, |a|), |a| - 1, |a|)
  {
    var steps := CountSteps(a, |a|);
    forall s | s in steps
      ensures s.comparisons == |a| - 1 && s.swaps == 0 && |a| <= s.memoryAccesses <= 2 * |a| - 1
    {
      var i :| 0 <= i < |a| && s == steps[i];
    }
  }

  lemma PlacementCounters(out: seq<int>)
    requires |out| > 0
    ensures Monotone(Placements(out, |out|))
    ensures AtMost(Placements(out, |out|), |out| - 1, 3 * |out| - 2)
    ensures AtLeast(Placements(out, |out|), |out| - 1, 2 * |out| - 1)
  {
    var steps, n := Placements(out, |out|), |out|;
    forall s | s in steps
      ensures s.comparisons == n - 1 && s.swaps == 0 && 2 * n - 1 <= s.memoryAccesses <= 3 * n - 2
    {
      var p :| 0 <= p < n && s == steps[p];
    }
  }

  /** Appending a monotone run that starts where `s` ends keeps the whole monotone, with the run's bounds. */
  lemma MonotoneExtend(s: seq<CountingSortStep>, t: seq<CountingSortStep>, c: int, m: int, c2: int, m2: int)
    requires Monotone(s) && AtMost(s, c, m)
    requires Monotone(t) && AtLeast(t, c, m) && AtMost(t, c2, m2) && c <= c2 && m <= m2
    ensures Monotone(s + t) && AtMost(s + t, c2, m2)
  {
    MonotoneJoin(s, t, c, m);
  }

  /**
   * Seven parts, single steps alternating with monotone runs, each part
   * starting no lower than the previous one ends, join into a
   * monotone sequence. The bounds are those of a run over `n` elements.
   */
  lemma MonotoneParts(x0: CountingSortStep, x1: seq<CountingSortStep>, x2: CountingSortStep,
                      x3: seq<CountingSortStep>, x4: CountingSortStep, x5: seq<CountingSortStep>,
                      x6: CountingSortStep, n: int)
    requires AtMost([x0], 0, 0)
    requires Monotone(x1) && AtLeast(x1, 0, 0) && AtMost(x1, n - 1, n - 1)
    requires AtLeast([x2], n - 1, n - 1) && AtMost([x2], n - 1, n - 1)
    requires Monotone(x3) && AtLeast(x3, n - 1, n - 1) && AtMost(x3, n - 1, 2 * n - 1)
    requires AtLeast([x4], n - 1, 2 * n - 1) && AtMost([x4], n - 1, 2 * n - 1)
    requires Monotone(x5) && AtLeast(x5, n - 1, 2 * n - 1) && AtMost(x5, n - 1, 3 * n - 2)
    requires AtLeast([x6], n - 1, 3 * n - 2) && AtMost([x6], n - 1, 3 * n - 1)
    requires 1 <= n
    ensures Monotone([x0] + x1 + [x2] + x3 + [x4] + x5 + [x6])
  {
    MonotoneHead(x0, x1, x2, x3, n);
    MonotoneTail([x0] + x1 + [x2] + x3, x4, x5, x6, n);
  }

  /** The first four parts: the start step, the scan, the table step and the counting run. */
  lemma MonotoneHead(x0: CountingSortStep, x1: seq<CountingSortStep>, x2: CountingSortStep,
                     x3: seq<CountingSortStep>, n: int)
    requires AtMost([x0], 0, 0)
    requires Monotone(x1) && AtLeast(x1, 0, 0) && AtMost(x1, n - 1, n - 1)
    requires AtLeast([x2], n - 1, n - 1) && AtMost([x2], n - 1, n - 1)
    requires Monotone(x3) && AtLeast(x3, n - 1, n - 1) && AtMost(x3, n - 1, 2 * n - 1)
    requires 1 <= n
    ensures Monotone([x0] + x1 + [x2] + x3) && AtMost([x0] + x1 + [x2] + x3, n - 1, 2 * n - 1)
  {
    MonotoneExtend([x0], x1, 0, 0, n - 1, n - 1);
    MonotoneExtend([x0] + x1, [x2], n - 1, n - 1, n - 1, n - 1);
    MonotoneExtend([x0] + x1 + [x2], x3, n - 1, n - 1, n - 1, 2 * n - 1);
  }

  /** The last three parts: the counting-done step, the placements and the completion step. */
  lemma MonotoneTail(head: seq<CountingSortStep>, x4: CountingSortStep, x5: seq<CountingSortStep>,
                     x6: CountingSortStep, n: int)
    requires Monotone(head) && AtMost(head, n - 1, 2 * n - 1)
    requires AtLeast([x4], n - 1, 2 * n - 1) && AtMost([x4], n - 1, 2 * n - 1)
    requires Monotone(x5) && AtLeast(x5, n - 1, 2 * n - 1) && AtMost(x5, n - 1, 3 * n - 2)
    requires AtLeast([x6], n - 1, 3 * n - 2) && AtMost([x6], n - 1, 3 * n - 1)
    requires 1 <= n
    ensures Monotone(head + [x4] + x5 + [x6])
  {
    MonotoneExtend(head, [x4], n - 1, 2 * n - 1, n - 1, 2 * n - 1);
    MonotoneExtend(head + [x4], x5, n - 1, 2 * n - 1, n - 1, 3 * n - 2);
    MonotoneExtend(head + [x4] + x5, [x6], n - 1, 3 * n - 2, n - 1, 3 * n - 1);
  }

  /** Along the log, no counter ever decreases. */
  lemma LogMonotone(a: seq<int>)
    requires Admissible(a)
    ensures Monotone(Log(a))
  {
    if |a| > 0 {
      var n, out := |a|, CountingSorted(a);
      LogParts(a);
      ScanCounters(a, n);
      CountCounters(a);
      PlacementCounters(out);
      MonotoneParts(StartStep(a), ScanSteps(a, n), TableStep(a), CountSteps(a, n), CountedStep(a),
                    Placements(out, n), DoneStep(a), n);
    }
  }

  // ----- Where each kind of step sits -----

  /** The number of steps the scan logs. */
  function ScanCount(a: seq<int>): nat
    requires |a| > 0
  {
    |a| - 1 + NewMaxima(a, |a|)
  }

  /**
   * Positions in a sequence of seven parts, single steps alternating with
   * runs of steps: the shape of every non-empty log.
   */
  lemma SevenParts(x0: CountingSortStep, x1: seq<CountingSortStep>, x2: CountingSortStep,
                   x3: seq<CountingSortStep>, x4: CountingSortStep, x5: seq<CountingSortStep>,
                   x6: CountingSortStep)
    ensures var log, s, t, u := [x0] + x1 + [x2] + x3 + [x4] + x5 + [x6], |x1|, |x3|, |x5|;
      |log| == 4 + s + t + u && log[0] == x0 && log[1..1 + s] == x1 && log[1 + s] == x2 &&
      log[2 + s..2 + s + t] == x3 && log[2 + s + t] == x4 &&
      log[3 + s + t..3 + s + t + u] == x5 && log[3 + s + t + u] == x6
  {
    var s, t, u := |x1|, |x3|, |x5|;
    var q1 := [x0] + x1;
    var q3 := q1 + [x2] + x3;
    var q5 := q3 + [x4] + x5;
    var log := q5 + [x6];
    assert log[..|q5|] == q5 && q5[..|q3|] == q3;
    assert log[1..1 + s] == q1[1..1 + s] == x1;
    assert log[2 + s..2 + s + t] == q3[2 + s..2 + s + t] == x3;
    assert log[3 + s + t..3 + s + t + u] == q5[3 + s + t..3 + s + t + u] == x5;
  }

  /** The seven parts of the log of a non-empty input, and their lengths. */
  lemma LogParts(a: seq<int>)
    requires Admissible(a) && |a| > 0
    ensures |CountingSorted(a)| == |a| && |ScanSteps(a, |a|)| == ScanCount(a)
    ensures |CountSteps(a, |a|)| == |a| && |Placements(CountingSorted(a), |a|)| == |a|
    ensures Log(a) == [StartStep(a)] + ScanSteps(a, |a|) + [TableStep(a)] + CountSteps(a, |a|) +
      [CountedStep(a)] + Placements(CountingSorted(a), |a|) + [DoneStep(a)]
  {
    CountingSortedLength(a);
    ScanLength(a, |a|);
  }

  /**
   * The log is the start milestone, the scan, the table milestone at
   * 1 + ScanCount(a), the counting steps, the counting-done milestone,
   * the placements and the completion milestone; see CountingAt and
   * PlacementAt for the ones in between.
   */
  lemma LogLayout(a: seq<int>)
    requires Admissible(a) && |a| > 0
    ensures var n, s, log := |a|, ScanCount(a), Log(a);
      |log| == 3 * n + 3 + NewMaxima(a, n) &&
      log[0] == StartStep(a) && log[1..1 + s] == ScanSteps(a, n) && log[1 + s] == TableStep(a) &&
      log[2 + s + n] == CountedStep(a) && log[3 + s + 2 * n] == DoneStep(a)
  {
    var n := |a|;
    LogParts(a);
    SevenParts(StartStep(a), ScanSteps(a, n), TableStep(a), CountSteps(a, n), CountedStep(a),
               Placements(CountingSorted(a), n), DoneStep(a));
  }

  /** The counting step for index `i` sits at 2 + ScanCount(a) + i: the indices come in order. */
  lemma CountingAt(a: seq<int>, i: nat)
    requires Admissible(a) && i < |a|
    ensures 2 + ScanCount(a) + i < |Log(a)| && Log(a)[2 + ScanCount(a) + i] == CountStep(a, i)
    ensures Log(a)[2 + ScanCount(a) + i].primaryIndex == i
  {
    var n, s := |a|, ScanCount(a);
    LogParts(a);
    SevenParts(StartStep(a), ScanSteps(a, n), TableStep(a), CountSteps(a, n), CountedStep(a),
               Placements(CountingSorted(a), n), DoneStep(a));
    assert Log(a)[2 + s + i] == Log(a)[2 + s..2 + s + n][i] == CountSteps(a, n)[i];
  }

  /** The placement step for slot `p` sits at 3 + ScanCount(a) + n + p: the slots come in order. */
  lemma PlacementAt(a: seq<int>, p: nat)
    requires Admissible(a) && p < |a|
    ensures |CountingSorted(a)| == |a|
    ensures 3 + ScanCount(a) + |a| + p < |Log(a)| &&
      Log(a)[3 + ScanCount(a) + |a| + p] == Placement(CountingSorted(a), p)
    ensures Log(a)[3 + ScanCount(a) + |a| + p].secondaryIndex == p
  {
    var n, s, out := |a|, ScanCount(a), CountingSorted(a);
    LogParts(a);
    SevenParts(StartStep(a), ScanSteps(a, n), TableStep(a), CountSteps(a, n), CountedStep(a),
               Placements(out, n), DoneStep(a));
    assert Log(a)[3 + s + n + p] == Log(a)[3 + s + n..3 + s + 2 * n][p] == Placements(out, n)[p];
  }

  /**
   * The placement step for slot `p`, where it sits in the log, shows a
   * sorted prefix of the input's values, ending in the value placed, in
   * which every input value smaller than that one already has all its
   * copies; the slots after `p` still hold 0.
   */
  lemma PlacementShowsPrefix(a: seq<int>, p: nat)
    requires Admissible(a) && p < |a|
    ensures |CountingSorted(a)| == |a| && 3 + ScanCount(a) + |a| + p < |Log(a)|
    ensures var step := Log(a)[3 + ScanCount(a) + |a| + p];
      |step.arrayState| == |a| && step.description == PlaceElement(step.arrayState[p], p) &&
      step.secondaryIndex == p && step.isStateChange
    ensures var shown := Log(a)[3 + ScanCount(a) + |a| + p].arrayState;
      |shown| == |a| && shown[..p + 1] == CountingSorted(a)[..p + 1] &&
      Sorted(shown[..p + 1]) && multiset(shown[..p + 1]) <= multiset(a) &&
      (forall v :: v < shown[p] ==> multiset(shown[..p + 1])[v] == multiset(a)[v]) &&
      (forall k :: p < k < |a| ==> shown[k] == 0)
  {
    PlacementAt(a, p);
    OutputPrefix(a, p);
    var out := CountingSorted(a);
    var shown := Placement(out, p).arrayState;
    assert shown == out[..p + 1] + Repeat(0, |a| - p - 1);
    assert shown[..p + 1] == out[..p + 1];
  }

  /**
   * The last step of a non-empty run carries the counter totals and the
   * sorted output.
   */
  lemma LastStep(a: seq<int>)
    requires Admissible(a) && |a| > 0
    ensures |Log(a)| > 0
    ensures var last := Log(a)[|Log(a)| - 1];
      last.description == Completed && last.isStateChange &&
      last.comparisons == TotalComparisons(|a|) && last.swaps == 0 &&
      last.memoryAccesses == TotalMemoryAccesses(|a|) && last.arrayState == CountingSorted(a) &&
      Sorted(last.arrayState) && multiset(last.arrayState) == multiset(a)
  {
    CountingSortedCorrect(a);
  }

  /**
   * Any log that equals `Log(a)` once its timestamps are erased, such as
   * the list a run returns, keeps the log's promises: its length, the
   * shape of every step up to its timestamp, counters that never
   * decrease, and a last step with the totals and the sorted output.
   */
  lemma TimedLog(s: seq<CountingSortStep>, a: seq<int>)
    requires Admissible(a) && EraseTimes(s) == Log(a)
    ensures |a| == 0 ==> s == []
    ensures |a| > 0 ==> |s| == 3 * |a| + 3 + NewMaxima(a, |a|)
    ensures |s| == |Log(a)|
    ensures forall k :: 0 <= k < |s| ==> Untimed(s[k]) == Log(a)[k] && WellFormed(Untimed(s[k]), |a|)
    ensures Monotone(s)
    ensures |a| > 0 ==> (
      |s| > 0 &&
      s[|s| - 1].description == Completed && s[|s| - 1].comparisons == TotalComparisons(|a|) &&
      s[|s| - 1].swaps == 0 && s[|s| - 1].memoryAccesses == TotalMemoryAccesses(|a|) &&
      s[|s| - 1].arrayState == CountingSorted(a))
  {
    EraseTimesIndex(s);
    LogLength(a);
    LogWellFormed(a);
    LogMonotone(a);
    var log := Log(a);
    forall k | 0 <= k < |s|
      ensures WellFormed(Untimed(s[k]), |a|)
    {
      assert log[k] in log;
    }
    forall i, j | 0 <= i <= j < |s|
      ensures CountersLe(s[i], s[j])
    {
      assert CountersLe(log[i], log[j]);
    }
    if |a| > 0 {
      LastStep(a);
    }
  }
}
