/**
 * The instrumented engine (CountingSortEngine.java): three counters and a
 * step log kept as fields, an optional step consumer, and `countingSort`
 * written as the source writes it, over arrays, with every `addStep` call in
 * place. `System.nanoTime` readings are arbitrary values. The consumer is
 * not run: each delivery to it is appended to the ghost sequence
 * `delivered`.
 */
module Engine {
  import opened Wrappers
  import opened Steps
  import opened Results
  import opened Trace

  /** Stands for the identity of a registered `Consumer<CountingSortStep>`. */
  datatype StepConsumer = StepConsumer(id: nat)

  /** One call `consumer.accept(step)`. */
  datatype Delivery = Delivery(consumer: StepConsumer, step: CountingSortStep)

  /** What a consumer (if any) is handed as `steps` are logged one by one. */
  function Deliveries(consumer: Option<StepConsumer>, steps: seq<CountingSortStep>): seq<Delivery> {
    if consumer.None? || steps == [] then []
    else Deliveries(consumer, steps[..|steps| - 1]) + [Delivery(consumer.value, steps[|steps| - 1])]
  }

  lemma {:induction false} DeliveriesAppend(consumer: Option<StepConsumer>, s: seq<CountingSortStep>,
                                            t: seq<CountingSortStep>)
    ensures Deliveries(consumer, s + t) == Deliveries(consumer, s) + Deliveries(consumer, t)
    decreases |t|
  {
    if consumer.Some? && t != [] {
      var u := t[..|t| - 1];
      assert (s + t)[..|s + t| - 1] == s + u;
      DeliveriesAppend(consumer, s, u);
    } else if t == [] {
      assert s + t == s;
    }
  }

  /** With a consumer registered, it is handed every step once, in log order; without one, nothing. */
  lemma {:induction false} DeliveriesInOrder(consumer: Option<StepConsumer>, steps: seq<CountingSortStep>)
    ensures consumer.None? ==> Deliveries(consumer, steps) == []
    ensures consumer.Some? ==> |Deliveries(consumer, steps)| == |steps|
    ensures consumer.Some? ==>
              forall k :: 0 <= k < |steps| ==> Deliveries(consumer, steps)[k] == Delivery(consumer.value, steps[k])
  {
    if consumer.Some? && steps != [] {
      DeliveriesInOrder(consumer, steps[..|steps| - 1]);
    }
  }

  /**
   * Associativity of `+`: a proof hint for the loops that extend the log
   * one block at a time, not a property of the engine.
   */
  lemma AppendGrouping(x: seq<CountingSortStep>, y: seq<CountingSortStep>, z: seq<CountingSortStep>)
    ensures x + y + z == x + (y + z)
  {
  }

  /**
   * Nanoseconds between two clock readings as whole milliseconds, with
   * Java's `long` division rounding toward zero.
   */
  function ElapsedMillis(startTime: int, endTime: int): (ms: int)
    ensures startTime <= endTime ==> 0 <= ms * 1_000_000 <= endTime - startTime < (ms + 1) * 1_000_000
    ensures endTime < startTime ==> (ms - 1) * 1_000_000 < endTime - startTime <= ms * 1_000_000 <= 0
  {
    if startTime <= endTime then (endTime - startTime) / 1_000_000
    else -((startTime - endTime) / 1_000_000)
  }

  class CountingSortEngine {
    var comparisons: int
    var swaps: int
    var memoryAccesses: int
    var executionSteps: seq<CountingSortStep>
    var stepCallback: Option<StepConsumer>
    /** `executionSteps` with every timestamp erased. */
    ghost var trace: seq<CountingSortStep>
    /** Every delivery made to a consumer by this engine, in order. */
    ghost var delivered: seq<Delivery>
    /** The deliveries made before `executionSteps` was last cleared. */
    ghost var deliveredBeforeLog: seq<Delivery>

    /**
     * `trace` is the log without its clock readings, and since the log was
     * last cleared the consumer has been handed each logged step.
     */
    ghost predicate Valid()
      reads this
    {
      trace == EraseTimes(executionSteps) &&
      delivered == deliveredBeforeLog + Deliveries(stepCallback, executionSteps)
    }

    constructor ()
      ensures comparisons == 0 && swaps == 0 && memoryAccesses == 0
      ensures executionSteps == [] && stepCallback == None && delivered == []
      ensures Valid()
    {
      executionSteps := [];
      comparisons, swaps, memoryAccesses := 0, 0, 0;
      stepCallback := None;
      trace := [];
      delivered := [];
      deliveredBeforeLog := [];
    }

    /** Registers `callback`, replacing any previous one; `None` is Java's null. */
    method SetStepCallback(callback: Option<StepConsumer>)
      modifies this`stepCallback
      ensures stepCallback == callback
    {
      stepCallback := callback;
    }

    method ResetCounters()
      modifies this`comparisons, this`swaps, this`memoryAccesses
      ensures comparisons == 0 && swaps == 0 && memoryAccesses == 0
    {
      comparisons := 0;
      swaps := 0;
      memoryAccesses := 0;
    }

    /**
     * Logs a step holding the current counters and a copy of
     * `currentArrayState`, then hands it to the consumer if there is one.
     */
    method AddStep(description: Description, index1: int, index2: int,
                   currentArrayState: array<int>, isStateChange: bool)
      requires Valid()
      modifies this`executionSteps, this`trace, this`delivered
      ensures Valid()
      ensures |executionSteps| == |old(executionSteps)| + 1
      ensures executionSteps[..|old(executionSteps)|] == old(executionSteps)
      ensures trace == old(trace) +
        [CountingSortStep(Algorithm, description, index1, index2, 0, comparisons, swaps,
                          memoryAccesses, currentArrayState[..], isStateChange)]
      ensures delivered == old(delivered) +
        if stepCallback.Some? then [Delivery(stepCallback.value, executionSteps[|old(executionSteps)|])] else []
    {
      var timestamp: int := *;  // System.nanoTime()
      var step := CountingSortStep(Algorithm, description, index1, index2, timestamp, comparisons,
                                   swaps, memoryAccesses, currentArrayState[..], isStateChange);
      ghost var previous := executionSteps;
      executionSteps := executionSteps + [step];
      trace := trace + [Untimed(step)];
      if stepCallback.Some? {
        delivered := delivered + [Delivery(stepCallback.value, step)];
      }
      EraseTimesAppend(previous, [step]);
      DeliveriesAppend(stepCallback, previous, [step]);
      assert previous + [step] == executionSteps;
    }

    /**
     * Sorts a fresh copy of `data`, after resetting the counters and the
     * log, and bundles the outcome. The caller's array is not touched.
     */
    method ExecuteAlgorithm(data: array<int>) returns (r: CountingSortResult)
      requires Admissible(data[..])
      modifies this`comparisons, this`swaps, this`memoryAccesses, this`executionSteps, this`trace,
               this`delivered, this`deliveredBeforeLog
      ensures data[..] == old(data[..]) && Valid()
      ensures r.finalArrayState == CountingSorted(data[..])
      ensures Sorted(r.finalArrayState) && multiset(r.finalArrayState) == multiset(data[..])
      ensures r.steps == executionSteps && EraseTimes(r.steps) == Log(data[..])
      ensures r.comparisons == comparisons == TotalComparisons(data.Length)
      ensures r.swaps == swaps == 0
      ensures r.memoryAccesses == memoryAccesses == TotalMemoryAccesses(data.Length)
      ensures r.complexity == "O(n)"
      ensures delivered == old(delivered) + Deliveries(stepCallback, r.steps)
    {
      ResetCounters();
      executionSteps := [];
      trace := [];
      deliveredBeforeLog := delivered;
      var startTime: int := *;  // System.nanoTime()
      var resultData := new int[data.Length](i reads data => if 0 <= i < data.Length then data[i] else 0);
      assert resultData[..] == data[..];
      resultData := CountingSort(resultData);
      var endTime: int := *;  // System.nanoTime()
      var executionTime := ElapsedMillis(startTime, endTime);
      CountingSortedCorrect(data[..]);
      r := CountingSortResult(resultData[..], executionTime, comparisons, swaps, memoryAccesses,
                              "O(n)", executionSteps);
    }

    /** The sort itself (lines 60-107), over an empty log and zeroed counters. */
    method CountingSort(arr: array<int>) returns (result: array<int>)
      requires Admissible(arr[..]) && Valid()
      requires comparisons == 0 && swaps == 0 && memoryAccesses == 0 && executionSteps == []
      modifies this`comparisons, this`memoryAccesses, this`executionSteps, this`trace, this`delivered
      ensures fresh(result) && result[..] == CountingSorted(arr[..])
      ensures comparisons == TotalComparisons(arr.Length)
      ensures memoryAccesses == TotalMemoryAccesses(arr.Length)
      ensures trace == Log(arr[..]) && Valid()
    {
      if arr.Length == 0 {
        return new int[0];
      }
      ghost var a := arr[..];
      PrefixMaxIsMaximum(a, |a|);
      assert StartStep(a) == CountingSortStep(Algorithm, Start, NoIndex, NoIndex, 0, comparisons, swaps,
                                              memoryAccesses, arr[..], true);
      AddStep(Start, NoIndex, NoIndex, arr, true);
      assert trace == [StartStep(a)];
      var max := FindMaximum(arr, a);
      ghost var scanned := trace;
      assert scanned == [StartStep(a)] + ScanSteps(a, |a|);
      var count := Tabulate(arr, a, max);
      ghost var counted := trace;
      assert counted == scanned + [TableStep(a)] + CountSteps(a, |a|) + [CountedStep(a)];
      result := Rebuild(arr, a, count, max);
      ghost var placed := trace;
      assert placed == counted + Placements(CountingSorted(a), |a|);
      assert DoneStep(a) == CountingSortStep(Algorithm, Completed, NoIndex, NoIndex, 0,
                                             comparisons, swaps, memoryAccesses, result[..], true);
      AddStep(Completed, NoIndex, NoIndex, result, true);
      assert trace == placed + [DoneStep(a)];
      assert arr[..] == a;
    }

    /** The scan for the maximum (lines 66-75). */
    method FindMaximum(arr: array<int>, ghost a: seq<int>) returns (max: int)
      requires arr[..] == a && |a| > 0 && Valid()
      requires comparisons == 0 && swaps == 0 && memoryAccesses == 0
      modifies this`comparisons, this`memoryAccesses, this`executionSteps, this`trace, this`delivered
      ensures max == Maximum(a)
      ensures comparisons == |a| - 1 && memoryAccesses == |a| - 1
      ensures trace == old(trace) + ScanSteps(a, |a|) && Valid()
    {
      max := arr[0];
      for i := 1 to arr.Length
        invariant max == PrefixMax(a, i)
        invariant comparisons == i - 1 && memoryAccesses == i - 1
        invariant trace == old(trace) + ScanSteps(a, i) && Valid()
      {
        max := Inspect(arr, a, i, max);
        AppendGrouping(old(trace), ScanSteps(a, i), InspectSteps(a, i));
      }
    }

    /** One iteration of the scan (lines 68-74): `arr[i]` is compared with the running maximum `max`. */
    method Inspect(arr: array<int>, ghost a: seq<int>, i: int, max: int) returns (next: int)
      requires arr[..] == a && 1 <= i < |a| && max == PrefixMax(a, i) && Valid()
      requires comparisons == i - 1 && swaps == 0 && memoryAccesses == i - 1
      modifies this`comparisons, this`memoryAccesses, this`executionSteps, this`trace, this`delivered
      ensures next == PrefixMax(a, i + 1)
      ensures comparisons == i && memoryAccesses == i
      ensures trace == old(trace) + InspectSteps(a, i) && Valid()
    {
      next := max;
      memoryAccesses := memoryAccesses + 1;
      comparisons := comparisons + 1;
      assert arr[..] == a;
      ghost var check := Record(CheckElement(a[i]), i, NoIndex, i, i, a, false);
      assert check == CountingSortStep(Algorithm, CheckElement(arr[i]), i, NoIndex, 0, comparisons, swaps,
                                       memoryAccesses, arr[..], false);
      AddStep(CheckElement(arr[i]), i, NoIndex, arr, false);
      if arr[i] > next {
        next := arr[i];
        assert Record(NewMaximum(a[i]), i, NoIndex, i, i, a, false) ==
               CountingSortStep(Algorithm, NewMaximum(next), i, NoIndex, 0, comparisons, swaps,
                                memoryAccesses, arr[..], false);
        AddStep(NewMaximum(next), i, NoIndex, arr, false);
      }
    }

    /** The frequency table: allocated, logged, filled and logged again (lines 77-88). */
    method Tabulate(arr: array<int>, ghost a: seq<int>, max: int) returns (count: array<int>)
      requires arr[..] == a && |a| > 0 && Admissible(a) && max == Maximum(a) && Valid()
      requires comparisons == |a| - 1 && swaps == 0 && memoryAccesses == |a| - 1
      modifies this`memoryAccesses, this`executionSteps, this`trace, this`delivered
      ensures fresh(count) && count.Length == max + 1
      ensures forall w :: 0 <= w < count.Length ==> count[w] == Occurrences(a, w)
      ensures memoryAccesses == 2 * |a| - 1
      ensures trace == old(trace) + [TableStep(a)] + CountSteps(a, |a|) + [CountedStep(a)] && Valid()
    {
      PrefixMaxIsMaximum(a, |a|);
      count := new int[max + 1](_ => 0);
      assert TableStep(a) == CountingSortStep(Algorithm, CountTableCreated(max + 1), NoIndex, NoIndex, 0,
                                              comparisons, swaps, memoryAccesses, arr[..], true);
      AddStep(CountTableCreated(max + 1), NoIndex, NoIndex, arr, true);
      CountOccurrences(arr, a, count);
      assert arr[..] == a;
      assert CountedStep(a) == CountingSortStep(Algorithm, CountingDone, NoIndex, NoIndex, 0,
                                                comparisons, swaps, memoryAccesses, arr[..], true);
      AddStep(CountingDone, NoIndex, NoIndex, arr, true);
    }

    /** The frequency count (lines 82-86). */
    method CountOccurrences(arr: array<int>, ghost a: seq<int>, count: array<int>)
      requires arr != count && arr[..] == a && Valid()
      requires |a| > 0 && Admissible(a) && count.Length == Maximum(a) + 1
      requires forall w :: 0 <= w < count.Length ==> count[w] == 0
      requires comparisons == |a| - 1 && swaps == 0 && memoryAccesses == |a| - 1
      modifies count, this`memoryAccesses, this`executionSteps, this`trace, this`delivered
      ensures forall w :: 0 <= w < count.Length ==> count[w] == Occurrences(a, w)
      ensures memoryAccesses == 2 * |a| - 1
      ensures trace == old(trace) + CountSteps(a, |a|) && Valid()
    {
      for i := 0 to arr.Length
        invariant forall w :: 0 <= w < count.Length ==> count[w] == Occurrences(a[..i], w)
        invariant memoryAccesses == arr.Length - 1 + i
        invariant trace == old(trace) + CountSteps(a, i) && Valid()
      {
        CountAt(arr, a, count, i);
        CountStepsNext(a, i);
        AppendGrouping(old(trace), CountSteps(a, i), [CountStep(a, i)]);
      }
      assert a[..arr.Length] == a;
    }

    /** One iteration of the count (lines 83-85): the frequency of `arr[i]` goes up by one. */
    method CountAt(arr: array<int>, ghost a: seq<int>, count: array<int>, i: int)
      requires arr != count && arr[..] == a && Valid()
      requires 0 <= i < |a| && Admissible(a) && count.Length == Maximum(a) + 1
      requires forall w :: 0 <= w < count.Length ==> count[w] == Occurrences(a[..i], w)
      requires comparisons == |a| - 1 && swaps == 0 && memoryAccesses == |a| - 1 + i
      modifies count, this`memoryAccesses, this`executionSteps, this`trace, this`delivered
      ensures forall w :: 0 <= w < count.Length ==> count[w] == Occurrences(a[..i + 1], w)
      ensures memoryAccesses == |a| + i
      ensures trace == old(trace) + [CountStep(a, i)] && Valid()
    {
      PrefixMaxIsMaximum(a, |a|);
      assert a[..i + 1][..i] == a[..i];
      memoryAccesses := memoryAccesses + 1;
      count[arr[i]] := count[arr[i]] + 1;
      assert arr[..] == a;
      assert CountStep(a, i) == CountingSortStep(Algorithm, CountElement(arr[i]), i, NoIndex, 0, comparisons,
                                                 swaps, memoryAccesses, arr[..], false);
      AddStep(CountElement(arr[i]), i, NoIndex, arr, false);
    }

    /**
     * The rebuild of the sorted output from the frequencies (lines 91-103),
     * for the input `a` the frequencies were counted from.
     */
    method Rebuild(arr: array<int>, ghost a: seq<int>, count: array<int>, max: int) returns (result: array<int>)
      requires arr[..] == a && |a| > 0 && Admissible(a) && max == Maximum(a) && count.Length == max + 1 && Valid()
      requires forall w :: 0 <= w < count.Length ==> count[w] == Occurrences(a, w)
      requires comparisons == |a| - 1 && swaps == 0 && memoryAccesses == 2 * |a| - 1
      modifies count, this`memoryAccesses, this`executionSteps, this`trace, this`delivered
      ensures fresh(result) && result.Length == |a| && result[..] == CountingSorted(a)
      ensures memoryAccesses == 3 * |a| - 1
      ensures trace == old(trace) + Placements(CountingSorted(a), |a|) && Valid()
    {
      ghost var out := CountingSorted(a);
      CountingSortedLength(a);
      result := new int[arr.Length](_ => 0);
      var currentPosition := 0;
      for i := 0 to max + 1
        invariant currentPosition == |Built(a, i)| <= |a|
        invariant forall k :: 0 <= k < currentPosition ==> result[k] == out[k]
        invariant forall k :: currentPosition <= k < |a| ==> result[k] == 0
        invariant forall w :: i <= w < count.Length ==> count[w] == Occurrences(a, w)
        invariant memoryAccesses == 2 * |a| - 1 + currentPosition
        invariant trace == old(trace) + Placements(out, currentPosition) && Valid()
      {
        currentPosition := PlaceBucket(a, out, old(trace), count, i, result, currentPosition);
      }
      assert result[..] == out;
    }

    /**
     * One iteration of the outer loop (lines 95-103): the copies of `v` go
     * to the block of slots that the sorted output gives them.
     */
    method PlaceBucket(ghost a: seq<int>, ghost out: seq<int>, ghost logged: seq<CountingSortStep>,
                       count: array<int>, v: int, result: array<int>, position: int) returns (next: int)
      requires |a| > 0 && Admissible(a) && out == CountingSorted(a) && |out| == |a|
      requires count != result && count.Length == Maximum(a) + 1 && result.Length == |a| && 0 <= v < count.Length
      requires position == |Built(a, v)| <= |a| && count[v] == Occurrences(a, v)
      requires forall k :: 0 <= k < position ==> result[k] == out[k]
      requires forall k :: position <= k < |out| ==> result[k] == 0
      requires comparisons == |out| - 1 && swaps == 0 && memoryAccesses == 2 * |out| - 1 + position
      requires trace == logged + Placements(out, position) && Valid()
      modifies count, result, this`memoryAccesses, this`executionSteps, this`trace, this`delivered
      ensures next == |Built(a, v + 1)| <= |a|
      ensures forall w :: 0 <= w < count.Length && w != v ==> count[w] == old(count[w])
      ensures forall k :: 0 <= k < next ==> result[k] == out[k]
      ensures forall k :: next <= k < |out| ==> result[k] == 0
      ensures memoryAccesses == 2 * |out| - 1 + next
      ensures trace == logged + Placements(out, next) && Valid()
    {
      BucketRange(a, v);
      next := EmptyBucket(out, logged, count, v, result, position);
    }

    /**
     * One pass of the inner loop (lines 96-102): the `count[v]` copies of
     * `v` are written from slot `position` on, where the output `out` has them.
     */
    method EmptyBucket(ghost out: seq<int>, ghost logged: seq<CountingSortStep>,
                       count: array<int>, v: int, result: array<int>, position: int) returns (next: int)
      requires count != result && Valid()
      requires 0 <= v < count.Length && result.Length == |out|
      requires 0 <= position && 0 <= count[v] && position + count[v] <= |out|
      requires forall k :: position <= k < position + count[v] ==> out[k] == v
      requires forall k :: 0 <= k < position ==> result[k] == out[k]
      requires forall k :: position <= k < |out| ==> result[k] == 0
      requires comparisons == |out| - 1 && swaps == 0 && memoryAccesses == 2 * |out| - 1 + position
      requires trace == logged + Placements(out, position)
      modifies count, result, this`memoryAccesses, this`executionSteps, this`trace, this`delivered
      ensures next == position + old(count[v])
      ensures forall w :: 0 <= w < count.Length ==> count[w] == if w == v then 0 else old(count[w])
      ensures forall k :: 0 <= k < next ==> result[k] == out[k]
      ensures forall k :: next <= k < |out| ==> result[k] == 0
      ensures memoryAccesses == 2 * |out| - 1 + next
      ensures trace == logged + Placements(out, next) && Valid()
    {
      next := position;
      while count[v] > 0
        invariant 0 <= count[v] && next + count[v] == position + old(count[v])
        invariant forall w :: 0 <= w < count.Length && w != v ==> count[w] == old(count[w])
        invariant forall k :: 0 <= k < next ==> result[k] == out[k]
        invariant forall k :: next <= k < |out| ==> result[k] == 0
        invariant memoryAccesses == 2 * |out| - 1 + next
        invariant trace == logged + Placements(out, next) && Valid()
        decreases count[v]
      {
        PlaceAt(out, logged, v, result, next);
        next := next + 1;
        count[v] := count[v] - 1;
        memoryAccesses := memoryAccesses + 1;
      }
    }

    /** The write of `v` to slot `position` and its step (lines 97-98). */
    method PlaceAt(ghost out: seq<int>, ghost logged: seq<CountingSortStep>, v: int, result: array<int>, position: int)
      requires Valid() && result.Length == |out| && 0 <= position < |out| && out[position] == v
      requires forall k :: 0 <= k < position ==> result[k] == out[k]
      requires forall k :: position <= k < |out| ==> result[k] == 0
      requires comparisons == |out| - 1 && swaps == 0 && memoryAccesses == 2 * |out| - 1 + position
      requires trace == logged + Placements(out, position)
      modifies result, this`executionSteps, this`trace, this`delivered
      ensures forall k :: 0 <= k <= position ==> result[k] == out[k]
      ensures forall k :: position < k < |out| ==> result[k] == 0
      ensures trace == logged + Placements(out, position + 1) && Valid()
    {
      result[position] := v;
      SnapshotOf(result[..], out, position);
      assert Placement(out, position) == CountingSortStep(Algorithm, PlaceElement(v, position), NoIndex, position, 0,
                                                          comparisons, swaps, memoryAccesses, result[..], true);
      AddStep(PlaceElement(v, position), NoIndex, position, result, true);
      PlacementsNext(out, position);
      AppendGrouping(logged, Placements(out, position), [Placement(out, position)]);
    }
  }
}
