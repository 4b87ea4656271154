# Counting-sort engine of the algorithm visualizer

This project models the engine behind the visualizer's counting sort, and proves properties of that model:

- `CountingSortEngine` sorts a copy of an array of non-negative
  integers.
- It counts comparisons and memory accesses.
- It records a step for every action it takes.
- It hands each step to an optional consumer while it runs.
- It returns a `CountingSortResult` bundling the sorted array, the elapsed time, the counters, the complexity label and the step list.

The model has these modules:

- `Steps` (`step.dfy`): the immutable `CountingSortStep` record. A step's
  description is a `Description` value. Each value carries the numbers
  that the engine's message text embeds.
- `Results` (`result.dfy`): the immutable `CountingSortResult` record
  and its `toString` report. A parser reads the report back, proving that the report
  fields appear in the stated order and can be recovered.
- `Decimal` (`decimal.dfy`): `%d` formatting of integers, and a parser
  that inverts it.
- `Trace` (`trace.dfy`): a pure reference specification. It states
  which array `countingSort` returns (`CountingSorted`) and exactly which
  steps it logs, in order (`Log`).
- `TraceProperties` (`trace_properties.dfy`): properties of that log. They cover
  its length and layout, the well-formedness of every step, counters that
  never decrease, placement steps that show the output prefix, and the
  final step. `TimedLog` carries all of them over to the timestamped list a
  run returns.
- `Engine` (`engine.dfy`): the class `CountingSortEngine`. It has the
  counters, the step list and the consumer as fields. Its methods carry the
  Java loops, each proved against `Trace`: the array returned is
  `CountingSorted(input)`, and the log, with its clock readings erased, is
  `Log(input)`.
- `Wrappers` (`wrappers.dfy`): an `Option` type; `None` stands for Java's `null`.

Source paths below are relative to the repository root. All three core files are in
`src/com/algorithmvisualizer/`.

## Model

| member | source | states |
|---|---|---|
| Steps.ConstructorRoundTrip | src/com/algorithmvisualizer/CountingSortStep.java:20-45 | each getter returns exactly the value given to the constructor for that field |
| Results.ConstructorRoundTrip | src/com/algorithmvisualizer/CountingSortResult.java:17-36 | each getter returns exactly the value given to the constructor for that field |
| Decimal.FormatNat | src/com/algorithmvisualizer/CountingSortResult.java:40 | `%d` of a natural number is a non-empty run of decimal digits without a leading zero |
| Decimal.ParseFormat | src/com/algorithmvisualizer/CountingSortResult.java:40 | reading an integer back from its `%d` text gives the integer, and leaves any following non-digit text untouched |
| Results.ReportRoundTrip | src/com/algorithmvisualizer/CountingSortResult.java:39-42 | the report can be parsed back to the elapsed time, comparisons, swaps, accesses and complexity, in that order, so no field is lost or reordered |
| Trace.PrefixMaxIsMaximum | src/com/algorithmvisualizer/CountingSortEngine.java:66-75 | after the scan has seen `i` elements, the running maximum bounds each of them and equals one of them |
| Trace.EraseTimesIndex | src/com/algorithmvisualizer/CountingSortEngine.java:126-139 | erasing the clock readings from a log keeps its length and every field of every step except the timestamp |
| Trace.OccurrencesAreMultiplicity | src/com/algorithmvisualizer/CountingSortEngine.java:82-86 | the per-value tally the count loop keeps equals the number of times that value occurs in the input |
| Trace.CountingSortedCorrect | src/com/algorithmvisualizer/CountingSortEngine.java:60-107 | the array the sort returns has the input's length, is ascending, and is a permutation of the input |
| Trace.BucketRange | src/com/algorithmvisualizer/CountingSortEngine.java:94-103 | value `v` fills a contiguous block of the output, one slot per occurrence, starting right after the slots of all smaller values |
| Trace.OutputPrefix | src/com/algorithmvisualizer/CountingSortEngine.java:94-103 | the first p+1 slots of the returned array are sorted and a sub-multiset of the input; every input value below the one in slot p has all its copies there |
| TraceProperties.AboveRunningMaximum | src/com/algorithmvisualizer/CountingSortEngine.java:70-74 | the "new maximum" branch is taken exactly when the element is strictly greater than every earlier element |
| TraceProperties.ScanLength | src/com/algorithmvisualizer/CountingSortEngine.java:66-75 | the scan logs one inspection step per element after the first, plus one step per new maximum |
| TraceProperties.ScanOrder | src/com/algorithmvisualizer/CountingSortEngine.java:70-74 | scanning one more element appends its inspection step, followed by a new-maximum step exactly when the element is a new maximum |
| TraceProperties.LogLength | src/com/algorithmvisualizer/CountingSortEngine.java:60-105 | empty input logs nothing; otherwise the log holds 3n+3 steps plus one per new maximum |
| TraceProperties.LogWellFormed | src/com/algorithmvisualizer/CountingSortEngine.java:63-105 | every logged step names "Counting Sort" and carries zero swaps and an n-element snapshot; its indices are -1 or within the array, at least one of them is -1, and it is flagged a main state change exactly for the start, table, counting-done, placement and completion steps |
| TraceProperties.LogMonotone | src/com/algorithmvisualizer/CountingSortEngine.java:63-105 | along the log, the comparison and memory-access counters never decrease |
| TraceProperties.LogLayout | src/com/algorithmvisualizer/CountingSortEngine.java:63-105 | the log starts with the start step, then the scan steps, the table step at its position, the counting-done step, and ends with the completion step |
| TraceProperties.CountingAt | src/com/algorithmvisualizer/CountingSortEngine.java:82-86 | the counting step for element i sits i places after the table step and carries index i, so the elements are counted in input order |
| TraceProperties.PlacementAt | src/com/algorithmvisualizer/CountingSortEngine.java:94-101 | the p-th placement step sits at a fixed offset after the counting-done step and names output position p |
| TraceProperties.PlacementShowsPrefix | src/com/algorithmvisualizer/CountingSortEngine.java:94-101 | the logged placement step for slot p, at its position in the log, names the value placed and position p. Its snapshot up to p is the sorted output so far: sorted, made only of input values, and holding every copy of each input value smaller than the one just placed. Its later slots are still 0 |
| TraceProperties.LastStep | src/com/algorithmvisualizer/CountingSortEngine.java:105 | the last logged step is the completion step; it carries the final counters and a snapshot of the sorted permutation of the input |
| TraceProperties.TimedLog | src/com/algorithmvisualizer/CountingSortEngine.java:34-55 | a log that equals the reference log once its timestamps are erased, such as the list a run returns, has the reference length. Each of its steps is well-formed apart from the timestamp, its counters never decrease, and its last step carries the totals and the sorted output |
| Engine.ElapsedMillis | src/com/algorithmvisualizer/CountingSortEngine.java:43-44 | the elapsed nanoseconds become whole milliseconds rounded toward zero |
| Engine.DeliveriesInOrder | src/com/algorithmvisualizer/CountingSortEngine.java:139-142 | with no consumer nothing is delivered; with one, it receives every logged step exactly once, in log order |
| Engine.CountingSortEngine.constructor | src/com/algorithmvisualizer/CountingSortEngine.java:23-26 | a new engine has zero counters, an empty log and no consumer |
| Engine.CountingSortEngine.SetStepCallback | src/com/algorithmvisualizer/CountingSortEngine.java:157-159 | the consumer is replaced by the one given and nothing else changes |
| Engine.CountingSortEngine.ResetCounters | src/com/algorithmvisualizer/CountingSortEngine.java:148-152 | all three counters become zero and nothing else changes |
| Engine.CountingSortEngine.AddStep | src/com/algorithmvisualizer/CountingSortEngine.java:126-143 | appends a single step to the log, keeping the earlier steps; the step holds the current counters and a copy of the array, and the consumer, if any, receives exactly that step |
| Engine.CountingSortEngine.ExecuteAlgorithm | src/com/algorithmvisualizer/CountingSortEngine.java:34-55 | the caller's array is unchanged; the result holds its sorted permutation, the totals of this run only, zero swaps, "O(n)" and the full step log, and the consumer receives each of those steps in order |
| Engine.CountingSortEngine.CountingSort | src/com/algorithmvisualizer/CountingSortEngine.java:60-107 | returns a new array equal to the reference sort of the input, ends with n-1 comparisons and 3n-1 accesses, and the untimed log equals the reference log |
| Engine.CountingSortEngine.FindMaximum | src/com/algorithmvisualizer/CountingSortEngine.java:66-75 | returns the input's maximum, counts n-1 comparisons and accesses, and logs exactly the reference scan steps |
| Engine.CountingSortEngine.Inspect | src/com/algorithmvisualizer/CountingSortEngine.java:68-74 | returns the maximum of the first i+1 elements. It counts one comparison and one access, and logs the inspection step, plus a new-maximum step exactly when `arr[i]` exceeds the running maximum |
| Engine.CountingSortEngine.Tabulate | src/com/algorithmvisualizer/CountingSortEngine.java:77-88 | returns a table of size max+1 holding each value's number of occurrences, framed by the table and counting-done steps |
| Engine.CountingSortEngine.CountOccurrences | src/com/algorithmvisualizer/CountingSortEngine.java:82-86 | fills the zeroed table with the number of occurrences of every value, one access and one step per element |
| Engine.CountingSortEngine.CountAt | src/com/algorithmvisualizer/CountingSortEngine.java:83-85 | raises only the tally of `arr[i]`, by one, so the table counts the first i+1 elements; adds one access and one counting step |
| Engine.CountingSortEngine.Rebuild | src/com/algorithmvisualizer/CountingSortEngine.java:90-103 | returns a new array holding the reference sort, with one access and one placement step per slot |
| Engine.CountingSortEngine.PlaceBucket | src/com/algorithmvisualizer/CountingSortEngine.java:95-103 | fills the block of slots the sorted output gives value `v` and ends just past it, leaving every other tally untouched |
| Engine.CountingSortEngine.EmptyBucket | src/com/algorithmvisualizer/CountingSortEngine.java:96-102 | writes value `v` into its whole block of output slots, logging each placement, and leaves its tally at zero |
| Engine.CountingSortEngine.PlaceAt | src/com/algorithmvisualizer/CountingSortEngine.java:97-98 | writes `v` to one slot and logs its placement step. The step's snapshot is the output so far; earlier slots keep the output's values and later ones stay zero |

## Left out

- The JavaFX user interface (CountingSortVisualizerGUI.java), which runs the engine in a background `Task` on its own thread, is not part of this model. Only the engine, the step and the result are modelled, and the model is single-threaded.
- `swap` (CountingSortEngine.java:114-119) is never called by the counting sort, so the model has no counterpart for it.
- `System.nanoTime()` readings are arbitrary values, and step timestamps are unconstrained. Each timestamp is erased before a log is compared with the reference `Log`.
- Engine.CountingSortEngine.ExecuteAlgorithm: its contract says nothing about `executionTime`. The body computes it as `ElapsedMillis` of two arbitrary clock readings.
- The consumer is represented by an identity. What it does with a step is foreign code; the model records the deliveries in a ghost sequence instead and does not run the consumer.
- The Italian description text is not modelled. A `Description` value keeps the message kind and the numbers it mentions.
- Engine.CountingSortEngine.ExecuteAlgorithm: takes a non-null array. Java's `null` argument throws `NullPointerException` at `data.clone()` (CountingSortEngine.java:39), and the model does not represent that.
- Engine.CountingSortEngine.ExecuteAlgorithm: requires every element to lie in `0 .. 2^31-2`. A negative element makes the Java code index the table out of bounds. `Integer.MAX_VALUE` makes `max + 1` wrap to a negative table size. Neither failure is modelled.
- The `long` counters are unbounded integers. For any array Java can hold they stay far below 2^63, so wrap-around never arises.
- `%d` is formatted with ASCII digits, as in a locale without other digit sets.
- Aliasing of step snapshots is not captured. A step's snapshot is a value. `addStep` copies the array when it builds a step (CountingSortEngine.java:136), but `getArrayState` (CountingSortStep.java:44) hands out the stored array itself. The logged step, the step given to the consumer (CountingSortEngine.java:139-141) and the step in the result's list (a shallow copy, :53) are one object. So in Java a write through one step's `getArrayState()` changes that step in the log, in the consumer's hands and in the result at once. The model cannot show this, nor a caller that builds a `CountingSortStep` from an array it later changes.
- The Java `countingSort` is split into the phase methods FindMaximum, Tabulate, CountOccurrences and Rebuild. Their loop bodies are split out as Inspect, CountAt, PlaceBucket, EmptyBucket and PlaceAt. The loops and their order are unchanged; the split keeps each proof small.
- Engine.CountingSortEngine.SetStepCallback: does not promise `Valid()` afterwards, because the earlier deliveries were made to the previous consumer. ExecuteAlgorithm clears the log and restores `Valid()`.
- An empty input returns before any step is logged (CountingSortEngine.java:61): the model gives an empty log, as `LogLength` states.
- The maximum-scan steps are flagged `false` (CountingSortEngine.java:70, :73): the model does not count them as state changes, as `LogWellFormed` states.
