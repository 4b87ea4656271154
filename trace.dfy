/**
 * What one run of `countingSort` (CountingSortEngine.java:60-107) computes
 * and records, as functions of the input sequence: the running maximum of
 * the scan, the frequency-driven rebuild of the sorted output, and the exact
 * log of steps. Timestamps are clock readings the model does not predict,
 * so every step here carries timestamp 0 and the engine's log is compared
 * with these after its timestamps are erased.
 */
module Trace {
  import opened Steps

  /** The name the engine writes into every step. */
  const Algorithm: string := "Counting Sort"

  /** Java's Integer.MAX_VALUE. */
  const MaxInt: int := 0x7fff_ffff

  /**
   * Inputs the source can sort: each value indexes the frequency table, so
   * it must be non-negative, and `max + 1` (the table size, a Java int) must
   * not overflow.
   */
  predicate Admissible(a: seq<int>) {
    forall i :: 0 <= i < |a| ==> 0 <= a[i] < MaxInt
  }

  predicate Sorted(s: seq<int>) {
    forall i, j :: 0 <= i <= j < |s| ==> s[i] <= s[j]
  }

  /** `k` copies of `x`. */
  function Repeat(x: int, k: nat): seq<int> {
    seq(k, _ => x)
  }

  /** A step as the engine builds it, with timestamp 0 and no swaps. */
  function Record(description: Description, primaryIndex: int, secondaryIndex: int,
                  comparisons: int, memoryAccesses: int, arrayState: seq<int>,
                  isStateChange: bool): CountingSortStep
  {
    CountingSortStep(Algorithm, description, primaryIndex, secondaryIndex, 0,
                     comparisons, 0, memoryAccesses, arrayState, isStateChange)
  }

  function Untimed(s: CountingSortStep): CountingSortStep {
    s.(timestamp := 0)
  }

  /** A log with every timestamp replaced by 0. */
  function EraseTimes(steps: seq<CountingSortStep>): seq<CountingSortStep> {
    if steps == [] then [] else EraseTimes(steps[..|steps| - 1]) + [Untimed(steps[|steps| - 1])]
  }

  lemma {:induction false} EraseTimesAppend(s: seq<CountingSortStep>, t: seq<CountingSortStep>)
    ensures EraseTimes(s + t) == EraseTimes(s) + EraseTimes(t)
    decreases |t|
  {
    if t != [] {
      var u := t[..|t| - 1];
      assert (s + t)[..|s + t| - 1] == s + u;
      EraseTimesAppend(s, u);
    } else {
      assert s + t == s;
    }
  }

  /** Erasing the timestamps keeps the length and every step but its timestamp. */
  lemma {:induction false} EraseTimesIndex(s: seq<CountingSortStep>)
    ensures |EraseTimes(s)| == |s|
    ensures forall k :: 0 <= k < |s| ==> EraseTimes(s)[k] == Untimed(s[k])
  {
    if s != [] {
      var init := s[..|s| - 1];
      EraseTimesIndex(init);
      forall k | 0 <= k < |s|
        ensures EraseTimes(s)[k] == Untimed(s[k])
      {
        if k < |init| {
          assert s[k] == init[k];
        }
      }
    }
  }

  // ----- Phase 1: finding the maximum (CountingSortEngine.java:66-75) -----

  /** The value of `max` after the scan has looked at `a[..i]`. */
  function PrefixMax(a: seq<int>, i: nat): int
    requires 1 <= i <= |a|
  {
    if i == 1 then a[0]
    else if a[i - 1] > PrefixMax(a, i - 1) then a[i - 1]
    else PrefixMax(a, i - 1)
  }

  /** The running maximum is the largest of the values scanned so far. */
  lemma {:induction false} PrefixMaxIsMaximum(a: seq<int>, i: nat)
    requires 1 <= i <= |a|
    ensures forall j :: 0 <= j < i ==> a[j] <= PrefixMax(a, i)
    ensures exists j :: 0 <= j < i && a[j] == PrefixMax(a, i)
  {
    if i == 1 {
      assert a[0] == PrefixMax(a, i);
    } else {
      PrefixMaxIsMaximum(a, i - 1);
      if a[i - 1] <= PrefixMax(a, i - 1) {
        var j :| 0 <= j < i - 1 && a[j] == PrefixMax(a, i - 1);
        assert a[j] == PrefixMax(a, i);
      } else {
        assert a[i - 1] == PrefixMax(a, i);
      }
    }
  }

  function Maximum(a: seq<int>): int
    requires |a| > 0
  {
    PrefixMax(a, |a|)
  }

  /** The steps recorded while inspecting `a[i]`, where 1 <= i. */
  function InspectSteps(a: seq<int>, i: nat): seq<CountingSortStep>
    requires 1 <= i < |a|
  {
    var check := Record(CheckElement(a[i]), i, NoIndex, i, i, a, false);
    if a[i] > PrefixMax(a, i) then [check, Record(NewMaximum(a[i]), i, NoIndex, i, i, a, false)]
    else [check]
  }

  /** The steps recorded by the scan once it has inspected `a[1..i]`. */
  function ScanSteps(a: seq<int>, i: nat): seq<CountingSortStep>
    requires 1 <= i <= |a|
  {
    if i == 1 then [] else ScanSteps(a, i - 1) + InspectSteps(a, i - 1)
  }

  // ----- Phase 3: rebuilding the output from the frequencies (lines 91-103) -----

  /** How many elements of `a` equal `v`: the frequency the count table records. */
  function Occurrences(a: seq<int>, v: int): nat {
    if a == [] then 0
    else Occurrences(a[..|a| - 1], v) + if a[|a| - 1] == v then 1 else 0
  }

  lemma {:induction false} OccurrencesAreMultiplicity(a: seq<int>, v: int)
    ensures Occurrences(a, v) == multiset(a)[v]
  {
    if a != [] {
      OccurrencesAreMultiplicity(a[..|a| - 1], v);
      assert a == a[..|a| - 1] + [a[|a| - 1]];
    }
  }

  /** What the rebuild has written once it has emptied the buckets of 0 .. v-1. */
  function Built(a: seq<int>, v: nat): seq<int> {
    if v == 0 then [] else Built(a, v - 1) + Repeat(v - 1, Occurrences(a, v - 1))
  }

  lemma {:induction false} RepeatCount(x: int, k: nat)
    ensures forall y :: multiset(Repeat(x, k))[y] == if y == x then k else 0
  {
    if k > 0 {
      RepeatCount(x, k - 1);
      assert Repeat(x, k) == Repeat(x, k - 1) + [x];
    }
  }

  /** Bucket by bucket the rebuild writes exactly the input's values below `v`. */
  lemma {:induction false} BuiltCounts(a: seq<int>, v: nat)
    ensures forall x :: multiset(Built(a, v))[x] == if 0 <= x < v then multiset(a)[x] else 0
  {
    if v > 0 {
      BuiltCounts(a, v - 1);
      RepeatCount(v - 1, Occurrences(a, v - 1));
      OccurrencesAreMultiplicity(a, v - 1);
    }
  }

  lemma {:induction false} BuiltSorted(a: seq<int>, v: nat)
    ensures Sorted(Built(a, v))
    ensures forall k :: 0 <= k < |Built(a, v)| ==> 0 <= Built(a, v)[k] < v
  {
    if v > 0 {
      BuiltSorted(a, v - 1);
    }
  }

  /** Earlier stages of the rebuild are prefixes of later ones. */
  lemma {:induction false} BuiltPrefix(a: seq<int>, v: nat, w: nat)
    requires v <= w
    ensures |Built(a, v)| <= |Built(a, w)| && Built(a, w)[..|Built(a, v)|] == Built(a, v)
  {
    if v < w {
      BuiltPrefix(a, v, w - 1);
      assert Built(a, w)[..|Built(a, w - 1)|] == Built(a, w - 1);
    }
  }

  /** The input has no value outside `0 .. Maximum(a)`. */
  lemma ValuesWithinMaximum(a: seq<int>)
    requires Admissible(a) && |a| > 0
    ensures forall x :: multiset(a)[x] > 0 ==> 0 <= x <= Maximum(a)
  {
    PrefixMaxIsMaximum(a, |a|);
    forall x | multiset(a)[x] > 0
      ensures 0 <= x <= Maximum(a)
    {
      assert x in a;
    }
  }

  /** The array `countingSort` returns: the buckets 0 .. max emptied in order. */
  function CountingSorted(a: seq<int>): seq<int>
    requires Admissible(a)
  {
    if |a| == 0 then [] else Built(a, Maximum(a) + 1)
  }

  /** The returned array is sorted and a permutation of the input. */
  lemma CountingSortedCorrect(a: seq<int>)
    requires Admissible(a)
    ensures |CountingSorted(a)| == |a| && Sorted(CountingSorted(a))
    ensures multiset(CountingSorted(a)) == multiset(a)
  {
    if |a| > 0 {
      var out := Built(a, Maximum(a) + 1);
      BuiltSorted(a, Maximum(a) + 1);
      BuiltCounts(a, Maximum(a) + 1);
      ValuesWithinMaximum(a);
      assert multiset(out) == multiset(a);
      assert |out| == |multiset(out)|;
    }
  }

  lemma CountingSortedLength(a: seq<int>)
    requires Admissible(a)
    ensures |CountingSorted(a)| == |a|
  {
    CountingSortedCorrect(a);
  }

  /**
   * The first p+1 slots of the output are sorted, hold only input values,
   * and hold every copy of each input value below the one in slot `p`.
   */
  lemma OutputPrefix(a: seq<int>, p: nat)
    requires Admissible(a) && p < |a|
    ensures |CountingSorted(a)| == |a|
    ensures var pre := CountingSorted(a)[..p + 1];
      Sorted(pre) && multiset(pre) <= multiset(a) &&
      forall v :: v < pre[p] ==> multiset(pre)[v] == multiset(a)[v]
  {
    CountingSortedCorrect(a);
    var out := CountingSorted(a);
    var pre, post := out[..p + 1], out[p + 1..];
    assert out == pre + post;
    assert multiset(out) == multiset(pre) + multiset(post);
    forall v | v < out[p]
      ensures multiset(pre)[v] == multiset(a)[v]
    {
      assert v !in post by {
        forall k | 0 <= k < |post|
          ensures post[k] != v
        {
          assert post[k] == out[p + 1 + k];
        }
      }
    }
  }

  /**
   * While the bucket of `v` is being emptied, output slot `k` receives `v`,
   * and it is a slot of the output.
   */
  lemma SlotValue(a: seq<int>, v: nat, k: int)
    requires Admissible(a) && |a| > 0 && v <= Maximum(a)
    requires |Built(a, v)| <= k < |Built(a, v)| + Occurrences(a, v)
    ensures k < |a| == |CountingSorted(a)| && CountingSorted(a)[k] == v
  {
    BucketSlot(a, v, k);
    CountingSortedLength(a);
    BuiltPrefix(a, v + 1, Maximum(a) + 1);
    var after, out := Built(a, v + 1), Built(a, Maximum(a) + 1);
    assert out[..|after|][k] == v;
  }

  lemma BucketSlot(a: seq<int>, v: nat, k: int)
    requires |Built(a, v)| <= k < |Built(a, v)| + Occurrences(a, v)
    ensures k < |Built(a, v + 1)| && Built(a, v + 1)[k] == v
  {
    var before := Built(a, v);
    assert Built(a, v + 1) == before + Repeat(v, Occurrences(a, v));
  }

  /** The bucket of `v` fills the output slots from |Built(a, v)| up to |Built(a, v + 1)|. */
  lemma BucketRange(a: seq<int>, v: nat)
    requires Admissible(a) && |a| > 0 && v <= Maximum(a)
    ensures |Built(a, v + 1)| == |Built(a, v)| + Occurrences(a, v) <= |a| == |CountingSorted(a)|
    ensures forall k :: |Built(a, v)| <= k < |Built(a, v + 1)| ==> CountingSorted(a)[k] == v
  {
    CountingSortedLength(a);
    BuiltPrefix(a, v + 1, Maximum(a) + 1);
    assert Built(a, v + 1) == Built(a, v) + Repeat(v, Occurrences(a, v));
    forall k | |Built(a, v)| <= k < |Built(a, v + 1)|
      ensures CountingSorted(a)[k] == v
    {
      SlotValue(a, v, k);
    }
  }

  // ----- The step log (lines 63-105) -----

  function StartStep(a: seq<int>): CountingSortStep {
    Record(Start, NoIndex, NoIndex, 0, 0, a, true)
  }

  function TableStep(a: seq<int>): CountingSortStep
    requires |a| > 0
  {
    Record(CountTableCreated(Maximum(a) + 1), NoIndex, NoIndex, |a| - 1, |a| - 1, a, true)
  }

  /** The step for incrementing the frequency of `a[i]`. */
  function CountStep(a: seq<int>, i: nat): CountingSortStep
    requires i < |a|
  {
    Record(CountElement(a[i]), i, NoIndex, |a| - 1, |a| + i, a, false)
  }

  /** The steps of the first `k` counting iterations. */
  function CountSteps(a: seq<int>, k: nat): seq<CountingSortStep>
    requires k <= |a|
  {
    seq(k, i requires 0 <= i < k => CountStep(a, i))
  }

  lemma CountStepsNext(a: seq<int>, k: nat)
    requires k < |a|
    ensures CountSteps(a, k + 1) == CountSteps(a, k) + [CountStep(a, k)]
  {
  }

  function CountedStep(a: seq<int>): CountingSortStep
    requires |a| > 0
  {
    Record(CountingDone, NoIndex, NoIndex, |a| - 1, 2 * |a| - 1, a, true)
  }

  /**
   * The step for writing slot `p` of the output `out`: it shows the output
   * array, whose slots after `p` still hold the zeros it was allocated
   * with, and the access count before this placement is counted.
   */
  function Placement(out: seq<int>, p: nat): CountingSortStep
    requires p < |out|
  {
    Record(PlaceElement(out[p], p), NoIndex, p, |out| - 1, 2 * |out| - 1 + p,
           out[..p + 1] + Repeat(0, |out| - p - 1), true)
  }

  /** The steps of the first `k` placements. */
  function Placements(out: seq<int>, k: nat): seq<CountingSortStep>
    requires k <= |out|
  {
    seq(k, p requires 0 <= p < k => Placement(out, p))
  }

  lemma PlacementsNext(out: seq<int>, k: nat)
    requires k < |out|
    ensures Placements(out, k + 1) == Placements(out, k) + [Placement(out, k)]
  {
  }

  /**
   * A partly rebuilt output whose slots up to `p` hold the output's values
   * and whose remaining slots are still 0.
   */
  lemma SnapshotOf(s: seq<int>, out: seq<int>, p: nat)
    requires p < |s| == |out|
    requires forall k :: 0 <= k <= p ==> s[k] == out[k]
    requires forall k :: p < k < |s| ==> s[k] == 0
    ensures s == out[..p + 1] + Repeat(0, |s| - p - 1)
  {
  }

  function DoneStep(a: seq<int>): CountingSortStep
    requires Admissible(a)
  {
    Record(Completed, NoIndex, NoIndex, |a| - 1, 3 * |a| - 1, CountingSorted(a), true)
  }

  /** The whole log of one run; an empty input returns before logging anything. */
  function Log(a: seq<int>): seq<CountingSortStep>
    requires Admissible(a)
  {
    if |a| == 0 then []
    else
      CountingSortedLength(a);
      [StartStep(a)] + ScanSteps(a, |a|) + [TableStep(a)] + CountSteps(a, |a|) +
      [CountedStep(a)] + Placements(CountingSorted(a), |a|) + [DoneStep(a)]
  }

  /** Counter totals of one run over `n` elements. */
  function TotalComparisons(n: nat): nat {
    if n == 0 then 0 else n - 1
  }

  function TotalMemoryAccesses(n: nat): nat {
    if n == 0 then 0 else 3 * n - 1
  }
}
