/**
 * The outcome of one run (CountingSortResult.java): the sorted array, the
 * elapsed time, the final counters, the complexity label and the step log,
 * plus the one-line report `toString` produces.
 */
module Results {
  import opened Wrappers
  import opened Steps
  import Decimal

  datatype CountingSortResult = CountingSortResult(
    finalArrayState: seq<int>,
    executionTime: int,
    comparisons: int,
    swaps: int,
    memoryAccesses: int,
    complexity: string,
    steps: seq<CountingSortStep>)

  /** Reading a result back returns every argument it was built from. */
  lemma ConstructorRoundTrip(finalArrayState: seq<int>, executionTime: int, comparisons: int,
                             swaps: int, memoryAccesses: int, complexity: string,
                             steps: seq<CountingSortStep>)
    ensures var r := CountingSortResult(finalArrayState, executionTime, comparisons, swaps,
                                        memoryAccesses, complexity, steps);
      r.finalArrayState == finalArrayState && r.executionTime == executionTime &&
      r.comparisons == comparisons && r.swaps == swaps &&
      r.memoryAccesses == memoryAccesses && r.complexity == complexity && r.steps == steps
  {
  }

  const Header: string := "Risultato: Tempo="
  const AfterTime: string := "ms, Confronti="
  const AfterComparisons: string := ", Scambi="
  const AfterSwaps: string := ", Accessi="
  const AfterAccesses: string := ", Complessità="

  /** The report `toString` builds with `String.format`. */
  function ToString(r: CountingSortResult): string {
    Header + (Decimal.Format(r.executionTime) +
    (AfterTime + (Decimal.Format(r.comparisons) +
    (AfterComparisons + (Decimal.Format(r.swaps) +
    (AfterSwaps + (Decimal.Format(r.memoryAccesses) +
    (AfterAccesses + r.complexity))))))))
  }

  /** The five values a report shows, in the order it shows them. */
  datatype Summary = Summary(executionTime: int, comparisons: int, swaps: int,
                             memoryAccesses: int, complexity: string)

  /** `s` without the leading `literal`, if it starts with it. */
  function Expect(literal: string, s: string): Option<string> {
    if |literal| <= |s| && s[..|literal|] == literal then Some(s[|literal|..]) else None
  }

  /** Reads a report back into the values it shows. */
  function ParseReport(s: string): Option<Summary> {
    var s0 :- Expect(Header, s);
    var time :- Decimal.ParseInt(s0);
    var s1 :- Expect(AfterTime, time.1);
    var comparisons :- Decimal.ParseInt(s1);
    var s2 :- Expect(AfterComparisons, comparisons.1);
    var swaps :- Decimal.ParseInt(s2);
    var s3 :- Expect(AfterSwaps, swaps.1);
    var accesses :- Decimal.ParseInt(s3);
    var complexity :- Expect(AfterAccesses, accesses.1);
    Some(Summary(time.0, comparisons.0, swaps.0, accesses.0, complexity))
  }

  lemma ExpectPrefix(literal: string, rest: string)
    ensures Expect(literal, literal + rest) == Some(rest)
  {
    assert (literal + rest)[..|literal|] == literal;
    assert (literal + rest)[|literal|..] == rest;
  }

  /**
   * The report shows time, comparisons, swaps, accesses and complexity, in
   * that order, and each can be read back exactly.
   */
  lemma ReportRoundTrip(r: CountingSortResult)
    ensures ParseReport(ToString(r)) ==
            Some(Summary(r.executionTime, r.comparisons, r.swaps, r.memoryAccesses, r.complexity))
  {
    var tail4 := AfterAccesses + r.complexity;
    var tail3 := AfterSwaps + (Decimal.Format(r.memoryAccesses) + tail4);
    var tail2 := AfterComparisons + (Decimal.Format(r.swaps) + tail3);
    var tail1 := AfterTime + (Decimal.Format(r.comparisons) + tail2);
    ExpectPrefix(Header, Decimal.Format(r.executionTime) + tail1);
    Decimal.ParseFormat(r.executionTime, tail1);
    ExpectPrefix(AfterTime, Decimal.Format(r.comparisons) + tail2);
    Decimal.ParseFormat(r.comparisons, tail2);
    ExpectPrefix(AfterComparisons, Decimal.Format(r.swaps) + tail3);
    Decimal.ParseFormat(r.swaps, tail3);
    ExpectPrefix(AfterSwaps, Decimal.Format(r.memoryAccesses) + tail4);
    Decimal.ParseFormat(r.memoryAccesses, tail4);
    ExpectPrefix(AfterAccesses, r.complexity);
  }
}
