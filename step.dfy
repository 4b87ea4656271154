/**
 * One recorded instant of a counting-sort run (CountingSortStep.java).
 * A datatype value: every field is fixed at construction, and the
 * destructors are the record's getters.
 */
module Steps {

  /** The "no index" sentinel the engine puts in an index field that does not apply. */
  const NoIndex: int := -1

  /**
   * What a step narrates. The source builds an Italian sentence around the
   * numbers listed here; the model keeps the kind of operation and those
   * numbers, and not the wording.
   */
  datatype Description =
    | Start                                  // the run begins
    | CheckElement(value: int)               // element inspected while looking for the maximum
    | NewMaximum(value: int)                 // a strictly larger maximum was found
    | CountTableCreated(size: int)           // frequency table of the given size allocated
    | CountElement(value: int)               // frequency of `value` incremented
    | CountingDone                           // end of the counting phase
    | PlaceElement(value: int, position: int) // `value` written at `position` of the output
    | Completed                              // the output is complete

  /**
   * `arrayState` is a sequence value: whoever builds a step hands over a
   * copy, and nothing done to an array later can change it.
   * `isStateChange` marks a structural milestone as opposed to a
   * fine-grained operation. The Java counters and timestamp are `long`;
   * the counters stay below 3 * 2^31, so no wrap-around is modelled.
   */
  datatype CountingSortStep = CountingSortStep(
    algorithm: string,
    description: Description,
    primaryIndex: int,
    secondaryIndex: int,
    timestamp: int,
    comparisons: int,
    swaps: int,
    memoryAccesses: int,
    arrayState: seq<int>,
    isStateChange: bool)

  /** Reading a step back returns every argument it was built from. */
  lemma ConstructorRoundTrip(algorithm: string, description: Description, primaryIndex: int,
                             secondaryIndex: int, timestamp: int, comparisons: int, swaps: int,
                             memoryAccesses: int, arrayState: seq<int>, isStateChange: bool)
    ensures var s := CountingSortStep(algorithm, description, primaryIndex, secondaryIndex, timestamp,
                                      comparisons, swaps, memoryAccesses, arrayState, isStateChange);
      s.algorithm == algorithm && s.description == description &&
      s.primaryIndex == primaryIndex && s.secondaryIndex == secondaryIndex &&
      s.timestamp == timestamp && s.comparisons == comparisons && s.swaps == swaps &&
      s.memoryAccesses == memoryAccesses && s.arrayState == arrayState &&
      s.isStateChange == isStateChange
  {
  }
}
