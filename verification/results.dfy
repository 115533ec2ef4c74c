/**
 The outcome types of the frequency cutter. Every exception the cutter can
 raise on the modelled path becomes a `CutError`; an operation that can fail
 returns a `Result`, which supports Dafny's `:-` propagation.
 */
module Results {

  /** An optional command-line value: `None` is an argument left at its default. */
  datatype Option<+T> = None | Some(value: T)

  datatype CutError =
    /** `np.max`/`np.min` of a table without channels raise. */
    | EmptyFrequencyTable
    /** A requested bound at or beyond the extreme frequency on its own side. */
    | FrequencyBeyondTable
    /** Both bounds given, but the low one is not below the high one. */
    | FrequenciesOutOfOrder
    /** The defensive check on the channel count after the swap. */
    | BadChannelCount(count: int)
    /** Reading a header key that the parsed header does not hold. */
    | MissingHeaderKey(key: string)
    /** The sample body holds fewer elements than `nspec * nchan`, so the reshape fails. */
    | TruncatedData(expected: nat, available: nat)

  datatype Result<+T> = Ok(value: T) | Err(error: CutError) {

    predicate IsFailure() {
      Err?
    }

    function PropagateFailure<U>(): Result<U>
      requires Err?
    {
      Err(error)
    }

    function Extract(): T
      requires Ok?
    {
      value
    }
  }
}
