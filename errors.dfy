/** Outcomes of the augmentation transforms: a value, or the Python exception a call raises. */
module Errors {

  /** Why a call raised, one constructor per raise site. */
  datatype Reason =
    | StartOutOfRange        // Crop: `start` lies beyond the sample
    | StartOrLengthNegative  // Crop: `start` or `length` is negative
    | LengthNegative         // RandomCrop: `length` is negative
    | LengthTooLarge         // RandomCrop: the sample is shorter than `length`
    | EmptyDrawRange         // numpy.random.randint(low, high) with low >= high
    | NegativePadWidth       // numpy.pad given a negative pad width
    | EmptyAxisWrap          // numpy.pad in 'wrap' mode asked to extend an empty array
    | NegativeDimension      // numpy.zeros given a negative size

  /** The Python exception class raised, with the reason. */
  datatype Error = IndexError(reason: Reason) | ValueError(reason: Reason)

  /** Either the value a call returns or the exception it raises. */
  datatype Result<+T> = Ok(value: T) | Err(error: Error) {

    predicate IsFailure() {
      Err?
    }

    function PropagateFailure<U>(): Result<U>
      requires Err?
    {
      Err(error)
    }

    function Extract(): T
      requires Ok?
    {
      value
    }
  }
}
