/** Failure-compatible results shared by every model. */
module Wrappers {
  datatype Option<+T> = None | Some(value: T)

  /** What a translation yields: a result, or the refusal the source throws. */
  datatype Translation<+T> = Done(result: T) | Refused {
    predicate IsFailure() {
      Refused?
    }

    function PropagateFailure<U>(): Translation<U>
      requires Refused?
    {
      Refused
    }

    function Extract(): T
      requires Done?
    {
      result
    }
  }
}
