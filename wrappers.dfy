/** Failure-compatible result types used throughout the model. */
module Wrappers {

  datatype Option<+T> = None | Some(value: T)

  /** `Fatal` stands for a call to `log.Fatal`: the process stops and nothing after it happens. */
  datatype Result<+T, +E> = Ok(value: T) | Fatal(error: E) {
    predicate IsFailure() { Fatal? }

    function PropagateFailure<U>(): Result<U, E>
      requires Fatal?
    {
      Fatal(error)
    }

    function Extract(): T
      requires Ok?
    {
      value
    }
  }
}
