/** Failure-carrying return types: PHP exceptions become `Failure`/`Fail` values. */
module Wrappers {

  datatype Option<+T> = None | Some(value: T)

  datatype Result<+R, +E> = Success(value: R) | Failure(error: E)

  /** The outcome of a PHP method returning `void`: it either returns or throws. */
  datatype Outcome<+E> = Pass | Fail(error: E)
}
