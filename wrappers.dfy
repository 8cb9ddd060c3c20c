/** Option and Result datatypes: `None` stands for JavaScript's `undefined`/`NaN`,
    `Failure` for an exception that aborts the call. */
module Wrappers {

  datatype Option<+T> = None | Some(value: T)

  datatype Result<+R, +E> = Success(value: R) | Failure(error: E)
}
