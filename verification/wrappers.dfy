/** Failure-carrying datatypes shared by the other modules: an optional value
    (Rust's `Option`) and a value-or-error result (Rust's `Result`). */
module Wrappers {

  datatype Option<+T> = None | Some(value: T)

  datatype Result<+R, +E> = Success(value: R) | Failure(error: E)
}
