/** Failure-carrying results shared by the router state modules. */
module Wrappers {

  /** An optional value. */
  datatype Option<+T> = None | Some(value: T)

  /** Which bounds-checked lookup failed. Both are `std::out_of_range` in C++:
      `IndexOutOfRange` from `std::vector::at`, `KeyNotFound` from `dict::at`. */
  datatype Error = IndexOutOfRange | KeyNotFound

  /** The value of a lookup, or the exception it throws. */
  datatype Result<+T> = Ok(value: T) | Fail(error: Error)

  /** The outcome of a `void` operation that may throw. */
  datatype Outcome = Pass | Abort(error: Error)
}
