/** Failure-compatible wrapper used for the source's missing values and raised errors. */
module Wrappers {

  /** `None` stands for a pandas NaN, a missing key or an operation that raises. */
  datatype Option<+T> = None | Some(value: T)
}
