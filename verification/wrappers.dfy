/** Optional values and results with an error, the two shapes the model uses
    in place of Python's `None` and of an exception escaping a call. */
module Wrappers {

  /** `None` stands for Python's `None` (or any falsy value the source tests with `if x:`). */
  datatype Option<+T> = None | Some(value: T)

  /** `Err` stands for an exception the source does not catch. */
  datatype Result<+T, +E> = Ok(value: T) | Err(error: E)
}
