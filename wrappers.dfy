/** Optional values and results with an error, used wherever the analyzer
    works with a value that may be missing or a step that may raise, and the
    integer value of a truth value. */
module Wrappers {

  /** A value that may be absent (Python's `None`, a pandas null). */
  datatype Option<+T> = None | Some(value: T) {
    function GetOr(default: T): T {
      match this
      case Some(v) => v
      case None => default
    }
  }

  /** The outcome of a step that either produces a value or raises. */
  datatype Result<+R, +E> = Success(value: R) | Failure(error: E)

  /** Python's `int(b)`: 1 for true, 0 for false. */
  function Bit(b: bool): nat {
    if b then 1 else 0
  }
}
