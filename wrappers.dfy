/** Option and Result values used for Python's "not found" sentinels and raised exceptions. */
module Wrappers {

  datatype Option<+T> = None | Some(value: T) {
    /** The wrapped value, or `default` when there is none (like `dict.get(key, default)`). */
    function GetOr(default: T): T {
      match this
      case Some(v) => v
      case None => default
    }
  }

  /** `Failure(e)` stands for an exception `e` raised by the modelled code. */
  datatype Result<+R, +E> = Success(value: R) | Failure(error: E)
}
