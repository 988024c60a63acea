/** The two shapes the script's data takes besides plain values: a CSV cell
    that may be missing (`Option`) and a step that either yields a value or
    raises one of the script's errors (`Result`). */
module Wrappers {

  datatype Option<+T> = None | Some(value: T) {

    /** The value, or `default` when there is none (Python's `x or default`). */
    function GetOr(default: T): T {
      match this
      case Some(v) => v
      case None => default
    }
  }

  datatype Result<+R, +E> = Success(value: R) | Failure(error: E)
}
