/** Optional values and results with an error, for cells that may be missing
    and for steps that stop on a missing column. */
module Wrappers {

  /** A value that may be missing: None stands for a NaN cell of the source. */
  datatype Option<+T> = None | Some(value: T) {

    /** The value, or the given default when missing (the source's fillna). */
    function GetOr(default: T): T {
      match this
      case Some(v) => v
      case None => default
    }
  }

  /** The outcome of a step that either yields a value or stops with an error. */
  datatype Result<+R, +E> = Success(value: R) | Failure(error: E)
}
