/** Optional values and results with an error, as the pipeline's records and stages need them. */
module Wrappers {

  /** A value that may be missing: an absent JSON key, an empty CSV cell (NaN). */
  datatype Option<T> = None | Some(value: T) {

    /** The value, or `default` when it is missing (`dict.get(key, default)`, `fillna(default)`). */
    function GetOr(default: T): T {
      match this
      case Some(v) => v
      case None => default
    }
  }

  /** The outcome of a stage that can stop the run. */
  datatype Result<T, E> = Success(value: T) | Failure(error: E)
}
