/** The optional value used throughout the model: a numeric cell that is
    missing (pandas NaN), a row that was not found, a series that was never set. */
module Wrappers {

  datatype Option<+T> = None | Some(value: T) {

    /** The value, or `fill` when it is missing, as pandas `fillna(fill)` does. */
    function ValueOr(fill: T): T {
      match this
      case Some(v) => v
      case None => fill
    }
  }

  /** An outcome that either carries a value or the reason it could not be produced. */
  datatype Result<+R, +E> = Success(value: R) | Failure(error: E)
}
