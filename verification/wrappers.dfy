/** Failure-compatible result types shared by every module of the model. */
module Wrappers {

  datatype Option<+T> = None | Some(value: T) {

    /** The wrapped value, or `default` when there is none. */
    function GetOr(default: T): T {
      match this
      case Some(v) => v
      case None => default
    }
  }

  /** The source's `Result<T, Box<dyn Error>>`. */
  datatype Result<+T, +E> = Success(value: T) | Failure(error: E)
}
