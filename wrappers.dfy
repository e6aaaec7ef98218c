/** Option and Result: the two shapes in which the modelled code reports
    absence and failure (Rust's Option and anyhow::Result). */
module Wrappers {

  datatype Option<+T> = None | Some(value: T) {

    /** The wrapped value, or `default` when there is none
        (Rust's unwrap_or / unwrap_or_default). */
    function GetOr(default: T): T {
      match this
      case Some(v) => v
      case None => default
    }
  }

  datatype Result<+T, +E> = Success(value: T) | Failure(error: E)
}
