/** The Rust result shapes the cover-tree code returns, as Dafny datatypes. */
module Wrappers {

  /** Rust's `Option`: a value that may be absent. */
  datatype Option<+T> = None | Some(value: T) {

    /** Rust's `unwrap_or`: the held value, or `default` when there is none. */
    function GetOr(default: T): T {
      match this
      case Some(v) => v
      case None => default
    }
  }

  /** A success value or an error (Rust's `Result<T, E>`). */
  datatype Result<+T, +E> = Ok(value: T) | Err(error: E)

  /** A success without a value or an error (Rust's `Result<(), E>`). */
  datatype Outcome<+E> = Pass | Fail(error: E)
}

/** The error kinds the node and the caches report. */
module Errors {

  datatype Error =
    /** A second nesting was attempted on a routing node. */
    | DoubleNest
    /** A routing child was inserted into a node that is still a leaf. */
    | InsertBeforeNest
    /** The point store could not compute a distance (an index it cannot resolve). */
    | MetricFailure
}
