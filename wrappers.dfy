/** Small result types shared by the whole model. */
module Wrappers {

  /** Rust's `Option`. */
  datatype Option<+T> = None | Some(value: T) {
    /** `Option::unwrap_or`. */
    function GetOr(default: T): T {
      match this
      case Some(v) => v
      case None => default
    }

    /** `Option::or`: this value if present, otherwise `other`. */
    function Or(other: Option<T>): Option<T> {
      if Some? then this else other
    }
  }

  /**
   * The outcome of a computation that may panic. The source indexes past a
   * table, slices with reversed bounds or overflows an unsigned subtraction
   * in a few places; in a debug build each of these aborts the caller, which
   * the model records as `Panicked` instead of a value.
   */
  datatype Outcome<+T> = Value(value: T) | Panicked
}
