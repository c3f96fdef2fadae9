/** Option, Result and Either: the failure-compatible values the emulator code returns. */
module Wrappers {

  /** Rust's Option. */
  datatype Option<+T> = None | Some(value: T) {

    /** Option::or: this value if present, otherwise the other one. */
    function Or(other: Option<T>): Option<T> {
      if Some? then this else other
    }
  }

  /** Rust's Result, with the error kept as a value. */
  datatype Result<+T, +E> = Ok(value: T) | Err(error: E) {

    /** Result::unwrap_or: the success value, or the fallback on any error. */
    function UnwrapOr(fallback: T): T {
      if Ok? then value else fallback
    }
  }

  /** yazi_shared::Either: a value of one of two types. */
  datatype Either<+L, +R> = Left(left: L) | Right(right: R)
}
