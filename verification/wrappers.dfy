/** Failure-carrying result types shared by every module of the model. */
module Wrappers {

  /** A value that may be absent: JavaScript's `undefined` / `null`. */
  datatype Option<+T> = None | Some(value: T)

  /** The value, or `d` when there is none: JavaScript's `o ?? d`. */
  function GetOr<T>(o: Option<T>, d: T): T {
    match o
    case Some(v) => v
    case None => d
  }

  /** The outcome of an operation that can throw: `Err` carries the error message. */
  datatype Result<+R> = Ok(value: R) | Err(error: string)
}
