/** Results of operations that may be absent or may raise. */
module Outcomes {

  /** A value that may be missing. */
  datatype Option<+T> = None | Some(value: T)

  /** The outcome of a call that either returns a value or raises an exception;
      `message` is what `str(e)` of the exception yields. */
  datatype Outcome<+T> = Done(value: T) | Raised(message: string)
}
