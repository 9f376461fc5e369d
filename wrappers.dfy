/** Optional values and pass/fail outcomes, used where the JavaScript source
    has `undefined` and thrown errors. */
module Wrappers {

  /** `None` stands for JavaScript's `undefined`. */
  datatype Option<+T> = None | Some(value: T)

  /** The outcome of an operation that may throw: `Fail` carries the error. */
  datatype Outcome<+E> = Pass | Fail(error: E)
}
