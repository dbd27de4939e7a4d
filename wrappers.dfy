/** Optional values and pass/fail outcomes, standing in for Java's nullable references and exceptions. */
module Wrappers {

  datatype Option<+T> = None | Some(value: T)

  /** The outcome of an operation that either completes or is rejected with an error. */
  datatype Outcome<+E> = Pass | Fail(error: E)
}
