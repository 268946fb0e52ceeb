/** Absent-or-present values and success-or-failure outcomes, used in place of Java's
    null and of thrown exceptions. */
module Wrappers {

  /** `None` stands for a Java null. */
  datatype Option<+T> = None | Some(value: T)

  /** `Err` stands for an exception thrown out of a call. */
  datatype Result<+T, +E> = Ok(value: T) | Err(error: E)
}
