/** Failure-compatible optional value, used where the engine may have no answer. */
module Wrappers {

  /** `None` stands for the source's `null` (no value at this index). */
  datatype Option<+T> = None | Some(value: T)
}
