/** The optional-value datatype used for the form's emitted batch. */
module Wrappers {

  /** `Some(v)` when a value was produced, `None` otherwise. */
  datatype Option<+T> = None | Some(value: T)
}
