/** The optional value used throughout the model in place of a Java
    reference that may be null. */
module Wrappers {

  /** `None` stands for `null`; `Some(v)` for a non-null reference to `v`. */
  datatype Option<+T> = None | Some(value: T)
}
