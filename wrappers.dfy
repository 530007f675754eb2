/** The absence marker used in place of Java's `null` result. */
module Wrappers {

  /** `None` is "no selection"; `Some(v)` is the selected item `v`. */
  datatype Option<+T> = None | Some(value: T)
}
