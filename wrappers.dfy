/** Java's nullable references, written as an explicit optional value. */
module Wrappers {

  /** `None` stands for Java's `null` (or an empty `Optional`). */
  datatype Option<+T> = None | Some(value: T)
}
