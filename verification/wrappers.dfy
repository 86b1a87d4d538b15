/** The optional-value datatype used for the source's `nil`-returning operations. */
module Wrappers {

  /** `None` models Swift's `nil`; `Some(v)` a present value. */
  datatype Option<+T> = None | Some(value: T)
}
