/** The optional value used throughout the model in place of Go's `nil`. */
module Wrappers {

  /** `None` stands for a nil `interface{}`; `Some(v)` for a non-nil value `v`. */
  datatype Option<+T> = None | Some(value: T)
}
