/** Shared value types: the absent-or-present value the Objective-C API expresses with `nil`. */
module Common {

  /** `None` stands for a `nil` result, `Some(v)` for an object. */
  datatype Option<+T> = None | Some(value: T)
}
