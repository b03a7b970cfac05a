/** Optional values, standing in for Swift's `T?`. */
module Wrappers {

  /** `None` is Swift's `nil`; `Some(v)` a present value. */
  datatype Option<+T> = None | Some(value: T) {

    /** The `??` operator: the wrapped value, or `default` for `nil`. */
    function GetOr(default: T): T {
      match this
      case Some(v) => v
      case None => default
    }
  }
}
