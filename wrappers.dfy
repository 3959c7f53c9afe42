/** Optional values: the model of Kotlin's nullable types (`T?`). */
module Wrappers {

  /** `None` stands for Kotlin's `null`. */
  datatype Option<+T> = None | Some(value: T)
}
