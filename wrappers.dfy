/** The nullable result of the Kotlin code (`T?`). */
module Wrappers {
  datatype Option<T> = None | Some(value: T)
}
