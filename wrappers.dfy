/** Option, used where the store's `.single()` / `.maybeSingle()` return a row or nothing. */
module Wrappers {
  datatype Option<+T> = None | Some(value: T)
}
