/** A value that may be missing: the `null` a lookup returns when it fails. */
module Wrappers {
  datatype Option<T> = None | Some(value: T)
}
