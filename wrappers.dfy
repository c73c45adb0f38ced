/** A value that may be absent, as JavaScript's `null` initial state and lookups that may miss. */
module Wrappers {
  datatype Option<+T> = None | Some(value: T)
}
