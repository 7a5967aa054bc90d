/** The optional value returned by Java's `Optional` and by lookups that may miss. */
module Wrappers {
  datatype Option<+T> = None | Some(value: T)
}
