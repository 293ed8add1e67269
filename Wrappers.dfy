/** The optional value the store's lookups return where the source gets `null` back. */
module Wrappers {

  datatype Option<+T> = None | Some(value: T)
}
