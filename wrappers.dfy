/** Optional values: the "no match" of a lookup and the "could not parse" of a text field. */
module Wrappers {
  datatype Option<+T> = None | Some(value: T)
}
