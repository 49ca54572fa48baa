/** Optional values, used where the source stores a sentinel or a nullable pointer. */
module Wrappers {

  datatype Option<+T> = None | Some(value: T)
}
