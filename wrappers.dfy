/** Optional values, used for nullable fields and for requests that fail. */
module Wrappers {

  datatype Option<+T> = None | Some(value: T)
}
