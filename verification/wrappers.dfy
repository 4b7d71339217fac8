/** Optional values: PHP's nullable fields and arguments. */
module Wrappers {

  datatype Option<+T> = None | Some(value: T)
}
