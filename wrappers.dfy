/** Optional values: a record the store did not find, a field that is null or absent. */
module Wrappers {

  datatype Option<+T> = None | Some(value: T)
}
