/** Optional values, standing in for the nullable pointers of the translator. */
module Wrappers {

  datatype Option<+T> = None | Some(value: T)
}
