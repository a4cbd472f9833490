/** Optional values, standing for Java's Optional and for nullable fields. */
module Wrappers {

  datatype Option<+T> = None | Some(value: T)
}
