/** Optional results, standing for Swift's `T?`: absence is a normal outcome, not an error. */
module Wrappers {

  datatype Option<+T> = None | Some(value: T)
}
