/** Optional values, used for the two file slots of a sample. */
module Wrappers {

  /** Either no value, or exactly one value of type `T`. */
  datatype Option<+T> = None | Some(value: T)
}
