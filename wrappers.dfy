/** Optional values, standing for the nullable references of the navigator. */
module Wrappers {

  datatype Option<+T> = None | Some(value: T)
}
