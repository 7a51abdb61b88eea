/** Optional values: the model's stand-in for a Python call that may raise. */
module Wrappers {

  datatype Option<+T> = None | Some(value: T)
}
