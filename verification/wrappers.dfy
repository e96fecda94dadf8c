/** Optional values: the model's stand-in for a nullable C pointer or an
    out-parameter that a call may leave unwritten. */
module Wrappers {

  datatype Option<+T> = None | Some(value: T)
}
