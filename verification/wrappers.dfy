/** Optional values: a field that may be missing from a decoded message, or
    a JavaScript destructuring that may bind `undefined`. */
module Wrappers {

  datatype Option<+T> = None | Some(value: T)
}
