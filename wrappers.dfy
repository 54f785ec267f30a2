/** Optional values: the model of a value that may be `undefined` in the client. */
module Wrappers {

  datatype Option<+T> = None | Some(value: T)
}
