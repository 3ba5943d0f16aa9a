/** Optional values: a JavaScript `undefined` or missing field is `None`. */
module Wrappers {
  datatype Option<+T> = None | Some(value: T)
}
