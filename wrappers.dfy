/** Optional values: a JavaScript `undefined`/missing value is `None`. */
module Wrappers {
  datatype Option<+T> = None | Some(value: T)
}
