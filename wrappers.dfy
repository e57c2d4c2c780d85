/** Optional values, for JavaScript's `undefined`/`null` and empty timer slots. */
module Wrappers {
  datatype Option<+T> = None | Some(value: T)
}
