/** Optional values, used where the source has `undefined` or an empty result. */
module Wrappers {

  datatype Option<+T> = None | Some(value: T)
}
