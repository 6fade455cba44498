/** Optional values, used where the source has `undefined` or an absent parameter. */
module Wrappers {

  datatype Option<+T> = None | Some(value: T)
}
