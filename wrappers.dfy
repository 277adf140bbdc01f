/** Optional values, used where the modelled code can stop without a result. */
module Wrappers {

  datatype Option<+T> = None | Some(value: T)
}
