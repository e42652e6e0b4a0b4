/** Optional values: a result that may be missing, or an error that may not have happened. */
module Wrappers {

  datatype Option<+T> = None | Some(value: T)
}
