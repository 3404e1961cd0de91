/** Optional values: an environment variable that may be unset, a header that may be absent. */
module Wrappers {

  datatype Option<+T> = None | Some(value: T)

}
