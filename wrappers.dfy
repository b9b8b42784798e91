/** Optional values: a missing DOM element, a failed match, a `null` number. */
module Wrappers {

  datatype Option<+T> = None | Some(value: T)
}
