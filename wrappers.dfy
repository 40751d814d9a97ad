/** Optional values: a JavaScript argument or property that may be missing. */
module Wrappers {

  datatype Option<+T> = None | Some(value: T)
}
