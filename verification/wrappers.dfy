/** Optional values: an element lookup that may find nothing, a string that may not name a section. */
module Wrappers {

  datatype Option<+T> = None | Some(value: T)
}
