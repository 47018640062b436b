/** Optional values: a page element that may be missing, a recipient that may be unset. */
module Wrappers {

  datatype Option<+T> = None | Some(value: T)
}
