/** Optional values: a missing cell in the survey table is `None`. */
module Wrappers {

  datatype Option<+T> = None | Some(value: T)
}
