/** Optional values: a persona record's `male` / `female` entry, the persona the
    user has selected. */
module Wrappers {

  datatype Option<+T> = None | Some(value: T)
}
