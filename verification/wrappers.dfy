/** Optional values: the model's stand-in for SQL NULL and for absent or
    undefined JSON fields. */
module Wrappers {

  datatype Option<+T> = None | Some(value: T)
}
