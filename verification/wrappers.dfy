/** Optional values: the model's stand-in for Go's zero `time.Time` (an unset
    end date), for SQL NULL and for a missing predecessor. */
module Wrappers {

  datatype Option<+T> = None | Some(value: T)
}
