/** Optional values, standing for Python's `Optional[...]` and for a local
    variable that may still be unbound. */
module Wrappers {

  datatype Option<+T> = None | Some(value: T)

}
