/** Optional values: a Python `Optional[...]` / a value that may be `None`. */
module Wrappers {

  datatype Option<+T> = None | Some(value: T)
}
