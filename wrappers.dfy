/** Optional values: `None` stands for a Python exception (a `ValueError` from `int()`) that aborts the call. */
module Wrappers {

  datatype Option<+T> = None | Some(value: T)

}
