/** Optional values: Python's `str | None` results become Option<string>. */
module Wrappers {

  datatype Option<+T> = None | Some(value: T)
}
