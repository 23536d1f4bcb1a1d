/** Optional values, standing for Python's `None` results and `-1` sentinels. */
module Wrappers {

  datatype Option<+T> = None | Some(value: T)

}
