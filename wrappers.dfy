/** Optional values, used for SQL rows that may be absent and parses that may fail. */
module Wrappers {

  datatype Option<+T> = None | Some(value: T)
}
