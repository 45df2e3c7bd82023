/** Optional values, standing for Java's `Optional`/`null` and Python's `None`. */
module Wrappers {

  datatype Option<+T> = None | Some(value: T)
}
