/** Optional values: `None` stands for a value the program could not obtain. */
module Wrappers {
  datatype Option<+T> = None | Some(value: T)
}
