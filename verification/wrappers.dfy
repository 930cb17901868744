/** Optional values, used where the program returns "nothing" or a value. */
module Wrappers {

  datatype Option<+T> = None | Some(value: T)
}
