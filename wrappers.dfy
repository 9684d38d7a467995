/** Optional values, used for "the gate did not open" and "not a warning sentence". */
module Wrappers {

  datatype Option<+T> = None | Some(value: T)
}
