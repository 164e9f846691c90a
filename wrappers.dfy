/** Optional values, for the places where the system answers "nothing" (Python's None). */
module Wrappers {

  datatype Option<+T> = None | Some(value: T)
}
