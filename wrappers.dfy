/** Optional values, used wherever the source returns `std::optional`, a NULL pointer or a sentinel. */
module Wrappers {

  datatype Option<+T> = None | Some(value: T)
}
