/** Optional values: the model's stand-in for `std::string::npos` and for an empty `std::any`. */
module Wrappers {

  datatype Option<+T> = None | Some(value: T)
}
