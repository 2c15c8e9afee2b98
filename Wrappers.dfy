/** Optional values: pandas' NaN ("missing") is `None`. */
module Wrappers {

  datatype Option<+T> = None | Some(value: T)
}
