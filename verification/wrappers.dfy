/** Optional values, used for fields a row may lack and for a rank that did not parse. */
module Wrappers {

  datatype Option<+T> = None | Some(value: T)
}
