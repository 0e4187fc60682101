/** Optional values, standing for PHP's nullable fields and for "no match". */
module Wrappers {

  datatype Option<+T> = None | Some(value: T)
}
