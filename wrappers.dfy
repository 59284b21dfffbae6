/** Optional values, used for the result of decoding text that may not be Base64. */
module Wrappers {

  /** Either no value, or one value of type T. */
  datatype Option<+T> = None | Some(value: T)
}
