/** Optional values: Java's nullable references and JavaScript's undefined. */
module Wrappers {

  datatype Option<+T> = None | Some(value: T)
}
