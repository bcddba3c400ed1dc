/** Optional values. */
module Wrappers {

  /** An optional value; `None` stands for Go's nil submatch slice. */
  datatype Option<T> = None | Some(value: T)
}
