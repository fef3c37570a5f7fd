/** Optional values: the absent case stands for a rejected promise, a thrown error or a `null`. */
module Wrappers {
  datatype Option<+T> = None | Some(value: T)
}
