/** Optional results: the model's rendering of the source's `null` returns
    and of exceptions that a caller catches and turns into `null`. */
module Wrappers {

  datatype Option<+T> = None | Some(value: T)
}
