/** Optional values: the model of the source's `undefined` / `null` results. */
module Wrappers {

  datatype Option<+T> = None | Some(value: T)
}
