/** Optional values: the model's stand-in for `null`, `undefined` and the props
    that may be absent. */
module Wrappers {

  datatype Option<+T> = None | Some(value: T)
}
