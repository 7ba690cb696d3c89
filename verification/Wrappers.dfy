/** Optional values: JavaScript's `null` / `undefined` / "missing" collapsed into one sum type. */
module Wrappers {

  datatype Option<+T> = None | Some(value: T)
}
