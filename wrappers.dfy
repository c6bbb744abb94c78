/** Optional values, used wherever the source signals absence with `false`. */
module Wrappers {

  datatype Option<+T> = None | Some(value: T)

}
