/** Optional values, used for dictionary lookups that may miss and for inputs that may be absent. */
module Wrappers {

  datatype Option<+T> = None | Some(value: T)

}
