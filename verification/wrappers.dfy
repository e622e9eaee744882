/** Optional values, used for the absent user, a failed lookup and a failed parse. */
module Wrappers {

  datatype Option<+T> = None | Some(value: T)

}
