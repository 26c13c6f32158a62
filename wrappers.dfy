/** Optional values: a reply that may or may not be sent, a loop that may or may not finish. */
module Wrappers {

  datatype Option<+T> = None | Some(value: T)
}
