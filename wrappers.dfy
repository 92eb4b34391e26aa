/** Optional values, used for the nullable fields of the panels and for
    operations of the browser that throw instead of returning. */
module Wrappers {
  datatype Option<T> = None | Some(value: T)
}
