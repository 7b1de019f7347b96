/** Optional values: a NULL pointer or a not-found result of the source. */
module Options {
  datatype Option<T> = None | Some(value: T)
}
