/** Optional values: nullable columns, absent members, lookups that may fail. */
module Options {
  datatype Option<T> = None | Some(value: T)
}
