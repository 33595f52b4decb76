/** Optional values: the catalog's nullable columns and the registry's lookup result. */
module Options {
  datatype Option<+T> = None | Some(value: T)
}
