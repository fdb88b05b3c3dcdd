/** Optional values, for the original's null and undefined results. */
module Options {
  datatype Option<+T> = None | Some(value: T)
}
