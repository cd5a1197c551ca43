/** Optional values: the source's `-1` and "not found" returns. */
module Options {
  datatype Option<+T> = None | Some(value: T)
}
