/** Optional values: an `href` attribute that is absent, a search that finds nothing. */
module Optional {

  datatype Option<+T> = None | Some(value: T)
}
