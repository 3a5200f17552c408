/** Optional values, shared by the modules of the model. */
module Options {

  /** An optional value; the query string's `uri` entry is absent (null) or present. */
  datatype Option<+T> = None | Some(value: T)
}
