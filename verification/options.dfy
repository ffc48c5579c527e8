/** Optional values, standing for JavaScript's `undefined` where a value may be absent. */
module Options {

  datatype Option<+T> = None | Some(value: T)
}
