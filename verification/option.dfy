/** Optional values: `None` stands for the source's invalid rank `nrank`. */
module Options {

  datatype Option<+T> = None | Some(value: T)
}
