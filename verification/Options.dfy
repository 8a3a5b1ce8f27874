/** What a search may come to. */
module Options {

  datatype Option<+T> = None | Some(value: T)
}
