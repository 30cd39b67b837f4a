/** The optional value used for `Option<T>` results in the game code. */
module Options {

  datatype Option<+T> = None | Some(value: T)
}
