/** The optional value the engine uses for "no top piece" and "no explicit carries". */
module Options {
  datatype Option<T> = None | Some(value: T)
}
