/** The optional value the catalogue queries and the colour parser return. */
module Options {

  datatype Option<T> = None | Some(value: T)
}
