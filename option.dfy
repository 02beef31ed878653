/** An optional value, for the source's null pointers and absent results. */
module Options {

  datatype Option<T> = None | Some(value: T)
}
