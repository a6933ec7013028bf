/** The optional value used where the scripts return None or a value. */
module Options {

  datatype Option<T> = None | Some(value: T)

}
