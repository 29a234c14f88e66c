/** The absence-or-value type used where the program may have nothing to return. */
module Options {

  datatype Option<+T> = None | Some(value: T)
}
