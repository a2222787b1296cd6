/** A cell of a numeric column: a value, or undefined (a NaN or an unparseable entry). */
module Options {

  datatype Option<+T> = None | Some(value: T)

}
