/** An optional value, used where a parser may reject its input. */
module Options {

  datatype Option<+T> = None | Some(value: T)

}
