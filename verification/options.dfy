/** The optional value used for the "skip this file" and "no such row" outcomes. */
module Options {

  datatype Option<+T> = None | Some(value: T)

}
