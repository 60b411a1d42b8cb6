/** A nullable reference: `None` plays the part of a NULL pointer. */
module Options {

  datatype Option<+T> = None | Some(value: T)
}
