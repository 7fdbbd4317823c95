/** The optional value used throughout the model: a parent that may be missing,
    an active heading id that may still be undefined. */
module Options {

  datatype Option<+T> = None | Some(value: T)
}
