/** The optional-value type shared by the other modules. */
module Options {

  /** A value that may be absent; the model's stand-in for a Python call that either
      returns a value or raises a recoverable error. */
  datatype Option<+T> = None | Some(value: T)
}
