/** Success/failure values standing for the exceptions the modelled code raises. */
module Results {

  datatype Option<T> = None | Some(value: T)

  /** The exception classes the Python and JavaScript sources raise, by name. */
  datatype Error =
    | TypeError      // wrong argument shape, e.g. fewer than two entries
    | IndexError     // indexing past the end of a tuple or list
    | KeyError       // a dictionary lookup of a missing key
    | OverflowError  // `int.to_bytes` of a value too wide for the byte count
    | ChildError     // pytree's own "fewer than two children" error
    | SyntaxError    // the header bytes do not evaluate to a tuple
    | ValueError     // `int(s, 2)` of a string that is not binary, `max()` of nothing
    | NameError      // a name that is not defined where it is used

  datatype Result<T> = Ok(value: T) | Err(error: Error)
}
