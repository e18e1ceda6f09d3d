/** Option and Result values for the shell's optional values and error returns. */
module Wrappers {

  datatype Option<+T> = None | Some(value: T)

  /** A value or an error message, as the shell's `anyhow::Result`. */
  datatype Result<+T> = Ok(value: T) | Err(error: string)
}
