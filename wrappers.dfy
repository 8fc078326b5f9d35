/** Option and Result, as the Rust code uses them (`Option<&Path>`, `anyhow::Result`). */
module Wrappers {

  datatype Option<+T> = None | Some(value: T)

  /** An `anyhow::Result`: either a value or the text of the error. */
  datatype Result<+T> = Ok(value: T) | Err(error: string)
}
