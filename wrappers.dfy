/** Option and Result values, and the error taxonomy of trx-core (crates/trx-core/src/error.rs). */
module Wrappers {

  datatype Option<T> = None | Some(value: T)

  /** The variants of trx-core's `Error` that the modelled operations can return. */
  datatype Error =
    | NotFound(id: string)
    | AlreadyExists(id: string)
    | InvalidStatus(text: string)
    | InvalidType(text: string)
    | Json(line: string)
    | Other(message: string)

  datatype Result<T> = Ok(value: T) | Err(error: Error)

  /** `Result<()>`: success carries no value. */
  datatype Outcome = Pass | Fail(error: Error)

  /** Machine integer ranges of the source. */
  type u8 = x: nat | x < 0x100
  type u32 = x: nat | x < 0x1_0000_0000
}
