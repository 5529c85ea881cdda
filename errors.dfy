/** The crate's error values (`crate::errors::Error`) and the `Result`
    every fallible operation returns. */
module Errors {
  import opened Sri

  /** The kind carried by an I/O error. */
  datatype IoKind = FileNotFound | AlreadyExists | OtherIo

  datatype Error =
    | NotFound                                                  // no index entry for the key
    | IntegrityError                                            // data failed its integrity check
    | SizeError                                                 // written size differs from the expected size
    | IntegrityCheckError(expected: Integrity, found: Integrity) // linker digest rejected by the expected integrity
    | SizeMismatch(wanted: nat, actual: nat)                    // linker read count differs from the expected size
    | Io(kind: IoKind)

  datatype Result<+T> = Ok(value: T) | Err(error: Error)
}
