/**
 Outcomes shared by every part of the file-browser model: an optional value,
 the error kinds the filesystem calls report, and the places where the
 program would panic (an `unwrap` on a missing value or a checked integer
 operation that leaves its type's range).
 */
module Base {

  datatype Option<T> = None | Some(value: T)

  /** Where a debug build of the program aborts. */
  datatype PanicSite =
    | U16Underflow      // a `u16` subtraction below zero
    | U16Overflow       // a `u16` addition above 65535
    | UsizeUnderflow    // a `usize` subtraction below zero
    | UnwrapNone        // `unwrap` on a missing value or an error

  /** The `std::io::ErrorKind`s the model distinguishes. */
  datatype IoKind =
    | NotFound
    | AlreadyExists
    | NotADirectory
    | IsADirectory
    | NotAFile          // copy source is not (a link to) a regular file
    | Injected          // a failure the environment chose (disk full, permission, ...)

  datatype Error = Io(kind: IoKind) | Panic(site: PanicSite)

  datatype Result<T> = Ok(value: T) | Err(error: Error)

  /** The `std::io::Result<()>` of an operation whose effects are returned beside it. */
  datatype Status = Done | Failed(error: Error)

  const U16_MAX: nat := 65535
}
