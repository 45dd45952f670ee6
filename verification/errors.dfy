/** Result codes. The library returns 0 on success, a negated POSIX errno
    for an operating-system failure, and a positive `RvtH_Errors` value for
    a failure of its own; the three kinds are kept apart here. */
module Errors {

  /** A POSIX error number. Every one is positive, so its negation can
      never be mistaken for the success code 0. */
  type Errno = e: nat | e > 0 witness 5

  /** POSIX error numbers the model returns, with their Linux values. */
  const EIO: Errno := 5
  const EINVAL: Errno := 22
  const ERANGE: Errno := 34

  /** The `RvtH_Errors` values the write-back path can return. */
  datatype RvthError =
    | NotADevice    // writable promotion asked of a plain file
    | NotHddImage   // table operation on a standalone disc image
    | BankUnknown   // the bank type has no on-disk magic
    | BankDl2       // the second bank of a dual-layer image

  /** `Ok` is 0, `Posix(e)` is `-e`, `Rvth(err)` is the positive code. */
  datatype Status = Ok | Posix(errno: Errno) | Rvth(err: RvthError)

  /** The errno an I/O failure reports: `errno` itself, or `EIO` when the
      failing call left it at 0, so that a failure never reads as success. */
  function ErrnoOrEio(errno: nat): (e: Errno)
    ensures errno != 0 ==> e == errno
    ensures errno == 0 ==> e == EIO
  {
    if errno == 0 then EIO else errno
  }
}
