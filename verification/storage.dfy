/** The backing store behind an RVT-H handle (`RefFile`) and the
    operating-system outcomes the model takes as parameters instead of
    performing I/O. */
module Storage {
  import opened Bytes
  import opened Errors

  /** An open file or device: its writability, whether it is a device
      (only devices can be promoted to writable), and its contents as a map
      from LBA to the 512 bytes of that sector. */
  datatype RefFile = RefFile(writable: bool, isDevice: bool, sectors: map<nat, seq<byte>>)

  /** Outcome of one seek or write call: it completed, or it failed and
      left the global `errno` at the given value (possibly 0). A write that
      transfers fewer bytes than asked is a failure. */
  datatype IoResult = Done | Failed(errno: nat)

  /** What the operating system answers during one write-back: the code
      `ref_make_writable` returns, then the seek, then the write. */
  datatype Os = Os(promote: Status, seek: IoResult, write: IoResult)
}
