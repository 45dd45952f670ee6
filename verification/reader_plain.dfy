/** The plain reader's window convention: a reader exposes a run of
    512-byte sectors of its store, and the window (0, 0) stands for the
    whole store rather than for nothing. */
module ReaderPlain {
  import opened Wrappers
  import opened Bytes
  import opened Layout
  import opened Storage

  /** The part of the store a reader exposes. */
  datatype Window = WholeFile | Lbas(start: u32, len: u32)

  datatype Reader = Reader(file: RefFile, window: Window)

  /** `reader_plain_open`. Whether the reader can be set up at all is not
      visible from its interface, so `setUp` says it; a failure is NULL. */
  function ReaderPlainOpen(file: RefFile, lbaStart: u32, lbaLen: u32, setUp: bool): (r: Option<Reader>)
    ensures r.None? <==> !setUp
    ensures r.Some? ==> r.value.file == file
    ensures r.Some? ==> (r.value.window.WholeFile? <==> lbaStart == 0 && lbaLen == 0)
    ensures r.Some? && r.value.window.Lbas? ==> r.value.window == Lbas(lbaStart, lbaLen)
  {
    if !setUp then None
    else if lbaStart == 0 && lbaLen == 0 then Some(Reader(file, WholeFile))
    else Some(Reader(file, Lbas(lbaStart, lbaLen)))
  }

  /** The half-open byte range `[lo, hi)` a window covers in a store of
      `fileSize` bytes. */
  function ByteRange(w: Window, fileSize: nat): (r: (nat, nat))
  {
    match w
    case WholeFile => (0, fileSize)
    case Lbas(start, len) => (LbaToBytes(start as int), LbaToBytes(start as int + len as int))
  }

  /** The byte at offset `b` of the store is inside the window. */
  predicate InWindow(w: Window, fileSize: nat, b: nat) {
    ByteRange(w, fileSize).0 <= b < ByteRange(w, fileSize).1
  }

  /** What a freshly opened reader covers: with (0, 0) every byte of the
      store; otherwise exactly the sectors `lbaStart` up to but excluding
      `lbaStart + lbaLen`, so a zero length with a non-zero start covers
      nothing. Both ends are at most 2^33 sectors, so the byte offsets fit
      easily in a 64-bit file offset. */
  lemma OpenedWindowCovers(file: RefFile, lbaStart: u32, lbaLen: u32, fileSize: nat, b: nat)
    requires ReaderPlainOpen(file, lbaStart, lbaLen, true).Some?
    ensures var w := ReaderPlainOpen(file, lbaStart, lbaLen, true).value.window;
      && (lbaStart == 0 && lbaLen == 0 ==> (InWindow(w, fileSize, b) <==> b < fileSize))
      && (!(lbaStart == 0 && lbaLen == 0) ==>
            && (InWindow(w, fileSize, b) <==> lbaStart as int * 512 <= b < (lbaStart as int + lbaLen as int) * 512)
            && ByteRange(w, fileSize).1 - ByteRange(w, fileSize).0 == lbaLen as int * BLOCK_SIZE
            && ByteRange(w, fileSize).1 < 0x1_0000_0000_0000_0000)
  {
  }

  /** The one window that is not read literally: taken as a plain LBA range,
      (0, 0) would cover no byte at all, yet the reader it opens covers the
      whole store. */
  lemma ZeroWindowIsWholeFile(file: RefFile, fileSize: nat)
    requires fileSize > 0
    ensures !InWindow(Lbas(0, 0), fileSize, 0)
    ensures InWindow(ReaderPlainOpen(file, 0, 0, true).value.window, fileSize, 0)
  {
  }
}
