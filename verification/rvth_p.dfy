/** The private RVT-H handle operations: writable promotion, the
    empty-block test, and the write-back of one bank-table entry. */
module RvthPrivate {
  import opened Wrappers
  import opened Bytes
  import opened Layout
  import opened Enums
  import opened Errors
  import opened Storage

  /** ASCII '0', the filler byte of a written entry. */
  const ASCII_ZERO: byte := 0x30

  /** The timestamp field: the date digits followed by the time digits. */
  const TIMESTAMP_SIZE: nat := ENT_MDATE_SIZE + ENT_MTIME_SIZE

  /** `RvtH_BankEntry`, reduced to the fields write-back reads. The type
      is kept as the raw value the C field holds, which need not be one of
      the `RvtH_BankType_e` enumerators. */
  datatype BankEntry = BankEntry(typeValue: int, lbaStart: u32, lbaLen: u32, isDeleted: bool)
  {
    /** The enumerator the type value names, if any. */
    function Kind(): Option<BankType> {
      BankTypeOfValue(typeValue)
    }
  }

  /** `RvtH`: the backing store, the image type, and the in-memory banks. */
  datatype RvtH = RvtH(file: RefFile, imageType: ImageType, bankCount: nat, entries: seq<BankEntry>)
  {
    /** What an opened handle keeps: one in-memory entry per bank, and at
        most the eight banks of an HDD (a standalone image has one). */
    predicate Valid() {
      |entries| == bankCount <= RVTH_BANK_COUNT
    }
  }

  // ---------------------------------------------------------------------
  // Writable promotion

  /** The store after a promotion attempt, and the code it returns. */
  datatype Promotion = Promotion(file: RefFile, status: Status)

  /** `rvth_make_writable`. `promote` is what `ref_make_writable` returns
      when it is reached; a plain file is never promoted. */
  function MakeWritable(f: RefFile, promote: Status): (r: Promotion)
    ensures f.writable ==> r == Promotion(f, Ok)
    ensures !f.writable && !f.isDevice ==> r == Promotion(f, Rvth(NotADevice))
    ensures !f.writable && f.isDevice ==> r.status == promote
    ensures r.status == Ok ==> r.file.writable
    ensures r.status != Ok ==> r.file == f
    ensures r.file == f.(writable := r.file.writable)
  {
    if f.writable then Promotion(f, Ok)
    else if !f.isDevice then Promotion(f, Rvth(NotADevice))
    else if promote == Ok then Promotion(f.(writable := true), Ok)
    else Promotion(f, promote)
  }

  /** Promotion is one-way and idempotent: once it has succeeded, asking
      again succeeds without consulting the operating system or changing
      anything. */
  lemma MakeWritableIdempotent(f: RefFile, p: Status, q: Status)
    requires MakeWritable(f, p).status == Ok
    ensures MakeWritable(MakeWritable(f, p).file, q) == MakeWritable(f, p)
  {
  }

  // ---------------------------------------------------------------------
  // Empty blocks

  /** `rvth_is_block_empty`: scans `size` bytes in groups of 64, stopping at
      the first group whose bytes OR to something non-zero. */
  method IsBlockEmpty(block: seq<byte>, size: nat) returns (empty: bool)
    requires size % 64 == 0
    requires size <= |block|
    ensures empty <==> AllZero(block[..size])
  {
    var i := size / 64;
    var off := 0;
    while i > 0
      invariant off + 64 * i == size
      invariant off <= size
      invariant AllZero(block[..off])
    {
      var group := block[off..off + 64];
      OrAllZero(group);
      if OrAll(group) != 0 {
        assert block[..size][off..off + 64] == group;
        return false;
      }
      assert block[..off + 64] == block[..off] + group;
      off := off + 64;
      i := i - 1;
    }
    return true;
  }

  // ---------------------------------------------------------------------
  // Bank types and their on-disk magics

  /** The magic `rvth_write_BankEntry` stores for a bank type; Unknown and
      the second bank of a dual-layer image have none. */
  function TypeMagic(t: BankType): (r: Option<u32>)
    ensures r.None? <==> t == Unknown || t == WiiDLBank2
    ensures r == Some(BANK_TYPE_EMPTY) <==> t == Empty
  {
    match t
    case Empty => Some(BANK_TYPE_EMPTY)
    case GCN => Some(BANK_TYPE_GCN)
    case WiiSL => Some(BANK_TYPE_WII_SL)
    case WiiDL => Some(BANK_TYPE_WII_DL)
    case Unknown => None
    case WiiDLBank2 => None
  }

  /** The bank type a stored magic denotes, read back from disk: 0 is
      Empty, the three known magics name their types, anything else is
      Unknown. A magic alone never denotes the second bank of a pair. */
  function ClassifyMagic(m: u32): (t: BankType)
    ensures t != WiiDLBank2
    ensures t == Empty <==> m == BANK_TYPE_EMPTY
  {
    if m == BANK_TYPE_EMPTY then Empty
    else if m == BANK_TYPE_GCN then GCN
    else if m == BANK_TYPE_WII_SL then WiiSL
    else if m == BANK_TYPE_WII_DL then WiiDL
    else Unknown
  }

  /** Encoding a type and classifying the magic gives the type back, and
      every magic that classifies as a known type is that type's encoding. */
  lemma TypeMagicRoundTrip(t: BankType, m: u32)
    ensures TypeMagic(t).Some? ==> ClassifyMagic(TypeMagic(t).value) == t
    ensures ClassifyMagic(m) != Unknown ==> TypeMagic(ClassifyMagic(m)) == Some(m)
  {
  }

  // ---------------------------------------------------------------------
  // Building the record

  /** What a written entry of an occupied bank holds: its type's magic,
      fourteen ASCII zeros, the timestamp, its LBAs, and zeros elsewhere. */
  function OccupiedEntry(e: BankEntry, magic: u32, stamp: seq<byte>): (d: DiskEntry)
    requires |stamp| == TIMESTAMP_SIZE
    ensures d.WellSized()
  {
    DiskEntry(magic, Fill(ASCII_ZERO, ENT_ALL_ZERO_SIZE), stamp[..ENT_MDATE_SIZE], stamp[ENT_MDATE_SIZE..],
              e.lbaStart, e.lbaLen, Zeros(ENT_UNK_SIZE))
  }

  /** The fields an occupied bank's record is assembled from, each written
      over an all-zero sector in the order the source writes them. */
  function AssembleRecord(magic: u32, stamp: seq<byte>, lbaStart: u32, lbaLen: u32): (r: seq<byte>)
    requires |stamp| == TIMESTAMP_SIZE
    ensures |r| == BLOCK_SIZE
  {
    var typed := Splice(Zeros(BLOCK_SIZE), ENT_TYPE, Be32(magic));
    var filled := Splice(typed, ENT_ALL_ZERO, Fill(ASCII_ZERO, ENT_ALL_ZERO_SIZE));
    var stamped := Splice(filled, ENT_MDATE, stamp);
    var started := Splice(stamped, ENT_LBA_START, Be32(lbaStart));
    Splice(started, ENT_LBA_LEN, Be32(lbaLen))
  }

  /** Each field of an assembled record holds what was written to it last:
      no later write overlaps an earlier one, and the reserved tail is never
      written. */
  lemma AssembledFields(magic: u32, stamp: seq<byte>, lbaStart: u32, lbaLen: u32)
    requires |stamp| == TIMESTAMP_SIZE
    ensures var r := AssembleRecord(magic, stamp, lbaStart, lbaLen);
      && r[0x000..0x004] == Be32(magic)
      && r[0x004..0x012] == Fill(ASCII_ZERO, ENT_ALL_ZERO_SIZE)
      && r[0x012..0x020] == stamp
      && r[0x020..0x024] == Be32(lbaStart)
      && r[0x024..0x028] == Be32(lbaLen)
      && r[0x028..] == Zeros(ENT_UNK_SIZE)
  {
    var z := Zeros(BLOCK_SIZE);
    var fill := Fill(ASCII_ZERO, ENT_ALL_ZERO_SIZE);
    var typed := Splice(z, 0x000, Be32(magic));
    var filled := Splice(typed, 0x004, fill);
    var stamped := Splice(filled, 0x012, stamp);
    var started := Splice(stamped, 0x020, Be32(lbaStart));
    var r := Splice(started, 0x024, Be32(lbaLen));
    assert r == AssembleRecord(magic, stamp, lbaStart, lbaLen);
    // The type field survives the four later writes.
    SpliceKeeps(typed, 0x004, fill, 0x000, 0x004);
    SpliceKeeps(filled, 0x012, stamp, 0x000, 0x004);
    SpliceKeeps(stamped, 0x020, Be32(lbaStart), 0x000, 0x004);
    SpliceKeeps(started, 0x024, Be32(lbaLen), 0x000, 0x004);
    // The filler survives three.
    SpliceKeeps(filled, 0x012, stamp, 0x004, 0x012);
    SpliceKeeps(stamped, 0x020, Be32(lbaStart), 0x004, 0x012);
    SpliceKeeps(started, 0x024, Be32(lbaLen), 0x004, 0x012);
    // The timestamp survives two.
    SpliceKeeps(stamped, 0x020, Be32(lbaStart), 0x012, 0x020);
    SpliceKeeps(started, 0x024, Be32(lbaLen), 0x012, 0x020);
    // The LBA start survives one.
    SpliceKeeps(started, 0x024, Be32(lbaLen), 0x020, 0x024);
    // The reserved tail stays as the initial zeros.
    SpliceKeeps(z, 0x000, Be32(magic), 0x028, 0x200);
    SpliceKeeps(typed, 0x004, fill, 0x028, 0x200);
    SpliceKeeps(filled, 0x012, stamp, 0x028, 0x200);
    SpliceKeeps(stamped, 0x020, Be32(lbaStart), 0x028, 0x200);
    SpliceKeeps(started, 0x024, Be32(lbaLen), 0x028, 0x200);
    assert z[0x028..0x200] == Zeros(ENT_UNK_SIZE);
    assert r[0x028..] == r[0x028..0x200];
  }

  /** Writing the fields one by one over a zeroed sector, as the source
      does, gives exactly the encoding of `OccupiedEntry`. */
  lemma AssembleRecordIsEncoding(e: BankEntry, magic: u32, stamp: seq<byte>)
    requires |stamp| == TIMESTAMP_SIZE
    ensures AssembleRecord(magic, stamp, e.lbaStart, e.lbaLen) == EncodeEntry(OccupiedEntry(e, magic, stamp))
  {
    var r := AssembleRecord(magic, stamp, e.lbaStart, e.lbaLen);
    var d := OccupiedEntry(e, magic, stamp);
    var x := EncodeEntry(d);
    AssembledFields(magic, stamp, e.lbaStart, e.lbaLen);
    assert x[0x012..0x020] == stamp by {
      JoinSlices(x, 0x012, 0x01A, 0x020);
      assert stamp == d.mdate + d.mtime;
    }
    AgreeFrom(x, r, 0x024, 0x028);
    AgreeFrom(x, r, 0x020, 0x024);
    AgreeFrom(x, r, 0x012, 0x020);
    AgreeFrom(x, r, 0x004, 0x012);
    AgreeFrom(x, r, 0x000, 0x004);
    assert x == x[0..] && r == r[0..];
  }

  /** The record `rvth_write_BankEntry` builds for a bank, or the error that
      stops it before anything is written. The deleted flag is looked at
      before the type, so a deleted bank is zeroed whatever its type; a type
      value outside the enumeration takes the `default:` label, as Unknown. */
  function BuildRecord(e: BankEntry, stamp: seq<byte>): (r: Result<seq<byte>, RvthError>)
    requires |stamp| == TIMESTAMP_SIZE
  {
    if e.isDeleted then Success(Zeros(BLOCK_SIZE))
    else match e.Kind()
      case None => Failure(BankUnknown)
      case Some(t) =>
        match TypeMagic(t)
        case None => Failure(if t == WiiDLBank2 then BankDl2 else BankUnknown)
        case Some(magic) =>
          if t == Empty then Success(Splice(Zeros(BLOCK_SIZE), ENT_TYPE, Be32(magic)))
          else Success(AssembleRecord(magic, stamp, e.lbaStart, e.lbaLen))
  }

  /** The bank types the entry format can hold: those with a magic. */
  predicate Writable(k: Option<BankType>) {
    k.Some? && TypeMagic(k.value).Some?
  }

  /** Writing the empty magic into a zeroed sector leaves it zeroed. */
  lemma EmptyTypeFieldKeepsZeros()
    ensures Splice(Zeros(BLOCK_SIZE), ENT_TYPE, Be32(BANK_TYPE_EMPTY)) == Zeros(BLOCK_SIZE)
  {
    var z := Zeros(BLOCK_SIZE);
    MagicsSpellTheirNames();
    assert Splice(z, 0, Zeros(4)) == z[..0] + Zeros(4) + z[4..];
  }

  /** A live bank whose type has no magic is refused, with BANK_DL_2 for
      the second bank of a dual-layer image and BANK_UNKNOWN otherwise;
      every other bank gets a record. */
  lemma BuildRecordRefused(e: BankEntry, stamp: seq<byte>)
    requires |stamp| == TIMESTAMP_SIZE
    ensures var r := BuildRecord(e, stamp);
      var k := e.Kind();
      && (r.Failure? <==> !e.isDeleted && !Writable(k))
      && (r.Failure? ==> (r.error == BankDl2 <==> k == Some(WiiDLBank2)))
      && (r.Failure? ==> (r.error == BankUnknown <==> k != Some(WiiDLBank2)))
  {
  }

  /** A deleted or empty bank gets an all-zero record. */
  lemma BuildRecordZeroed(e: BankEntry, stamp: seq<byte>)
    requires |stamp| == TIMESTAMP_SIZE
    requires e.isDeleted || e.Kind() == Some(Empty)
    ensures BuildRecord(e, stamp) == Success(Zeros(BLOCK_SIZE))
  {
    if !e.isDeleted {
      EmptyTypeFieldKeepsZeros();
    }
  }

  /** A live bank of one of the three disc types gets the encoding of
      `OccupiedEntry`, whose magic reads back as the bank's own type. */
  lemma BuildRecordOccupied(e: BankEntry, stamp: seq<byte>)
    requires |stamp| == TIMESTAMP_SIZE
    requires !e.isDeleted && Writable(e.Kind()) && e.Kind() != Some(Empty)
    ensures var d := OccupiedEntry(e, TypeMagic(e.Kind().value).value, stamp);
      && BuildRecord(e, stamp) == Success(EncodeEntry(d))
      && DecodeEntry(EncodeEntry(d)) == d
      && ClassifyMagic(d.typeMagic) == e.Kind().value
  {
    var t := e.Kind().value;
    var magic := TypeMagic(t).value;
    assert BuildRecord(e, stamp) == Success(AssembleRecord(magic, stamp, e.lbaStart, e.lbaLen));
    AssembleRecordIsEncoding(e, magic, stamp);
    EntryRoundTrip(OccupiedEntry(e, magic, stamp));
  }

  /** What `BuildRecord` yields, in terms of the entry layout: a zero sector
      for a deleted or empty bank; an error for Unknown, for a value outside
      the enumeration and for a second dual-layer bank; otherwise the
      encoding of `OccupiedEntry`, whose magic reads back as the bank's own
      type. */
  lemma BuildRecordContents(e: BankEntry, stamp: seq<byte>)
    requires |stamp| == TIMESTAMP_SIZE
    ensures var r := BuildRecord(e, stamp);
      var k := e.Kind();
      && (r.Failure? <==> !e.isDeleted && !Writable(k))
      && (r.Failure? ==> (r.error == BankDl2 <==> k == Some(WiiDLBank2)))
      && (r.Failure? ==> (r.error == BankUnknown <==> k != Some(WiiDLBank2)))
      && (r.Success? && (e.isDeleted || k == Some(Empty)) ==> r.value == Zeros(BLOCK_SIZE))
      && (r.Success? && !e.isDeleted && k != Some(Empty) ==>
            && k.Some?
            && r.value == EncodeEntry(OccupiedEntry(e, TypeMagic(k.value).value, stamp))
            && ClassifyMagic(DecodeEntry(r.value).typeMagic) == k.value)
  {
    BuildRecordRefused(e, stamp);
    if e.isDeleted || e.Kind() == Some(Empty) {
      BuildRecordZeroed(e, stamp);
    } else if Writable(e.Kind()) {
      BuildRecordOccupied(e, stamp);
    }
  }

  // ---------------------------------------------------------------------
  // Writing the entry back

  /** The sector holding the table entry of `bank`. */
  function EntryLba(bank: nat): (lba: nat)
    ensures LbaToBytes(lba) == BANKTABLE_ADDRESS + EntryOffset(bank)
    ensures BANKTABLE_ADDRESS_LBA < lba
  {
    BANKTABLE_ADDRESS_LBA + bank + 1
  }

  /** The handle after a write-back, and the code it returns. */
  datatype WriteResult = WriteResult(rvth: Option<RvtH>, status: Status)

  /** The handle exists, has a bank table, and `bank` is one of its banks:
      the three checks `rvth_write_BankEntry` makes before anything else. */
  predicate PassesChecks(h: Option<RvtH>, bank: u32) {
    h.Some? && IsHdd(h.value.imageType) && bank as int < h.value.bankCount
  }

  /** The file behind a handle, if there is a handle. */
  function SectorsOf(h: Option<RvtH>): map<nat, seq<byte>> {
    if h.Some? then h.value.file.sectors else map[]
  }

  /** `rvth_write_BankEntry`: validate, promote, build the record, then seek
      to the entry's sector and write 512 bytes. `os` supplies the outcomes
      of the operating-system calls and `stamp` the clock's timestamp. */
  function WriteBankEntry(h: Option<RvtH>, bank: u32, os: Os, stamp: seq<byte>): (r: WriteResult)
    requires |stamp| == TIMESTAMP_SIZE
    requires h.Some? ==> h.value.Valid()
    // The checks run in this order, and a failing one touches nothing.
    ensures h.None? ==> r == WriteResult(None, Posix(EINVAL))
    ensures h.Some? && !IsHdd(h.value.imageType) ==> r == WriteResult(h, Rvth(NotHddImage))
    ensures h.Some? && IsHdd(h.value.imageType) && bank as int >= h.value.bankCount ==> r == WriteResult(h, Posix(ERANGE))
    // The handle keeps its image type and banks; only its store can change.
    ensures h.Some? ==> r.rvth.Some? && r.rvth.value == h.value.(file := r.rvth.value.file)
    // Nothing reaches the disk unless the call succeeds.
    ensures r.status != Ok ==> SectorsOf(r.rvth) == SectorsOf(h)
    // Success means the store is writable and exactly the entry's sector
    // was replaced by a 512-byte record.
    ensures r.status == Ok ==>
      && PassesChecks(h, bank)
      && r.rvth.value.file.writable
      && EntryLba(bank as int) in SectorsOf(r.rvth)
      && |SectorsOf(r.rvth)[EntryLba(bank as int)]| == BLOCK_SIZE
      && SectorsOf(r.rvth) == SectorsOf(h)[EntryLba(bank as int) := SectorsOf(r.rvth)[EntryLba(bank as int)]]
  {
    if h.None? then WriteResult(None, Posix(EINVAL))
    else
      var rvth := h.value;
      if !IsHdd(rvth.imageType) then WriteResult(h, Rvth(NotHddImage))
      else if bank as int >= rvth.bankCount then WriteResult(h, Posix(ERANGE))
      else
        var p := MakeWritable(rvth.file, os.promote);
        var promoted := rvth.(file := p.file);
        if p.status != Ok then WriteResult(Some(promoted), p.status)
        else match BuildRecord(rvth.entries[bank as int], stamp)
          case Failure(err) => WriteResult(Some(promoted), Rvth(err))
          case Success(record) =>
            if os.seek.Failed? then WriteResult(Some(promoted), Posix(ErrnoOrEio(os.seek.errno)))
            else if os.write.Failed? then WriteResult(Some(promoted), Posix(ErrnoOrEio(os.write.errno)))
            else
              BuildRecordContents(rvth.entries[bank as int], stamp);
              var sectors := p.file.sectors[EntryLba(bank as int) := record];
              WriteResult(Some(promoted.(file := p.file.(sectors := sectors))), Ok)
  }

  /** The sector a successful write-back replaced. */
  function WrittenRecord(r: WriteResult, bank: u32): seq<byte>
    requires r.rvth.Some? && EntryLba(bank as int) in r.rvth.value.file.sectors
  {
    r.rvth.value.file.sectors[EntryLba(bank as int)]
  }

  /** A failed promotion is returned unchanged and nothing is written. */
  lemma WriteBankEntryPromotionFails(h: Option<RvtH>, bank: u32, os: Os, stamp: seq<byte>)
    requires |stamp| == TIMESTAMP_SIZE
    requires h.Some? ==> h.value.Valid()
    requires PassesChecks(h, bank)
    requires MakeWritable(h.value.file, os.promote).status != Ok
    ensures var r := WriteBankEntry(h, bank, os, stamp);
      && r.status == MakeWritable(h.value.file, os.promote).status
      && r.rvth == h
  {
  }

  /** A deleted bank is written as a zero sector whatever its type, even
      Unknown or the second bank of a dual-layer image: the deleted flag is
      tested before the type is. */
  lemma WriteBankEntryDeleted(h: Option<RvtH>, bank: u32, os: Os, stamp: seq<byte>)
    requires |stamp| == TIMESTAMP_SIZE
    requires h.Some? ==> h.value.Valid()
    requires PassesChecks(h, bank)
    requires MakeWritable(h.value.file, os.promote).status == Ok
    requires os.seek.Done? && os.write.Done?
    requires h.value.entries[bank as int].isDeleted
    ensures var r := WriteBankEntry(h, bank, os, stamp);
      && r.status == Ok
      && WrittenRecord(r, bank) == Zeros(BLOCK_SIZE)
  {
    BuildRecordContents(h.value.entries[bank as int], stamp);
  }

  /** Unknown, a value outside the enumeration and the second bank of a
      dual-layer image are refused before any I/O, so whatever the disk
      would answer, and nothing is written. */
  lemma WriteBankEntryRefused(h: Option<RvtH>, bank: u32, os: Os, stamp: seq<byte>)
    requires |stamp| == TIMESTAMP_SIZE
    requires h.Some? ==> h.value.Valid()
    requires PassesChecks(h, bank)
    requires MakeWritable(h.value.file, os.promote).status == Ok
    requires !h.value.entries[bank as int].isDeleted
    ensures var r := WriteBankEntry(h, bank, os, stamp);
      var k := h.value.entries[bank as int].Kind();
      && (k.None? || k == Some(Unknown) ==> r.status == Rvth(BankUnknown) && SectorsOf(r.rvth) == SectorsOf(h))
      && (k == Some(WiiDLBank2) ==> r.status == Rvth(BankDl2) && SectorsOf(r.rvth) == SectorsOf(h))
  {
    BuildRecordRefused(h.value.entries[bank as int], stamp);
  }

  /** With seek and write succeeding, a live Empty bank is written as a
      zero sector and the three disc types as their entry, which reads back
      as the same type, filler, timestamp and LBAs. */
  lemma WriteBankEntryByType(h: Option<RvtH>, bank: u32, os: Os, stamp: seq<byte>)
    requires |stamp| == TIMESTAMP_SIZE
    requires h.Some? ==> h.value.Valid()
    requires PassesChecks(h, bank)
    requires MakeWritable(h.value.file, os.promote).status == Ok
    requires os.seek.Done? && os.write.Done?
    requires !h.value.entries[bank as int].isDeleted
    ensures var r := WriteBankEntry(h, bank, os, stamp);
      var e := h.value.entries[bank as int];
      var k := e.Kind();
      && (k == Some(Empty) ==> r.status == Ok && WrittenRecord(r, bank) == Zeros(BLOCK_SIZE))
      && (k.Some? && k.value in {GCN, WiiSL, WiiDL} ==>
            && r.status == Ok
            && DecodeEntry(WrittenRecord(r, bank)) == OccupiedEntry(e, TypeMagic(k.value).value, stamp)
            && ClassifyMagic(DecodeEntry(WrittenRecord(r, bank)).typeMagic) == k.value)
  {
    var e := h.value.entries[bank as int];
    if e.Kind() == Some(Empty) {
      BuildRecordZeroed(e, stamp);
    } else if e.Kind().Some? && e.Kind().value in {GCN, WiiSL, WiiDL} {
      BuildRecordOccupied(e, stamp);
    }
  }

  /** A failed seek or a short write returns the negated errno, or `-EIO`
      when errno was left at 0, and the entry on disk is untouched. */
  lemma WriteBankEntryIoFails(h: Option<RvtH>, bank: u32, os: Os, stamp: seq<byte>)
    requires |stamp| == TIMESTAMP_SIZE
    requires h.Some? ==> h.value.Valid()
    requires PassesChecks(h, bank)
    requires MakeWritable(h.value.file, os.promote).status == Ok
    requires BuildRecord(h.value.entries[bank as int], stamp).Success?
    requires os.seek.Failed? || os.write.Failed?
    ensures var r := WriteBankEntry(h, bank, os, stamp);
      && r.status == Posix(ErrnoOrEio(if os.seek.Failed? then os.seek.errno else os.write.errno))
      && r.status != Ok
      && SectorsOf(r.rvth) == SectorsOf(h)
  {
  }

  /** The table entry of `bank` as the disk currently holds it, if its
      sector is present and whole. */
  function StoredEntry(sectors: map<nat, seq<byte>>, bank: nat): (r: Option<DiskEntry>)
    ensures r.Some? <==> EntryLba(bank) in sectors && |sectors[EntryLba(bank)]| == BLOCK_SIZE
  {
    if EntryLba(bank) in sectors && |sectors[EntryLba(bank)]| == BLOCK_SIZE
    then Some(DecodeEntry(sectors[EntryLba(bank)]))
    else None
  }

  /** A successful write-back changes the table in exactly one place: the
      entry of `bank` now reads back as a whole entry, while the header
      sector, every other entry and every sector outside the table are as
      they were. */
  lemma WriteBankEntryKeepsRestOfTable(h: Option<RvtH>, bank: u32, os: Os, stamp: seq<byte>, other: nat, lba: nat)
    requires |stamp| == TIMESTAMP_SIZE
    requires h.Some? ==> h.value.Valid()
    requires WriteBankEntry(h, bank, os, stamp).status == Ok
    requires other != bank as int
    requires lba != EntryLba(bank as int)
    ensures var after := SectorsOf(WriteBankEntry(h, bank, os, stamp).rvth);
      && StoredEntry(after, bank as int).Some?
      && StoredEntry(after, other) == StoredEntry(SectorsOf(h), other)
      && (lba in after <==> lba in SectorsOf(h))
      && (lba in after ==> after[lba] == SectorsOf(h)[lba])
  {
    assert EntryLba(other) != EntryLba(bank as int);
  }

  /** One concrete write-back: a GameCube image in the fourth bank, starting
      at sector 0x2400 and 0x100000 sectors long, lands in sector 0x300004
      (byte 0x6000_0800) as "GC1L", fourteen '0's, the timestamp, then the
      two LBAs big-endian. */
  lemma WriteBankEntryExample(f: RefFile, entries: seq<BankEntry>, stamp: seq<byte>)
    requires |stamp| == TIMESTAMP_SIZE
    requires |entries| == RVTH_BANK_COUNT
    requires f.writable
    requires entries[3] == BankEntry(BankTypeValue(GCN), 0x2400, 0x10_0000, false)
    ensures var r := WriteBankEntry(Some(RvtH(f, HddReader, RVTH_BANK_COUNT, entries)), 3, Os(Ok, Done, Done), stamp);
      && r.status == Ok
      && EntryLba(3) == 0x30_0004 && LbaToBytes(EntryLba(3)) == 0x6000_0800
      && WrittenRecord(r, 3)[..4] == ['G' as byte, 'C' as byte, '1' as byte, 'L' as byte]
      && WrittenRecord(r, 3)[4..0x12] == Fill('0' as byte, 14)
      && WrittenRecord(r, 3)[0x12..0x20] == stamp
      && WrittenRecord(r, 3)[0x20..0x28] == [0x00, 0x00, 0x24, 0x00, 0x00, 0x10, 0x00, 0x00]
  {
    var h := Some(RvtH(f, HddReader, RVTH_BANK_COUNT, entries));
    var r := WriteBankEntry(h, 3, Os(Ok, Done, Done), stamp);
    assert WrittenRecord(r, 3) == AssembleRecord(BANK_TYPE_GCN, stamp, 0x2400, 0x10_0000);
    AssembledFields(BANK_TYPE_GCN, stamp, 0x2400, 0x10_0000);
    MagicsSpellTheirNames();
    var w := WrittenRecord(r, 3);
    assert w[0x20..0x28] == w[0x20..0x24] + w[0x24..0x28];
  }
}
