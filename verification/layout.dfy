/** The on-disk RVT-H bank table: a 512-byte "NHCD" header followed by
    eight 512-byte bank entries, every multi-byte field big-endian.
    Offsets and sizes are stated once as constants and the encoders are
    proved to put each field where those constants say. */
module Layout {
  import opened Bytes

  /** Sector size used for every LBA on the disk. */
  const BLOCK_SIZE: nat := 512

  /** Header magic, "NHCD" in ASCII. */
  const BANKTABLE_MAGIC: u32 := 0x4E48_4344

  /** On-disk bank type magics. An empty bank stores the magic 0. */
  const BANK_TYPE_EMPTY: u32 := 0
  const BANK_TYPE_GCN: u32 := 0x4743_314C     // "GC1L"
  const BANK_TYPE_WII_SL: u32 := 0x4E4E_314C  // "NN1L"
  const BANK_TYPE_WII_DL: u32 := 0x4E4E_324C  // "NN2L"

  /** Absolute byte address of the bank table, and the same in sectors. */
  const BANKTABLE_ADDRESS: nat := 0x6000_0000
  const BANKTABLE_ADDRESS_LBA: nat := 0x30_0000
  /** Byte address where the data of bank 1 begins. */
  const BANK_1_START: nat := 0x6000_1200
  /** Largest size of one bank, in bytes. */
  const BANK_SIZE: nat := 0x1_1894_0000

  /** Entries in a table, and sectors the whole table occupies. */
  const TABLE_ENTRIES: nat := 8
  const TABLE_SECTORS: nat := 1 + TABLE_ENTRIES

  /** `LBA_TO_BYTES`: the byte offset of a sector. */
  function LbaToBytes(lba: nat): nat {
    lba * 512
  }

  // ---------------------------------------------------------------------
  // Header layout

  const HDR_MAGIC: nat := 0x000
  const HDR_X004: nat := 0x004
  const HDR_X008: nat := 0x008
  const HDR_X00C: nat := 0x00C
  const HDR_X010: nat := 0x010
  const HDR_UNK: nat := 0x014
  const HDR_UNK_SIZE: nat := 492

  /** `RVTH_BankTable_Header`, with its words in host order. */
  datatype Header = Header(magic: u32, x004: u32, x008: u32, x00C: u32, x010: u32, unk: seq<byte>)
  {
    predicate WellSized() {
      |unk| == HDR_UNK_SIZE
    }
  }

  /** The 512 header bytes as they sit on disk. */
  function EncodeHeader(h: Header): (r: seq<byte>)
    requires h.WellSized()
    ensures |r| == BLOCK_SIZE
    ensures r[HDR_MAGIC..HDR_MAGIC + 4] == Be32(h.magic)
    ensures r[HDR_X004..HDR_X004 + 4] == Be32(h.x004)
    ensures r[HDR_X008..HDR_X008 + 4] == Be32(h.x008)
    ensures r[HDR_X00C..HDR_X00C + 4] == Be32(h.x00C)
    ensures r[HDR_X010..HDR_X010 + 4] == Be32(h.x010)
    ensures r[HDR_UNK..] == h.unk
  {
    Be32(h.magic) + Be32(h.x004) + Be32(h.x008) + Be32(h.x00C) + Be32(h.x010) + h.unk
  }

  /** Reads a header out of its 512 on-disk bytes. */
  function DecodeHeader(r: seq<byte>): (h: Header)
    requires |r| == BLOCK_SIZE
    ensures h.WellSized()
  {
    Header(FromBe32(r[HDR_MAGIC..HDR_MAGIC + 4]),
           FromBe32(r[HDR_X004..HDR_X004 + 4]),
           FromBe32(r[HDR_X008..HDR_X008 + 4]),
           FromBe32(r[HDR_X00C..HDR_X00C + 4]),
           FromBe32(r[HDR_X010..HDR_X010 + 4]),
           r[HDR_UNK..])
  }

  lemma HeaderRoundTrip(h: Header)
    requires h.WellSized()
    ensures DecodeHeader(EncodeHeader(h)) == h
  {
    var r := EncodeHeader(h);
    Be32RoundTrip(h.magic);
    Be32RoundTrip(h.x004);
    Be32RoundTrip(h.x008);
    Be32RoundTrip(h.x00C);
    Be32RoundTrip(h.x010);
  }

  lemma HeaderBytesRoundTrip(r: seq<byte>)
    requires |r| == BLOCK_SIZE
    ensures EncodeHeader(DecodeHeader(r)) == r
  {
    var e := EncodeHeader(DecodeHeader(r));
    FromBe32RoundTrip(r[0..4]);
    FromBe32RoundTrip(r[4..8]);
    FromBe32RoundTrip(r[8..12]);
    FromBe32RoundTrip(r[12..16]);
    FromBe32RoundTrip(r[16..20]);
    AgreeFrom(e, r, 16, 20);
    AgreeFrom(e, r, 12, 16);
    AgreeFrom(e, r, 8, 12);
    AgreeFrom(e, r, 4, 8);
    AgreeFrom(e, r, 0, 4);
    assert e == e[0..] && r == r[0..];
  }

  // ---------------------------------------------------------------------
  // Entry layout

  const ENT_TYPE: nat := 0x000
  const ENT_ALL_ZERO: nat := 0x004
  const ENT_ALL_ZERO_SIZE: nat := 14
  const ENT_MDATE: nat := 0x012
  const ENT_MDATE_SIZE: nat := 8
  const ENT_MTIME: nat := 0x01A
  const ENT_MTIME_SIZE: nat := 6
  const ENT_LBA_START: nat := 0x020
  const ENT_LBA_LEN: nat := 0x024
  const ENT_UNK: nat := 0x028
  const ENT_UNK_SIZE: nat := 472

  /** `RVTH_BankEntry`, with its words in host order. `allZero` holds
      ASCII '0' on a written entry; `mdate` and `mtime` are ASCII digits. */
  datatype DiskEntry = DiskEntry(
    typeMagic: u32,
    allZero: seq<byte>,
    mdate: seq<byte>,
    mtime: seq<byte>,
    lbaStart: u32,
    lbaLen: u32,
    unk: seq<byte>)
  {
    predicate WellSized() {
      && |allZero| == ENT_ALL_ZERO_SIZE
      && |mdate| == ENT_MDATE_SIZE
      && |mtime| == ENT_MTIME_SIZE
      && |unk| == ENT_UNK_SIZE
    }
  }

  /** The 512 entry bytes as they sit on disk. */
  function EncodeEntry(e: DiskEntry): (r: seq<byte>)
    requires e.WellSized()
    ensures |r| == BLOCK_SIZE
    ensures r[ENT_TYPE..ENT_TYPE + 4] == Be32(e.typeMagic)
    ensures r[ENT_ALL_ZERO..ENT_ALL_ZERO + ENT_ALL_ZERO_SIZE] == e.allZero
    ensures r[ENT_MDATE..ENT_MDATE + ENT_MDATE_SIZE] == e.mdate
    ensures r[ENT_MTIME..ENT_MTIME + ENT_MTIME_SIZE] == e.mtime
    ensures r[ENT_LBA_START..ENT_LBA_START + 4] == Be32(e.lbaStart)
    ensures r[ENT_LBA_LEN..ENT_LBA_LEN + 4] == Be32(e.lbaLen)
    ensures r[ENT_UNK..] == e.unk
  {
    Be32(e.typeMagic) + e.allZero + e.mdate + e.mtime + Be32(e.lbaStart) + Be32(e.lbaLen) + e.unk
  }

  /** Reads an entry out of its 512 on-disk bytes. */
  function DecodeEntry(r: seq<byte>): (e: DiskEntry)
    requires |r| == BLOCK_SIZE
    ensures e.WellSized()
  {
    DiskEntry(FromBe32(r[ENT_TYPE..ENT_TYPE + 4]),
              r[ENT_ALL_ZERO..ENT_ALL_ZERO + ENT_ALL_ZERO_SIZE],
              r[ENT_MDATE..ENT_MDATE + ENT_MDATE_SIZE],
              r[ENT_MTIME..ENT_MTIME + ENT_MTIME_SIZE],
              FromBe32(r[ENT_LBA_START..ENT_LBA_START + 4]),
              FromBe32(r[ENT_LBA_LEN..ENT_LBA_LEN + 4]),
              r[ENT_UNK..])
  }

  lemma EntryRoundTrip(e: DiskEntry)
    requires e.WellSized()
    ensures DecodeEntry(EncodeEntry(e)) == e
  {
    Be32RoundTrip(e.typeMagic);
    Be32RoundTrip(e.lbaStart);
    Be32RoundTrip(e.lbaLen);
  }

  lemma EntryBytesRoundTrip(r: seq<byte>)
    requires |r| == BLOCK_SIZE
    ensures EncodeEntry(DecodeEntry(r)) == r
  {
    var e := EncodeEntry(DecodeEntry(r));
    FromBe32RoundTrip(r[0x000..0x004]);
    FromBe32RoundTrip(r[0x020..0x024]);
    FromBe32RoundTrip(r[0x024..0x028]);
    AgreeFrom(e, r, 0x024, 0x028);
    AgreeFrom(e, r, 0x020, 0x024);
    AgreeFrom(e, r, 0x01A, 0x020);
    AgreeFrom(e, r, 0x012, 0x01A);
    AgreeFrom(e, r, 0x004, 0x012);
    AgreeFrom(e, r, 0x000, 0x004);
    assert e == e[0..] && r == r[0..];
  }

  /** An all-zero entry decodes to the empty magic with zero LBAs. */
  lemma ZeroEntryDecodesEmpty()
    ensures var e := DecodeEntry(Zeros(BLOCK_SIZE));
      e.typeMagic == BANK_TYPE_EMPTY && e.lbaStart == 0 && e.lbaLen == 0 && AllZero(e.unk)
  {
    var z := Zeros(BLOCK_SIZE);
    assert z[ENT_TYPE..ENT_TYPE + 4] == [0, 0, 0, 0];
    assert z[ENT_LBA_START..ENT_LBA_START + 4] == [0, 0, 0, 0];
    assert z[ENT_LBA_LEN..ENT_LBA_LEN + 4] == [0, 0, 0, 0];
  }

  /** Each field starts where the previous one ends, and the fields fill
      exactly one sector; likewise for the header. The date and time fields
      together are the 14-byte timestamp field. */
  lemma FieldsTileOneSector()
    ensures ENT_ALL_ZERO == ENT_TYPE + 4
    ensures ENT_MDATE == ENT_ALL_ZERO + ENT_ALL_ZERO_SIZE
    ensures ENT_MTIME == ENT_MDATE + ENT_MDATE_SIZE
    ensures ENT_LBA_START == ENT_MTIME + ENT_MTIME_SIZE
    ensures ENT_LBA_LEN == ENT_LBA_START + 4
    ensures ENT_UNK == ENT_LBA_LEN + 4
    ensures ENT_UNK + ENT_UNK_SIZE == BLOCK_SIZE
    ensures HDR_UNK == 5 * 4 && HDR_UNK + HDR_UNK_SIZE == BLOCK_SIZE
    ensures ENT_MDATE_SIZE + ENT_MTIME_SIZE == 14
  {}

  // ---------------------------------------------------------------------
  // ASCII spellings of the magics

  /** On disk the magics read as their ASCII names, and an empty bank's
      magic as four zero bytes. */
  lemma MagicsSpellTheirNames()
    ensures Be32(BANKTABLE_MAGIC) == ['N' as byte, 'H' as byte, 'C' as byte, 'D' as byte]
    ensures Be32(BANK_TYPE_GCN) == ['G' as byte, 'C' as byte, '1' as byte, 'L' as byte]
    ensures Be32(BANK_TYPE_WII_SL) == ['N' as byte, 'N' as byte, '1' as byte, 'L' as byte]
    ensures Be32(BANK_TYPE_WII_DL) == ['N' as byte, 'N' as byte, '2' as byte, 'L' as byte]
    ensures Be32(BANK_TYPE_EMPTY) == Zeros(4)
  {
    assert Zeros(4) == [0, 0, 0, 0];
  }

  /** The type magics are pairwise distinct and non-zero, so none of them
      reads as an empty bank. */
  lemma TypeMagicsDistinct()
    ensures BANK_TYPE_GCN != BANK_TYPE_WII_SL && BANK_TYPE_GCN != BANK_TYPE_WII_DL
    ensures BANK_TYPE_WII_SL != BANK_TYPE_WII_DL
    ensures BANK_TYPE_EMPTY !in {BANK_TYPE_GCN, BANK_TYPE_WII_SL, BANK_TYPE_WII_DL}
  {}

  // ---------------------------------------------------------------------
  // Table and disk addresses

  /** Byte offset of entry `bank` from the start of the table. */
  function EntryOffset(bank: nat): nat {
    (bank + 1) * 512
  }

  /** The table sits on a sector boundary at `BANKTABLE_ADDRESS_LBA`, and the
      first bank's data starts right after its nine sectors. */
  lemma TableAddresses()
    ensures BANKTABLE_ADDRESS % BLOCK_SIZE == 0
    ensures LbaToBytes(BANKTABLE_ADDRESS_LBA) == BANKTABLE_ADDRESS
    ensures BANK_1_START == BANKTABLE_ADDRESS + TABLE_SECTORS * BLOCK_SIZE
    ensures BANK_1_START % BLOCK_SIZE == 0
    ensures BANK_SIZE % BLOCK_SIZE == 0
  {}

  /** `RVTH_BankTable`: one header and eight entries. */
  datatype BankTable = BankTable(header: Header, entries: seq<DiskEntry>)
  {
    predicate WellSized() {
      && header.WellSized()
      && |entries| == TABLE_ENTRIES
      && AllWellSized(entries)
    }
  }

  predicate AllWellSized(es: seq<DiskEntry>) {
    forall i :: 0 <= i < |es| ==> es[i].WellSized()
  }

  /** The entries laid out back to back. */
  function EncodeEntries(es: seq<DiskEntry>): (r: seq<byte>)
    requires AllWellSized(es)
    ensures |r| == |es| * 512
  {
    if |es| == 0 then [] else EncodeEntries(es[..|es| - 1]) + EncodeEntry(es[|es| - 1])
  }

  /** Entry `i` of a run of entries occupies the `i`-th sector of its encoding. */
  lemma {:induction false} EncodeEntriesSlice(es: seq<DiskEntry>, i: nat)
    requires AllWellSized(es)
    requires i < |es|
    ensures EncodeEntries(es)[i * 512..i * 512 + 512] == EncodeEntry(es[i])
  {
    var init := es[..|es| - 1];
    assert AllWellSized(init) by {
      assert forall k :: 0 <= k < |init| ==> init[k] == es[k];
    }
    var a, b := EncodeEntries(init), EncodeEntry(es[|es| - 1]);
    assert EncodeEntries(es) == a + b;
    if i < |init| {
      assert a[i * 512..i * 512 + 512] == EncodeEntry(es[i]) by {
        EncodeEntriesSlice(init, i);
        assert init[i] == es[i];
      }
      SliceOfPrefix(a, b, i * 512, i * 512 + 512);
    } else {
      assert i * 512 == |a| && i * 512 + 512 == |a| + |b|;
      SliceOfSuffix(a, b);
    }
  }

  /** The 9 × 512 bytes of a table. */
  function EncodeTable(t: BankTable): (r: seq<byte>)
    requires t.WellSized()
    ensures |r| == TABLE_SECTORS * BLOCK_SIZE
  {
    EncodeHeader(t.header) + EncodeEntries(t.entries)
  }

  /** The header fills the table's first sector and entry `i` the sector
      after `i` other entries and the header. */
  lemma EncodeTableSectors(t: BankTable, i: nat)
    requires t.WellSized()
    requires i < TABLE_ENTRIES
    ensures EncodeTable(t)[..BLOCK_SIZE] == EncodeHeader(t.header)
    ensures EncodeTable(t)[EntryOffset(i)..EntryOffset(i) + BLOCK_SIZE] == EncodeEntry(t.entries[i])
  {
    var h, es := EncodeHeader(t.header), EncodeEntries(t.entries);
    SliceOfPrefix(h, es, 0, 512);
    EncodeEntriesSlice(t.entries, i);
    assert (h + es)[512 + i * 512..512 + i * 512 + 512] == es[i * 512..i * 512 + 512];
  }

  /** Reads a table out of its nine sectors. */
  function DecodeTable(r: seq<byte>): (t: BankTable)
    requires |r| == TABLE_SECTORS * BLOCK_SIZE
    ensures t.WellSized()
  {
    BankTable(DecodeHeader(r[..BLOCK_SIZE]),
              seq(TABLE_ENTRIES, i requires 0 <= i < TABLE_ENTRIES =>
                DecodeEntry(r[EntryOffset(i)..EntryOffset(i) + BLOCK_SIZE])))
  }

  lemma TableRoundTrip(t: BankTable)
    requires t.WellSized()
    ensures DecodeTable(EncodeTable(t)) == t
  {
    var d := DecodeTable(EncodeTable(t));
    EncodeTableSectors(t, 0);
    HeaderRoundTrip(t.header);
    forall i | 0 <= i < TABLE_ENTRIES
      ensures d.entries[i] == t.entries[i]
    {
      EncodeTableSectors(t, i);
      EntryRoundTrip(t.entries[i]);
    }
  }

  /** The header sector of a table survives decoding and re-encoding. */
  lemma TableHeaderSectorRoundTrip(r: seq<byte>)
    requires |r| == TABLE_SECTORS * BLOCK_SIZE
    ensures EncodeTable(DecodeTable(r))[0..512] == r[0..512]
  {
    EncodeTableSectors(DecodeTable(r), 0);
    HeaderBytesRoundTrip(r[..512]);
  }

  /** The sector of entry `i` survives decoding and re-encoding. */
  lemma TableEntrySectorRoundTrip(r: seq<byte>, i: nat)
    requires |r| == TABLE_SECTORS * BLOCK_SIZE
    requires i < TABLE_ENTRIES
    ensures EncodeTable(DecodeTable(r))[EntryOffset(i)..EntryOffset(i) + 512] == r[EntryOffset(i)..EntryOffset(i) + 512]
  {
    var t := DecodeTable(r);
    var sector := r[EntryOffset(i)..EntryOffset(i) + 512];
    assert t.entries[i] == DecodeEntry(sector);
    EncodeTableSectors(t, i);
    EntryBytesRoundTrip(sector);
  }

  /** Sector `s` of a table survives decoding and re-encoding. */
  lemma TableSectorRoundTrip(r: seq<byte>, s: nat)
    requires |r| == TABLE_SECTORS * BLOCK_SIZE
    requires s < TABLE_SECTORS
    ensures EncodeTable(DecodeTable(r))[s * 512..s * 512 + 512] == r[s * 512..s * 512 + 512]
  {
    if s == 0 {
      TableHeaderSectorRoundTrip(r);
    } else {
      TableEntrySectorRoundTrip(r, s - 1);
      assert EntryOffset(s - 1) == s * 512;
    }
  }

  lemma TableBytesRoundTrip(r: seq<byte>)
    requires |r| == TABLE_SECTORS * BLOCK_SIZE
    ensures EncodeTable(DecodeTable(r)) == r
  {
    forall s | 0 <= s < TABLE_SECTORS
      ensures EncodeTable(DecodeTable(r))[s * 512..s * 512 + 512] == r[s * 512..s * 512 + 512]
    {
      TableSectorRoundTrip(r, s);
    }
    SectorsEqual(EncodeTable(DecodeTable(r)), r, TABLE_SECTORS);
  }
}
