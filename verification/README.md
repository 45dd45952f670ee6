# RVT-H bank table write-back, in Dafny

An RVT-H Reader is a development unit whose hard disk holds up to eight
disc images ("banks"). A bank table on that disk describes the banks. It
starts at byte 0x6000_0000 (sector 0x30_0000) and spans nine 512-byte
sectors:

- An "NHCD" header comes first.
- One entry per bank follows. Each entry holds:
  - a big-endian type magic ("GC1L", "NN1L" or "NN2L", or 0 for an empty bank);
  - fourteen ASCII '0' bytes;
  - a 14-character date/time stamp;
  - the bank's big-endian start LBA and length;
  - 472 reserved bytes.

This project models how librvth writes the in-memory state of one bank back
into that table (`rvth_write_BankEntry`), together with what that write
depends on:

- the table layout and its constants;
- the bank and image type enumerations;
- promotion of a read-only handle to a writable one (`rvth_make_writable`);
- the all-zero block test (`rvth_is_block_empty`);
- the window convention of the plain reader (`reader_plain_open`).

Modules, one per concern:

- `Bytes`: bytes, `u32` as `bv32`, big-endian encoding, splicing and the
  OR-reduction the empty-block test uses.
- `Layout`: the header, entry and table layouts with encoders and decoders
  proved inverse both ways. Also the magics, the table and bank addresses,
  and the sector at which every entry sits.
- `Enums`: `RvtH_BankType_e`, `RvtH_ImageType_e`, `RVTH_BANK_COUNT` and
  the extraction flags.
- `Errors`: the three kinds of result code. Success is 0, an
  operating-system failure is a negated errno, and a library failure is a
  positive `RvtH_Errors` value. An errno is positive by its type, so no
  failure can read as 0.
- `Storage`: the backing file as a map from LBA to sector contents, and
  the answers of the operating system, which are taken as a parameter.
- `RvthPrivate`: `rvth_make_writable`, `rvth_is_block_empty` and
  `rvth_write_BankEntry`.
- `ReaderPlain`: the `reader_plain_open` window contract.

The write-back is a pure function:

- **Inputs:** an optional handle (NULL is `None`), the bank number, the
  operating system's answers (`Os`) and the 14-byte timestamp the clock
  would produce.
- **Outputs:** the handle afterwards and the returned status.

Its contract and lemmas state the following:

- The three argument checks run in the source's order.
- Nothing reaches the disk unless the call returns 0.
- A successful call replaces exactly the entry's sector. The header and
  the other entries of the table are left untouched.
- A deleted bank is zeroed whatever its type.
- An empty bank is also zeroed.
- An Unknown bank, a bank whose type value is outside the enumeration, or
  the second bank of a dual-layer image, is refused before any I/O.
- A disc bank is written as an entry that decodes back to its type, its
  LBAs, the filler and the timestamp.
- A failed seek or write reports errno, or EIO when errno is 0.

`ClassifyMagic` reads a magic back as a bank type. It is an independent
reference for what a written entry means, proved inverse to `TypeMagic`.

The constants come from `src/rvthtool/rvth.h`. The write-back code uses them
under the prefix `NHCD_` and also uses two names that header does not
define:

- `NHCD_BankType_Empty`, modelled as 0, as the comment at
  `src/librvth/rvth_enums.h:32` states;
- `NHCD_BANKTABLE_ADDRESS_LBA`, modelled as `0x6000_0000 / 512`.
  `TableAddresses` proves this value consistent with the byte address.

## Model

| member | source | states |
|---|---|---|
| Bytes.Fill | src/librvth/rvth_p.c:167 | `memset` of n bytes: the result has n bytes and every one is the fill byte |
| Bytes.Be32Injective | src/rvthtool/rvth.h:50-62 | big-endian encoding is injective: two words with the same four on-disk bytes are equal |
| Bytes.Be32RoundTrip | src/rvthtool/rvth.h:35-47 | reading back the four big-endian bytes of a word gives the word |
| Bytes.FromBe32RoundTrip | src/rvthtool/rvth.h:35-47 | every four on-disk bytes are the big-endian encoding of the word they decode to |
| Bytes.OrAllZero | src/librvth/rvth_p.c:69-81 | the OR of a group of bytes is zero exactly when every byte of the group is zero |
| Layout.EncodeHeader | src/rvthtool/rvth.h:40-47 | the header occupies 512 bytes; magic and the four words sit big-endian at 0x000, 0x004, 0x008, 0x00C and 0x010, and the reserved bytes from 0x014 on |
| Layout.HeaderRoundTrip | src/rvthtool/rvth.h:40-47 | decoding an encoded header gives the header back |
| Layout.HeaderBytesRoundTrip | src/rvthtool/rvth.h:40-47 | re-encoding a decoded 512-byte header sector gives the same bytes |
| Layout.EncodeEntry | src/rvthtool/rvth.h:54-62 | an entry occupies 512 bytes, each field at its documented offset, the words big-endian |
| Layout.EntryRoundTrip | src/rvthtool/rvth.h:54-62 | decoding an encoded entry gives the entry back |
| Layout.EntryBytesRoundTrip | src/rvthtool/rvth.h:54-62 | re-encoding a decoded entry sector gives the same bytes |
| Layout.ZeroEntryDecodesEmpty | src/librvth/rvth_enums.h:32 | an all-zero entry sector reads as an empty bank with zero LBAs |
| Layout.FieldsTileOneSector | src/rvthtool/rvth.h:54-63 | the entry fields follow each other without gap or overlap and fill exactly one sector, the date and time fields making up the 14-byte timestamp; likewise the header |
| Layout.MagicsSpellTheirNames | src/rvthtool/rvth.h:39-72 | on disk the header magic reads "NHCD" and the type magics "GC1L", "NN1L", "NN2L"; the empty magic is four zero bytes |
| Layout.TypeMagicsDistinct | src/rvthtool/rvth.h:68-72 | the three type magics differ from each other and from the empty magic 0 |
| Layout.TableAddresses | src/rvthtool/rvth.h:83-91 | the table address is sector-aligned at LBA 0x30_0000; bank 1 starts right after the nine table sectors; bank size is whole sectors |
| Layout.EncodeEntriesSlice | src/rvthtool/rvth.h:77-80 | in a run of encoded entries, entry i occupies sector i |
| Layout.EncodeTableSectors | src/rvthtool/rvth.h:77-81 | in an encoded table the header is sector 0 and entry i is the sector at byte `(i + 1) * 512` |
| Layout.TableRoundTrip | src/rvthtool/rvth.h:77-81 | decoding an encoded table gives the table back |
| Layout.TableSectorRoundTrip | src/rvthtool/rvth.h:77-81 | each of the nine table sectors survives decoding and re-encoding |
| Layout.TableBytesRoundTrip | src/rvthtool/rvth.h:77-81 | re-encoding a decoded 9 × 512-byte table gives the same bytes |
| Enums.BankTypeValue | src/librvth/rvth_enums.h:31-40 | every bank type has a value below `RVTH_BankType_MAX`; only Empty is 0 |
| Enums.BankTypeOfValue | src/librvth/rvth_enums.h:31-40 | exactly the values 0 to 5 name a bank type |
| Enums.BankTypeValuesRoundTrip | src/librvth/rvth_enums.h:31-40 | bank types and their values correspond one to one |
| Enums.ImageTypeValue | src/librvth/rvth_enums.h:43-56 | every image type has a value below `RVTH_ImageType_MAX`; only Unknown is 0 |
| Enums.ImageKindsPartition | src/librvth/rvth_enums.h:46-52 | every known image type is an HDD type (values 1 and 2) or a single-bank GCM type (values 3 and 4), never both |
| Enums.PrependsSdkHeader | src/librvth/rvth_enums.h:59-63 | a flag word asks for the SDK header exactly when its lowest bit is set |
| Errors.ErrnoOrEio | src/librvth/rvth_p.c:179-193 | an I/O failure reports errno, or EIO when errno was 0, so it is never read as success |
| RvthPrivate.MakeWritable | src/librvth/rvth_p.c:36-55 | a writable handle succeeds unchanged; a plain file fails with NOT_A_DEVICE; a device returns the promotion's result; success leaves the store writable, failure leaves it as it was, and nothing but writability changes |
| RvthPrivate.MakeWritableIdempotent | src/librvth/rvth_p.c:38-41 | after a successful promotion, promoting again succeeds and changes nothing, whatever the system would answer |
| RvthPrivate.IsBlockEmpty | src/librvth/rvth_p.c:63-86 | the scan of the first `size` bytes in 64-byte groups returns true exactly when all of them are zero |
| RvthPrivate.TypeMagic | src/librvth/rvth_p.c:132-156 | Unknown and the second dual-layer bank have no magic; only Empty stores 0 |
| RvthPrivate.ClassifyMagic | src/librvth/rvth_enums.h:32-37 | a magic never reads as the second dual-layer bank, and reads as Empty exactly when it is 0 |
| RvthPrivate.TypeMagicRoundTrip | src/librvth/rvth_p.c:132-145 | a stored magic classifies back to the type that wrote it, and each recognised magic is its type's encoding |
| RvthPrivate.AssembledFields | src/librvth/rvth_p.c:122-174 | writing the fields one by one over a zeroed entry leaves each field holding its last write and the reserved tail zero |
| RvthPrivate.AssembleRecordIsEncoding | src/librvth/rvth_p.c:122-174 | the field-by-field assembly equals the layout encoding of the entry with magic, filler, timestamp and LBAs |
| RvthPrivate.EmptyTypeFieldKeepsZeros | src/librvth/rvth_p.c:134-135 | writing the empty magic into a zeroed entry leaves an all-zero sector |
| RvthPrivate.BuildRecordRefused | src/librvth/rvth_p.c:124-156 | the record is refused exactly for a live bank whose type has no magic: BANK_DL_2 for the second dual-layer bank, BANK_UNKNOWN for Unknown and for a value outside the enumeration |
| RvthPrivate.BuildRecordZeroed | src/librvth/rvth_p.c:122-164 | a deleted bank of any type, or an empty bank, gets an all-zero record |
| RvthPrivate.BuildRecordOccupied | src/librvth/rvth_p.c:137-174 | a live GameCube or Wii bank gets the encoding of its entry, which decodes back to that entry and whose magic reads back as the bank's type |
| RvthPrivate.BuildRecordContents | src/librvth/rvth_p.c:122-174 | the record is refused exactly for a live bank whose type is Unknown, outside the enumeration (the `default:` label) or the second dual-layer bank, with BANK_DL_2 for the last and BANK_UNKNOWN otherwise; a deleted or empty bank gives a zero sector; a disc bank gives the encoded entry, whose magic reads back as the bank's type |
| RvthPrivate.EntryLba | src/librvth/rvth_p.c:178 | the entry of bank `b` sits in the sector whose byte offset is the table address plus `(b + 1) * 512` |
| RvthPrivate.WriteBankEntry | src/librvth/rvth_p.c:94-197 | NULL gives -EINVAL, a non-HDD image NOT_HDD_IMAGE, a bank out of range -ERANGE, each leaving everything untouched; only the store can change; a failure writes nothing; success implies the checks passed, the store is writable and exactly the entry's sector was replaced by 512 bytes |
| RvthPrivate.WriteBankEntryPromotionFails | src/librvth/rvth_p.c:114-119 | a failed promotion is returned as is and leaves the handle unchanged |
| RvthPrivate.WriteBankEntryDeleted | src/librvth/rvth_p.c:124-128 | a deleted bank is written as a zero sector, whatever its type |
| RvthPrivate.WriteBankEntryRefused | src/librvth/rvth_p.c:147-155 | a live bank whose type is Unknown or outside the enumeration gives BANK_UNKNOWN, and DL bank 2 gives BANK_DL_2, whatever seek and write would answer; nothing is written |
| RvthPrivate.WriteBankEntryByType | src/librvth/rvth_p.c:130-193 | with seek and write succeeding, a live Empty bank writes a zero sector and a disc type writes an entry that decodes to its magic, ASCII zeros, timestamp and LBAs and reads back as the same type |
| RvthPrivate.WriteBankEntryIoFails | src/librvth/rvth_p.c:178-193 | a failed seek or write returns the negated errno, or -EIO, and leaves the disk as it was |
| RvthPrivate.WriteBankEntryKeepsRestOfTable | src/librvth/rvth_p.c:178-186 | after a successful write the entry reads back whole, and every other entry and every other sector of the disk are unchanged |
| RvthPrivate.WriteBankEntryExample | src/librvth/rvth_p.c:94-197 | a GameCube bank in slot 3 at sector 0x2400 of length 0x100000 lands in sector 0x30_0004 as "GC1L", fourteen '0's, the stamp, then `00 00 24 00 00 10 00 00` |
| ReaderPlain.ReaderPlainOpen | src/librvth/reader_plain.h:31-42 | a failure gives NULL; otherwise the reader covers the whole file exactly when start and length are both 0, and the given window otherwise |
| ReaderPlain.OpenedWindowCovers | src/librvth/reader_plain.h:34-39 | (0, 0) covers every byte of the file; any other window covers exactly the bytes of sectors `start` to `start + len`, and its end fits a 64-bit offset |
| ReaderPlain.ZeroWindowIsWholeFile | src/librvth/reader_plain.h:34-35 | the (0, 0) window is the one exception to the literal reading: literally it would be empty, yet it covers the file |

## Left out

- The clock. `rvth_timestamp_create(…, time(NULL))` is replaced by the 14-byte `stamp` parameter, so the digits of the date and time are not modelled.
- The operating system. `ref_make_writable`, `ref_seeko` and `ref_write` are replaced by the `Os` parameter, and only their outcomes matter.
- Partial writes. When `ref_write` transfers fewer than 512 bytes, part of the sector may have reached the disk. The model leaves the disk unchanged on any failed write.
- The global `errno`. Its assignments on the argument-check paths are not modelled; only the returned code is.
- Numeric error values. `RvtH_Errors` values are not part of this model (their header is not part of it either), so they are the `RvthError` datatype, kept apart from errno values by the `Status` datatype.
- `rvth_is_hdd`. It is not part of this model; it is taken to mean the image type is `HDD_Reader` or `HDD_Image`.
- RvthPrivate.IsBlockEmpty: reads the block bytewise, whereas the source ORs eight 64-bit words per group. Both test the same 64 bytes for zero. The source's `assert(size % 64 == 0)` becomes a precondition.
- RvthPrivate.EntryLba: `NHCD_BANKTABLE_ADDRESS_LBA + bank + 1` is computed in unbounded integers. The integer width of that constant is not part of this model. Write-back only reaches the sum for a bank below the bank count, which `RvtH.Valid` bounds by `RVTH_BANK_COUNT`, so no 32-bit or 64-bit width can wrap there.
- RvthPrivate.WriteBankEntry: requires the handle to satisfy `RvtH.Valid`. That predicate asks for one in-memory entry per bank and at most `RVTH_BANK_COUNT` banks: eight for an HDD, one for a standalone image. The source assumes this of every opened `RvtH`, and the code that opens handles is not part of this model. `RvtH_BankEntry` is reduced to the four fields write-back reads. Its type is kept as a raw integer, so the switch's `default:` label is modelled.
- RvthPrivate.BuildRecordContents: stores the timestamp bytes verbatim and does not state that they are ASCII digits.
- ReaderPlain.ReaderPlainOpen: whether the reader can be set up is the `setUp` parameter. `reader_plain.c` and `reader.h` are not part of this model, so reading and writing through a reader are left out.
- Reading the bank table. This covers header validation and the inference of dual-layer second banks, and it lives outside `rvth_p.c`, so only the layout and the decoders for it are modelled.
- Device queries and the user interface. `query.h`, `query_win32.c` and `TranslationManager.cpp` are out of scope.
