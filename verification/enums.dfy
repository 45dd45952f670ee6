/** The in-memory enumerations that sit above the on-disk table: bank
    types, image types, the standard bank count and the extraction flags. */
module Enums {
  import opened Wrappers

  /** Banks on a standard RVT-H HDD. */
  const RVTH_BANK_COUNT: nat := 8

  /** `RvtH_BankType_e`. `Empty` is a bank whose magic is 0, `Unknown` one
      whose magic is not recognised, and `WiiDLBank2` the second of the two
      slots a dual-layer Wii image occupies. */
  datatype BankType = Empty | Unknown | GCN | WiiSL | WiiDL | WiiDLBank2

  /** One past the largest bank type value, `RVTH_BankType_MAX`. */
  const BANK_TYPE_MAX: nat := 6

  /** The C value of each bank type. */
  function BankTypeValue(t: BankType): (v: nat)
    ensures v < BANK_TYPE_MAX
    ensures t == Empty <==> v == 0
  {
    match t
    case Empty => 0
    case Unknown => 1
    case GCN => 2
    case WiiSL => 3
    case WiiDL => 4
    case WiiDLBank2 => 5
  }

  /** The bank type a C value names; values outside the enumeration name none. */
  function BankTypeOfValue(v: int): (r: Option<BankType>)
    ensures r.Some? <==> 0 <= v < BANK_TYPE_MAX
  {
    if v == 0 then Some(Empty)
    else if v == 1 then Some(Unknown)
    else if v == 2 then Some(GCN)
    else if v == 3 then Some(WiiSL)
    else if v == 4 then Some(WiiDL)
    else if v == 5 then Some(WiiDLBank2)
    else None
  }

  /** Values and bank types correspond one to one: with the range stated by
      `BankTypeOfValue`, there are exactly six bank types. */
  lemma BankTypeValuesRoundTrip(t: BankType, v: int)
    ensures BankTypeOfValue(BankTypeValue(t)) == Some(t)
    ensures BankTypeOfValue(v).Some? ==> BankTypeValue(BankTypeOfValue(v).value) == v
  {
  }

  /** `RvtH_ImageType_e`. */
  datatype ImageType = UnknownImage | HddReader | HddImage | Gcm | GcmSdk

  function ImageTypeValue(t: ImageType): (v: nat)
    ensures v < 5
    ensures t == UnknownImage <==> v == 0
  {
    match t
    case UnknownImage => 0
    case HddReader => 1
    case HddImage => 2
    case Gcm => 3
    case GcmSdk => 4
  }

  /** An RVT-H Reader or a disk image of one: a device holding a bank table. */
  predicate IsHdd(t: ImageType) {
    t == HddReader || t == HddImage
  }

  /** A standalone disc image: one bank and no table. */
  predicate IsGcm(t: ImageType) {
    t == Gcm || t == GcmSdk
  }

  /** Every known image type is either multi-bank or single-bank, never both;
      the HDD types are exactly the ones numbered directly after Unknown. */
  lemma ImageKindsPartition(t: ImageType)
    ensures t != UnknownImage <==> (IsHdd(t) || IsGcm(t))
    ensures !(IsHdd(t) && IsGcm(t))
    ensures IsHdd(t) <==> 1 <= ImageTypeValue(t) <= 2
    ensures IsGcm(t) <==> 3 <= ImageTypeValue(t) <= 4
  {
  }

  /** `RvtH_Extract_Flags`: prepend a 32 KB SDK header on extraction. */
  const RVTH_EXTRACT_PREPEND_SDK_HEADER: bv32 := 1 << 0

  function PrependsSdkHeader(flags: bv32): (r: bool)
    ensures r <==> flags & 1 == 1
    ensures r <==> flags % 2 == 1
  {
    flags & RVTH_EXTRACT_PREPEND_SDK_HEADER != 0
  }
}
