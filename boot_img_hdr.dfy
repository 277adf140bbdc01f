/**
 * The Android boot image header, versions 0 to 2: the fixed field sizes,
 * the `%.Ns` formats derived from them, the three header records, and the
 * documented packing of the `os_version` word.
 *
 * C `uint32_t`, `uint64_t` and `uint8_t` are `bv32`, `bv64` and `bv8`, so
 * unsigned wrap-around is the bit-vector arithmetic itself.
 */
module BootImgHdr {
  import opened Wrappers
  import opened Decimal

  const BootMagicSize: nat := 8
  const BootNameSize: nat := 16
  const BootArgsSize: nat := 512
  const BootExtraArgsSize: nat := 1024

  /** `"%." STR(size) "s"`: the macro pastes the size constant as decimal text. */
  function StringFmt(size: nat): string {
    "%." + FromNat(size) + "s"
  }

  const BootMagicFmt := StringFmt(BootMagicSize)
  const BootNameFmt := StringFmt(BootNameSize)
  const BootArgsFmt := StringFmt(BootArgsSize)
  const BootExtraArgsFmt := StringFmt(BootExtraArgsSize)

  /** The precision printf reads from a `%.Ns` conversion, or None when `fmt` is not one. */
  function FmtPrecision(fmt: string): Option<nat> {
    if |fmt| >= 4 && fmt[..2] == "%." && fmt[|fmt| - 1] == 's' && IsDigits(fmt[2..|fmt| - 1])
    then Some(Value(fmt[2..|fmt| - 1]))
    else None
  }

  /** Each `%.Ns` format reads back as precision N, the size it was made from. */
  lemma FmtPrecisionIsSize(size: nat)
    ensures FmtPrecision(StringFmt(size)) == Some(size)
  {
    var fmt := StringFmt(size);
    var digits := FromNat(size);
    assert fmt[..2] == "%.";
    assert fmt[2..|fmt| - 1] == digits;
    ValueOfFromNat(size);
  }

  type MagicBytes = s: seq<bv8> | |s| == BootMagicSize witness seq(BootMagicSize, i => 0)
  type NameBytes = s: seq<bv8> | |s| == BootNameSize witness seq(BootNameSize, i => 0)
  type ArgsBytes = s: seq<bv8> | |s| == BootArgsSize witness seq(BootArgsSize, i => 0)
  type ExtraArgsBytes = s: seq<bv8> | |s| == BootExtraArgsSize witness seq(BootExtraArgsSize, i => 0)
  type IdWords = s: seq<bv32> | |s| == 8 witness seq(8, i => 0)

  /** `boot_img_hdr_v0`. `unused` is reserved and must be 0. */
  datatype BootImgHdrV0 = BootImgHdrV0(
    magic: MagicBytes,
    kernelSize: bv32,
    kernelAddr: bv32,
    ramdiskSize: bv32,
    ramdiskAddr: bv32,
    secondSize: bv32,
    secondAddr: bv32,
    tagsAddr: bv32,
    pageSize: bv32,
    unused: bv32,
    osVersion: bv32,
    name: NameBytes,
    cmdline: ArgsBytes,
    id: IdWords,
    extraCmdline: ExtraArgsBytes)

  /** `boot_img_hdr_v1`: a version 0 header followed by the recovery DTBO fields. */
  datatype BootImgHdrV1 = BootImgHdrV1(
    v0Base: BootImgHdrV0,
    recoveryDtboSize: bv32,
    recoveryDtboOffset: bv64,
    headerSize: bv32)

  /** `boot_img_hdr_v2`: a version 1 header followed by the DTB fields. */
  datatype BootImgHdrV2 = BootImgHdrV2(
    v1Base: BootImgHdrV1,
    dtbSize: bv32,
    dtbAddr: bv64)

  /** Version "A.B.C" packed as `A << 14 | B << 7 | C`, seven bits each. */
  function PackVersion(a: bv32, b: bv32, c: bv32): (ver: bv32)
    requires a < 128 && b < 128 && c < 128
    ensures ver < 0x20_0000
    ensures ver >> 14 == a && (ver >> 7) & 127 == b && ver & 127 == c
  {
    (a << 14) | (b << 7) | c
  }

  /** Patch level "Y-M" packed as `((Y - 2000) & 127) << 4 | M`: seven bits of year, four of month. */
  function PackPatchLevel(year: bv32, month: bv32): (lvl: bv32)
    requires month < 16
    ensures lvl < 0x800
    ensures lvl >> 4 == (year - 2000) & 127 && lvl & 15 == month
  {
    (((year - 2000) & 127) << 4) | month
  }

  /** `os_version = ver << 11 | lvl`: the version in bits 11 to 31, the patch level in bits 0 to 10. */
  function PackOsVersion(ver: bv32, lvl: bv32): (os: bv32)
    requires ver < 0x20_0000 && lvl < 0x800
    ensures (ver << 11) & lvl == 0
    ensures os >> 11 == ver && os & 0x7FF == lvl
  {
    (ver << 11) | lvl
  }
}
