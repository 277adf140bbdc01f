/**
 * The bootinfo header report: decoding of the `os_version` word and what
 * `print_v0`, `print_v1` and `print_v2` show and warn about.
 *
 * A report is the sequence of items printed, each with its title, the
 * value and the warning printed just before it, if any. Colours, spacing
 * and the kilobyte/megabyte figures are not part of it.
 */
module BootInfo {
  import opened Wrappers
  import opened BootImgHdr

  // ---------------------------------------------------------------------
  // Decoding `os_version`
  // ---------------------------------------------------------------------

  /** `get_os_version`: major, minor and patch from bits 25-31, 18-24 and 11-17. */
  function OsVersionOf(osVersion: bv32): (version: seq<bv16>)
    ensures |version| == 3
    ensures version[0] < 128 && version[1] < 128 && version[2] < 128
  {
    [ ((osVersion >> 25) & 127) as bv16,
      ((osVersion >> 18) & 127) as bv16,
      ((osVersion >> 11) & 127) as bv16 ]
  }

  /** `get_patch_version`: year from bits 4-10 plus 2000, month from bits 0-3. */
  function PatchVersionOf(osVersion: bv32): (version: seq<bv32>)
    ensures |version| == 2
    ensures 2000 <= version[0] <= 2127
    ensures version[1] <= 15
  {
    [ ((osVersion >> 4) & 127) + 2000,
      osVersion & 15 ]
  }

  /** `get_os_version` writes the three fields into the caller's array. */
  method GetOsVersion(version: array<bv16>, osVersion: bv32)
    requires version.Length >= 3
    modifies version
    ensures version[..3] == OsVersionOf(osVersion)
    ensures forall i :: 3 <= i < version.Length ==> version[i] == old(version[i])
  {
    version[0] := ((osVersion >> 25) & 127) as bv16;
    version[1] := ((osVersion >> 18) & 127) as bv16;
    version[2] := ((osVersion >> 11) & 127) as bv16;
  }

  /** `get_patch_version` writes year and month into the caller's array. */
  method GetPatchVersion(version: array<bv32>, osVersion: bv32)
    requires version.Length >= 2
    modifies version
    ensures version[..2] == PatchVersionOf(osVersion)
    ensures forall i :: 2 <= i < version.Length ==> version[i] == old(version[i])
  {
    version[0] := ((osVersion >> 4) & 127) + 2000;
    version[1] := osVersion & 15;
  }

  /** Packing "A.B.C" with any patch level and decoding gives back A, B and C. */
  lemma OsVersionRoundTrip(a: bv32, b: bv32, c: bv32, lvl: bv32)
    requires a < 128 && b < 128 && c < 128 && lvl < 0x800
    ensures OsVersionOf(PackOsVersion(PackVersion(a, b, c), lvl)) == [a as bv16, b as bv16, c as bv16]
  {
  }

  /**
   * Packing year Y and month M with any version and decoding gives back
   * 2000 plus the low seven bits of Y - 2000, and M; so Y itself for Y in 2000..2127.
   */
  lemma PatchVersionRoundTrip(ver: bv32, year: bv32, month: bv32)
    requires ver < 0x20_0000 && month < 16
    ensures PatchVersionOf(PackOsVersion(ver, PackPatchLevel(year, month)))
         == [((year - 2000) & 127) + 2000, month]
    ensures 2000 <= year <= 2127 ==>
      PatchVersionOf(PackOsVersion(ver, PackPatchLevel(year, month))) == [year, month]
  {
  }

  /** Every word is the packing of what the two decoders read from it. */
  lemma DecodeThenPack(osVersion: bv32)
    ensures var v := OsVersionOf(osVersion);
      var p := PatchVersionOf(osVersion);
      PackOsVersion(PackVersion(v[0] as bv32, v[1] as bv32, v[2] as bv32), PackPatchLevel(p[0], p[1]))
        == osVersion
  {
  }

  /** The version decoder ignores bits 0-10; the patch decoder ignores bits 11-31. */
  lemma DecodersIndependent(os1: bv32, os2: bv32)
    ensures os1 >> 11 == os2 >> 11 ==> OsVersionOf(os1) == OsVersionOf(os2)
    ensures os1 & 0x7FF == os2 & 0x7FF ==> PatchVersionOf(os1) == PatchVersionOf(os2)
  {
  }

  /** Nothing checks the month: a word can decode to month 0 or to months 13 to 15. */
  lemma MonthNotChecked()
    ensures PatchVersionOf(0x0000_0000)[1] == 0
    ensures PatchVersionOf(0x0000_000F)[1] == 15
  {
  }

  // ---------------------------------------------------------------------
  // Reports
  // ---------------------------------------------------------------------

  datatype Value =
    | Text(shown: seq<bv8>)
    | Hex(bits: bv64)
    | SignedDecimal(word: bv32)
    | OsVersion(major: bv16, minor: bv16, patch: bv16)
    | PatchLevel(year: bv32, month: bv32)
    | ArrayAddress

  datatype Warning =
    | UnusedNotZero
    | InvalidTagsAddress
    | InvalidSecondAddress
    | InvalidRecoveryDtboOffset
    | InvalidDtbAddress

  /** One printed item, with the warning printed just before it, if any. */
  datatype Entry = Entry(warning: Option<Warning>, title: string, value: Value)

  function WarnIf(condition: bool, w: Warning): Option<Warning> {
    if condition then Some(w) else None
  }

  predicate Warned(report: seq<Entry>, w: Warning) {
    exists i :: 0 <= i < |report| && report[i].warning == Some(w)
  }

  /**
   * The number `%d` prints for a `uint32_t` word (a `SignedDecimal` value):
   * the same 32 bits read as a signed integer.
   */
  function AsSigned(x: nat): (n: int)
    requires x < 0x1_0000_0000
    ensures -0x8000_0000 <= n < 0x8000_0000
    ensures n >= 0 <==> x < 0x8000_0000
    ensures n % 0x1_0000_0000 == x
  {
    if x < 0x8000_0000 then x else x - 0x1_0000_0000
  }

  /**
   * The bytes `%.Ns` prints from `field`: up to the first NUL byte and never
   * more than `precision` bytes, all of them inside the field.
   */
  function Shown(field: seq<bv8>, precision: nat): (shown: seq<bv8>)
    requires precision <= |field|
    ensures |shown| <= precision
    ensures shown == field[..|shown|]
    ensures forall i :: 0 <= i < |shown| ==> shown[i] != 0
    ensures |shown| < precision ==> field[|shown|] == 0
  {
    if precision == 0 || field[0] == 0 then [] else [field[0]] + Shown(field[1..], precision - 1)
  }

  /** The precision of a field's format; each equals the field's size, so `Shown` stays inside. */
  function FieldPrecision(fmt: string, size: nat): (p: nat)
    requires fmt == StringFmt(size)
    ensures p == size
  {
    FmtPrecisionIsSize(size);
    FmtPrecision(fmt).value
  }

  const V0Titles := [
    "Product name", "Magic", "ID", "Unused field", "OS version",
    "Security patch version", "Kernel", "Kernel tags", "Kernel size", "Cmdline",
    "Extra cmdline", "Ramdisk", "Ramdisk size", "Second", "Second size",
    "Flash page size"]

  const V1Titles := ["Recovery DTBO size", "Recovery DTBO offset", "Header size"]

  const V2Titles := ["DTBO image", "DTBO image address"]

  predicate HasTitles(report: seq<Entry>, titles: seq<string>) {
    |report| == |titles| && forall i :: 0 <= i < |report| ==> report[i].title == titles[i]
  }

  /** Reports joined one after the other keep each other's titles. */
  lemma HasTitlesConcat(a: seq<Entry>, ta: seq<string>, b: seq<Entry>, tb: seq<string>)
    requires HasTitles(a, ta) && HasTitles(b, tb)
    ensures HasTitles(a + b, ta + tb)
  {
    forall i | 0 <= i < |a + b|
      ensures (a + b)[i].title == (ta + tb)[i]
    {
      if i >= |a| {
        assert (a + b)[i] == b[i - |a|];
      }
    }
  }

  /** A report joined from two parts carries a warning exactly when one of the parts does. */
  lemma WarnedConcat(a: seq<Entry>, b: seq<Entry>, w: Warning)
    ensures Warned(a + b, w) <==> Warned(a, w) || Warned(b, w)
  {
    if Warned(a + b, w) {
      var i :| 0 <= i < |a + b| && (a + b)[i].warning == Some(w);
      if i >= |a| {
        assert b[i - |a|].warning == Some(w);
      } else {
        assert a[i].warning == Some(w);
      }
    }
    if Warned(a, w) {
      var i :| 0 <= i < |a| && a[i].warning == Some(w);
      assert (a + b)[i].warning == Some(w);
    }
    if Warned(b, w) {
      var i :| 0 <= i < |b| && b[i].warning == Some(w);
      assert (a + b)[|a| + i].warning == Some(w);
    }
  }

  /** Product name, magic, ID and the reserved field; a warning when the reserved field is set. */
  function V0Identity(h: BootImgHdrV0): (report: seq<Entry>)
    ensures HasTitles(report, V0Titles[..4])
    ensures forall w :: Warned(report, w) <==> w == UnusedNotZero && h.unused != 0
  {
    var report := [
      Entry(None, "Product name", Text(Shown(h.name, FieldPrecision(BootNameFmt, BootNameSize)))),
      Entry(None, "Magic", Text(Shown(h.magic, FieldPrecision(BootMagicFmt, BootMagicSize)))),
      Entry(None, "ID", ArrayAddress),
      Entry(WarnIf(h.unused != 0, UnusedNotZero), "Unused field", Hex(h.unused as bv64)) ];
    assert report[3].warning == WarnIf(h.unused != 0, UnusedNotZero);
    report
  }

  /** The OS version and the security patch level, both decoded from `os_version`; no warning. */
  function V0Versions(h: BootImgHdrV0): (report: seq<Entry>)
    ensures HasTitles(report, V0Titles[4..6])
    ensures forall w :: !Warned(report, w)
  {
    var os := OsVersionOf(h.osVersion);
    var patch := PatchVersionOf(h.osVersion);
    [ Entry(None, "OS version", OsVersion(os[0], os[1], os[2])),
      Entry(None, "Security patch version", PatchLevel(patch[0], patch[1])) ]
  }

  /** Kernel address, tags address and size; a warning when the tags address is below 0x10000000. */
  function V0Kernel(h: BootImgHdrV0): (report: seq<Entry>)
    ensures HasTitles(report, V0Titles[6..9])
    ensures forall w :: Warned(report, w) <==> w == InvalidTagsAddress && h.tagsAddr < 0x1000_0000
  {
    var report := [
      Entry(None, "Kernel", Hex(h.kernelAddr as bv64)),
      Entry(WarnIf(h.tagsAddr < 0x1000_0000, InvalidTagsAddress), "Kernel tags", Hex(h.tagsAddr as bv64)),
      Entry(None, "Kernel size", SignedDecimal(h.kernelSize)) ];
    assert report[1].warning == WarnIf(h.tagsAddr < 0x1000_0000, InvalidTagsAddress);
    report
  }

  /** The two command lines, each cut at its field's size; no warning. */
  function V0Cmdline(h: BootImgHdrV0): (report: seq<Entry>)
    ensures HasTitles(report, V0Titles[9..11])
    ensures forall w :: !Warned(report, w)
  {
    [ Entry(None, "Cmdline", Text(Shown(h.cmdline, FieldPrecision(BootArgsFmt, BootArgsSize)))),
      Entry(None, "Extra cmdline",
            Text(Shown(h.extraCmdline, FieldPrecision(BootExtraArgsFmt, BootExtraArgsSize)))) ]
  }

  /** Ramdisk address and size; no warning. */
  function V0Ramdisk(h: BootImgHdrV0): (report: seq<Entry>)
    ensures HasTitles(report, V0Titles[11..13])
    ensures forall w :: !Warned(report, w)
  {
    [ Entry(None, "Ramdisk", Hex(h.ramdiskAddr as bv64)),
      Entry(None, "Ramdisk size", SignedDecimal(h.ramdiskSize)) ]
  }

  /** Second stage address and size; a warning when a second stage is present below 0x10000000. */
  function V0Second(h: BootImgHdrV0): (report: seq<Entry>)
    ensures HasTitles(report, V0Titles[13..15])
    ensures forall w :: Warned(report, w) <==>
      w == InvalidSecondAddress && h.secondSize != 0 && h.secondAddr < 0x1000_0000
  {
    var report := [
      Entry(None, "Second", Hex(h.secondAddr as bv64)),
      Entry(WarnIf(h.secondSize != 0 && h.secondAddr < 0x1000_0000, InvalidSecondAddress),
            "Second size", SignedDecimal(h.secondSize)) ];
    assert report[1].warning == WarnIf(h.secondSize != 0 && h.secondAddr < 0x1000_0000, InvalidSecondAddress);
    report
  }

  /** `print_v0`: every field of the version 0 header, warnings in front of the suspicious ones. */
  function PrintV0(h: BootImgHdrV0): (report: seq<Entry>)
    ensures HasTitles(report, V0Titles)
  {
    var parts := [V0Identity(h), V0Versions(h), V0Kernel(h), V0Cmdline(h), V0Ramdisk(h), V0Second(h),
                  [Entry(None, "Flash page size", SignedDecimal(h.pageSize))]];
    var report := parts[0] + parts[1] + parts[2] + parts[3] + parts[4] + parts[5] + parts[6];
    HasTitlesConcat(parts[0], V0Titles[..4], parts[1], V0Titles[4..6]);
    assert V0Titles[..4] + V0Titles[4..6] == V0Titles[..6];
    HasTitlesConcat(parts[0] + parts[1], V0Titles[..6], parts[2], V0Titles[6..9]);
    assert V0Titles[..6] + V0Titles[6..9] == V0Titles[..9];
    HasTitlesConcat(parts[0] + parts[1] + parts[2], V0Titles[..9], parts[3], V0Titles[9..11]);
    assert V0Titles[..9] + V0Titles[9..11] == V0Titles[..11];
    HasTitlesConcat(parts[0] + parts[1] + parts[2] + parts[3], V0Titles[..11], parts[4], V0Titles[11..13]);
    assert V0Titles[..11] + V0Titles[11..13] == V0Titles[..13];
    HasTitlesConcat(parts[0] + parts[1] + parts[2] + parts[3] + parts[4], V0Titles[..13],
                    parts[5], V0Titles[13..15]);
    assert V0Titles[..13] + V0Titles[13..15] == V0Titles[..15];
    HasTitlesConcat(parts[0] + parts[1] + parts[2] + parts[3] + parts[4] + parts[5], V0Titles[..15],
                    parts[6], V0Titles[15..]);
    assert V0Titles[..15] + V0Titles[15..] == V0Titles;
    report
  }

  /** `print_v1`: the fields a version 1 header adds. */
  function PrintV1(h: BootImgHdrV1): (report: seq<Entry>)
    ensures HasTitles(report, V1Titles)
  {
    [ Entry(None, "Recovery DTBO size", SignedDecimal(h.recoveryDtboSize)),
      Entry(WarnIf(h.recoveryDtboSize != 0 && h.recoveryDtboOffset < 0x1000_0000, InvalidRecoveryDtboOffset),
            "Recovery DTBO offset", Hex(h.recoveryDtboOffset)),
      Entry(None, "Header size", SignedDecimal(h.headerSize)) ]
  }

  /** `print_v2`: the fields a version 2 header adds. */
  function PrintV2(h: BootImgHdrV2): (report: seq<Entry>)
    ensures HasTitles(report, V2Titles)
  {
    [ Entry(None, "DTBO image", SignedDecimal(h.dtbSize)),
      Entry(WarnIf(h.dtbSize != 0 && h.dtbAddr < 0x1000_0000, InvalidDtbAddress),
            "DTBO image address", Hex(h.dtbAddr)) ]
  }

  /**
   * `print_v0` warns about the reserved field exactly when it is not zero, about
   * the kernel tags address exactly when it is below 0x10000000, about the second
   * stage exactly when it is present and loaded below 0x10000000, and about nothing else.
   */
  lemma PrintV0Warnings(h: BootImgHdrV0)
    ensures forall w :: Warned(PrintV0(h), w) <==>
      || (w == UnusedNotZero && h.unused != 0)
      || (w == InvalidTagsAddress && h.tagsAddr < 0x1000_0000)
      || (w == InvalidSecondAddress && h.secondSize != 0 && h.secondAddr < 0x1000_0000)
  {
    var a, b, c, d := V0Identity(h), V0Versions(h), V0Kernel(h), V0Cmdline(h);
    var e, f, g := V0Ramdisk(h), V0Second(h), [Entry(None, "Flash page size", SignedDecimal(h.pageSize))];
    assert PrintV0(h) == a + b + c + d + e + f + g;
    forall w
      ensures Warned(a + b + c + d + e + f + g, w) <==>
        || (w == UnusedNotZero && h.unused != 0)
        || (w == InvalidTagsAddress && h.tagsAddr < 0x1000_0000)
        || (w == InvalidSecondAddress && h.secondSize != 0 && h.secondAddr < 0x1000_0000)
    {
      assert !Warned(g, w);
      WarnedConcat(a, b, w);
      WarnedConcat(a + b, c, w);
      WarnedConcat(a + b + c, d, w);
      WarnedConcat(a + b + c + d, e, w);
      WarnedConcat(a + b + c + d + e, f, w);
      WarnedConcat(a + b + c + d + e + f, g, w);
    }
  }

  /** `print_v1` warns exactly on a present recovery DTBO at a low offset. */
  lemma PrintV1Warnings(h: BootImgHdrV1)
    ensures forall w :: Warned(PrintV1(h), w) <==>
      w == InvalidRecoveryDtboOffset && h.recoveryDtboSize != 0 && h.recoveryDtboOffset < 0x1000_0000
  {
    var report := PrintV1(h);
    assert report[1].warning == WarnIf(h.recoveryDtboSize != 0 && h.recoveryDtboOffset < 0x1000_0000,
                                       InvalidRecoveryDtboOffset);
  }

  /** `print_v2` warns exactly on a present DTB at a low load address. */
  lemma PrintV2Warnings(h: BootImgHdrV2)
    ensures forall w :: Warned(PrintV2(h), w) <==>
      w == InvalidDtbAddress && h.dtbSize != 0 && h.dtbAddr < 0x1000_0000
  {
    var report := PrintV2(h);
    assert report[1].warning == WarnIf(h.dtbSize != 0 && h.dtbAddr < 0x1000_0000, InvalidDtbAddress);
  }
}
