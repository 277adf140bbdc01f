# lpmake planner and boot image header report

This project models two small tools from the android-things repository and proves
properties of them.

**genlpmake** is an interactive planner. It asks for a directory of `*.img`
files and a partition mode. In "ask" mode it asks again for each image. It then
asks for a super partition size and whether the output should be sparse. Finally
it prints one `lpmake` command line that packs every image into a single `super`
image. The model (`GenLpmake`) treats one run as a function of:

- the directory listing (`None` when the path is not a directory);
- the finite stream of operator replies;
- the `hash` of the partition fragments.

`GenLpmake.Expected` is the reference definition of a run. `GenLpmake.GenerateCommand`
performs the run step by step with the source's loops: `PlanImages` is the
per-image loop, `ReadSuperSize` is the super size prompt, and `ScanAlignment` is
the alignment diagnosis with its `break`. `GenerateCommand` is proved to agree
with `Expected`. The outcome is either the command line or one of the early stops:

- wrong directory;
- no images;
- end of input;
- a raw image whose last block is short.

**bootinfo** decodes and prints Android boot image headers, versions 0 to 2.

- `BootImgHdr` holds the header layout: the field sizes, the `%.Ns` formats built
  from them, the three header records, and the documented packing of
  `os_version`.
- `BootInfo` holds the decoders `get_os_version` and `get_patch_version`. They are
  modelled as functions and also as methods that write into the caller's array.
- `BootInfo` also holds the reports of `print_v0`, `print_v1` and `print_v2`. A
  report is the sequence of printed items. Each item has a title, a value, and
  the warning printed just before it, if any.

`Decimal` models the decimal text the planner reads and writes: `isdigit`,
`int()` and `str()`.

Some behaviour is modelled as the code does it, even where a description of
the tool would suggest otherwise:

- In ask mode, the first per-image reply is stored back into `mode`.
  - The next image is asked again only while the replies are literally `ask`.
  - Any other reply settles the mode for all remaining images, and its raw text
    (e.g. `ro`) becomes the fragment's mode field.
- The alignment diagnosis stops at the first block-aligned image.
- There is no pairing of raw and sparse images, and no capacity or headroom check.
- The month of the patch level is never range-checked.
- `%d` prints `uint32_t` sizes as signed numbers.

## Model

| member | source | states |
|---|---|---|
| `GenLpmake.NormaliseMode` | genlpmake.py:41-47 | the first mode reply becomes `readonly` exactly for the five read-only spellings, `none` exactly for the five write spellings, `ask` for everything else |
| `GenLpmake.ImageMode` | genlpmake.py:61-67 | a per-image reply gives `readonly` exactly for the read-only spellings and `none` otherwise |
| `GenLpmake.SparseFlag` | genlpmake.py:89-95 | the sparse slot holds `--sparse` exactly when the reply is `Y` or `y`, and is empty otherwise |
| `GenLpmake.FirstWhere` | genlpmake.py:81-86 | the index of the first element meeting the test (no earlier element meets it), or the length when none does |
| `GenLpmake.AskStep` | genlpmake.py:59-67 | while `mode` still reads `ask`, image i reads reply i, the mode becomes that reply, and the fragment gets the reply's answered mode |
| `GenLpmake.SettledStep` | genlpmake.py:59-73 | once `mode` no longer reads `ask`, no reply is read, the mode is unchanged and the fragment carries it |
| `GenLpmake.Fragments` | genlpmake.py:70-77 | exactly one `--partition`/`--image` fragment per discovered image, in discovery order |
| `GenLpmake.Scan` | genlpmake.py:99-119 | the diagnosis either passes at an aligned image or the end, or names a raw misaligned image and the 1..4095 missing bytes; every image it skips is sparse and misaligned |
| `GenLpmake.PlanImages` | genlpmake.py:54-78 | the loop fails only when replies run out; otherwise it yields the fragments, the sum of the sizes, the A/B flag (some stem is an A/B partition), and the number of replies read |
| `GenLpmake.ReadSuperSize` | genlpmake.py:80-86 | returns the first reply that is all digits and a multiple of 4096, with its value and the number of replies read; every earlier reply was rejected; None when none qualifies |
| `GenLpmake.ScanAlignment` | genlpmake.py:97-119 | the loop with its `break` and early exit computes exactly the diagnosis `Scan` |
| `GenLpmake.GenerateCommand` | genlpmake.py:20-132 | one run yields exactly the outcome of the reference definition `Expected` |
| `GenLpmake.FixedModeFragments` | genlpmake.py:59-76 | with a fixed mode no per-image reply is read and every fragment carries that mode |
| `GenLpmake.AskFirstReplySettles` | genlpmake.py:59-76 | in ask mode a first reply other than `ask` is the only one read, and its raw text is every fragment's mode |
| `GenLpmake.AskRepliesKeepAsking` | genlpmake.py:59-76 | in ask mode, replies that are literally `ask` each get asked again and make read-write fragments |
| `GenLpmake.SparseMagicWord` | genlpmake.py:106-107 | an image counts as sparse exactly when its first four bytes, read as a little-endian word, are 0xED26FF3A |
| `GenLpmake.RenderSlots` | genlpmake.py:124-129 | the command starts with the fixed metadata options followed by the slot count 2 or 1 |
| `GenLpmake.SlotsFollowAb` | genlpmake.py:55-56 | a printed command has `--metadata-slots 2` exactly when some image stem is an A/B partition, else 1 |
| `GenLpmake.CommandNeedsValidSuperSize` | genlpmake.py:81-86 | a command is printed only after some reply passed the super size check |
| `GenLpmake.MisalignedDiagnosis` | genlpmake.py:97-119 | a run stops on a misaligned image only when the total is misaligned; that image is raw, completing it needs 1..4095 bytes, and every image before it is sparse and misaligned |
| `GenLpmake.ScanStopsAtAligned` | genlpmake.py:99-104 | after sparse images, the diagnosis stops at the first aligned image whatever follows it |
| `GenLpmake.BreakHidesLaterMisalignedImage` | genlpmake.py:102-104 | an aligned first image hides a later raw misaligned one, so the run does not stop although the total is misaligned |
| `GenLpmake.SingleBootImage` | genlpmake.py:69-77 | one 8192-byte `boot` image gives a total of 8192, an A-only plan and the fragment with size text `8192` |
| `Decimal.FromNat` | genlpmake.py:126-127 | sizes are written as canonical decimal text with no leading zeros; exactly one digit below ten |
| `Decimal.FromInt` | genlpmake.py:128 | the output tag is written with a leading minus exactly when it is negative |
| `Decimal.ValueOfFromNat` | genlpmake.py:83-84 | `int` reads back what `str` writes |
| `Decimal.FromNatOfValue` | genlpmake.py:83-84 | a super size reply without leading zeros is written back into the command unchanged |
| `Decimal.FromNatInjective` | genlpmake.py:126-127 | distinct sizes are written differently |
| `BootImgHdr.FmtPrecisionIsSize` | bootinfo/android.h:36-39 | each `%.Ns` format built from a size constant reads back as precision equal to that size |
| `BootImgHdr.PackVersion` | bootinfo/android.h:84 | "A.B.C" packs into 21 bits and A, B and C are each recovered from their seven bits |
| `BootImgHdr.PackPatchLevel` | bootinfo/android.h:85 | the patch level packs into 11 bits; the low seven bits of Y-2000 and the month are recovered |
| `BootImgHdr.PackOsVersion` | bootinfo/android.h:86-87 | version and level occupy disjoint bits and each is recovered from `os_version` |
| `BootInfo.OsVersionOf` | bootinfo/android.c:5-9 | three seven-bit fields: major, minor and patch |
| `BootInfo.PatchVersionOf` | bootinfo/android.c:11-14 | year in 2000..2127 and month at most 15 |
| `BootInfo.GetOsVersion` | bootinfo/android.c:5-9 | writes the decoded version into the first three array cells and leaves the rest unchanged |
| `BootInfo.GetPatchVersion` | bootinfo/android.c:11-14 | writes year and month into the first two array cells and leaves the rest unchanged |
| `BootInfo.OsVersionRoundTrip` | bootinfo/android.c:5-9 | decoding a packed "A.B.C" gives A, B and C back, whatever the patch level |
| `BootInfo.PatchVersionRoundTrip` | bootinfo/android.c:11-14 | decoding a packed patch level gives 2000 plus the seven-bit year offset and the month; the year itself for 2000..2127 |
| `BootInfo.DecodeThenPack` | bootinfo/android.c:5-14 | every word is the packing of what the two decoders read from it |
| `BootInfo.DecodersIndependent` | bootinfo/android.c:5-14 | the version decoder reads only bits 11-31, the patch decoder only bits 0-10 |
| `BootInfo.MonthNotChecked` | bootinfo/android.c:13 | month 0 and month 15 are decoded without complaint |
| `BootInfo.AsSigned` | bootinfo/android.h:64-66 | `%d` shows a `uint32_t` word as the signed number congruent to it mod 2^32, negative exactly from 2^31 |
| `BootInfo.Shown` | bootinfo/android.c:22-27 | `%.Ns` shows a prefix of the field, no NUL byte, at most N bytes, ending early only at a NUL |
| `BootInfo.FieldPrecision` | bootinfo/android.h:36-39 | the precision of each field's format equals the field's size, so printing stays inside the field |
| `BootInfo.V0Identity` | bootinfo/android.c:22-32 | product name, magic, ID and the reserved field, warning exactly when the reserved field is not zero |
| `BootInfo.V0Versions` | bootinfo/android.c:34-46 | OS version and security patch level, no warning |
| `BootInfo.V0Kernel` | bootinfo/android.c:48-54 | kernel address, tags address and size, warning exactly when the tags address is below 0x10000000 |
| `BootInfo.V0Cmdline` | bootinfo/android.c:56-61 | the two command lines, no warning |
| `BootInfo.V0Ramdisk` | bootinfo/android.c:63-64 | ramdisk address and size, no warning |
| `BootInfo.V0Second` | bootinfo/android.c:66-70 | second stage address and size, warning exactly when the size is non-zero and the address below 0x10000000 |
| `BootInfo.PrintV0` | bootinfo/android.c:16-73 | the sixteen items of a version 0 header, in print order |
| `BootInfo.PrintV1` | bootinfo/android.c:75-83 | the three items a version 1 header adds, in print order |
| `BootInfo.PrintV2` | bootinfo/android.c:85-91 | the two items a version 2 header adds, in print order |
| `BootInfo.PrintV0Warnings` | bootinfo/android.c:30-69 | `print_v0` warns about the reserved field iff it is non-zero, about the tags address iff it is below 0x10000000, about the second stage iff present below 0x10000000, and nothing else |
| `BootInfo.PrintV1Warnings` | bootinfo/android.c:78-79 | `print_v1` warns exactly on a present recovery DTBO below offset 0x10000000, and nothing else |
| `BootInfo.PrintV2Warnings` | bootinfo/android.c:88-89 | `print_v2` warns exactly on a present DTB below address 0x10000000, and nothing else |

## Left out

- Console I/O: the banner, prompts, notes, the echo of each fragment, and the
  final "Result" print. The model keeps only what decides the outcome and the
  command text.
- The filesystem. `Path.is_dir`, the `*.[iI][mM][gG]` glob, `stat().st_size`
  and `read_bytes()` are replaced by data: the directory listing with each
  image's stem, path, size and leading bytes. `stat()` is assumed to give the
  same size each time it is called.
- `hash(tuple(partitions))` is Python's per-process salted hash, so it is a
  parameter of the run.
- `str.isdigit` is modelled for ASCII digits only. Other Unicode digits, which
  `isdigit` accepts and `int()` may reject, are not modelled.
- The `sys.exit(1)` paths, and `input()` failing at end of input, are outcomes
  of the run rather than process exits.
- Running the external `lpmake` tool, and whether the command is accepted by it.
- bootinfo/main.c is not part of this model: reading the file, choosing the
  header version, and error messages.
- The C struct byte layout, padding and endianness of the headers.
- `print_v0` prints the address of the `id` array with `%.8lx`; the model
  records only that an address is printed (`ArrayAddress`).
- The kilobyte/megabyte floating-point figures of `PRINT_SIZE`, the ANSI
  colours, and the item prefix text.
- The day in the patch level "Y-M-D": it is not encoded in `os_version`.
