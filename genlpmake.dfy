/**
 * The lpmake command planner: it reads the operator's replies, walks the
 * images found in a directory, and prints an `lpmake` command that packs
 * them into one `super` image.
 *
 * Console and filesystem are replaced by data. The directory reply, the
 * directory test and the `*.img` glob become `dir`: None when the path is
 * not a directory, otherwise the images in discovery order. Every other
 * reply comes from the finite stream `replies`, and running out of it stands
 * for `input()` failing at end of input. Each image brings its stem, its
 * path, its size and its leading bytes. `hash(tuple(partitions))` is the
 * parameter `hash`.
 */
module GenLpmake {
  import opened Wrappers
  import opened Decimal

  const BlockSize: nat := 4096

  /** Stems of the dual-slot partitions; any one of them makes the plan A/B. */
  const AbSuperPartitions: set<string> := {
    "system_a", "system_b", "product_a", "product_b", "odm_a", "odm_b",
    "vendor_a", "vendor_b", "system_ext_a", "system_ext_b"
  }

  const ReadonlyReplies: set<string> := {"readonly", "Readonly", "READONLY", "RO", "ro"}
  const WriteReplies: set<string> := {"write", "Write", "WRITE", "RW", "rw"}
  const SparseReplies: set<string> := {"Y", "y"}

  /** The Android sparse-image magic 0xED26FF3A, as it lies in the file. */
  const SparseMagic: seq<bv8> := [0x3A, 0xFF, 0x26, 0xED]

  const AskMode := "ask"

  const CommandHead := "./lpmake --metadata-size 65536 --super-name super --metadata-slots "

  /** One discovered image file. `head` holds the file's leading bytes. */
  datatype Image = Image(stem: string, path: string, size: nat, head: seq<bv8>)

  /** How a run ends: one of the `sys.exit(1)` paths, end of input, or the command. */
  datatype Outcome =
    | WrongDirectory
    | NoImages
    | InputExhausted
    | Misaligned(index: nat, missing: nat)
    | Command(line: string)

  // ---------------------------------------------------------------------
  // Replies
  // ---------------------------------------------------------------------

  /** The answer to the first mode question becomes `readonly`, `none` or `ask`. */
  function NormaliseMode(reply: string): (mode: string)
    ensures mode == "readonly" <==> reply in ReadonlyReplies
    ensures mode == "none" <==> reply in WriteReplies
    ensures mode == AskMode <==> reply !in ReadonlyReplies && reply !in WriteReplies
  {
    if reply in ReadonlyReplies then "readonly"
    else if reply in WriteReplies then "none"
    else AskMode
  }

  /** The per-image mode: read-only for a read-only reply, read-write for anything else. */
  function ImageMode(reply: string): (mode: string)
    ensures mode == "readonly" <==> reply in ReadonlyReplies
    ensures mode == "none" <==> reply !in ReadonlyReplies
  {
    if reply in ReadonlyReplies then "readonly" else "none"
  }

  /** The text placed in the `--sparse` slot of the command. */
  function SparseFlag(reply: string): (flag: string)
    ensures flag == "--sparse" <==> reply == "Y" || reply == "y"
    ensures flag == "" <==> reply != "Y" && reply != "y"
  {
    if reply in SparseReplies then "--sparse" else ""
  }

  /** A super size the prompt loop accepts: decimal digits naming a multiple of the block size. */
  predicate ValidSuperSize(reply: string) {
    IsDigits(reply) && Value(reply) % BlockSize == 0
  }

  /** The position of the first element satisfying `p`, or `|s|` when there is none. */
  function FirstWhere<T>(s: seq<T>, p: T -> bool): (k: nat)
    ensures k <= |s|
    ensures forall j :: 0 <= j < k ==> !p(s[j])
    ensures k < |s| ==> p(s[k])
  {
    if s == [] then 0 else if p(s[0]) then 0 else 1 + FirstWhere(s[1..], p)
  }

  // ---------------------------------------------------------------------
  // Modes in ask mode
  //
  // In ask mode the reply for an image is stored back into `mode`. The
  // next image is asked again only while the replies are literally `ask`;
  // the first other reply settles the mode for every image that follows.
  // ---------------------------------------------------------------------

  /** The position of the first per-image reply that is not literally `ask`. */
  function Settled(rs: seq<string>): nat {
    FirstWhere(rs, (r: string) => r != AskMode)
  }

  /** The position of the reply that decides image `i`'s mode in ask mode. */
  function AnswerIndex(rs: seq<string>, i: nat): nat {
    if i < Settled(rs) then i else Settled(rs)
  }

  /** How many per-image replies the loop reads for the first `n` images. */
  function RepliesUsed(mode: string, rs: seq<string>, n: nat): nat {
    if mode != AskMode || n == 0 then 0 else AnswerIndex(rs, n - 1) + 1
  }

  /** The mode text written into a fragment after the reply `reply` in ask mode. */
  function AnsweredMode(reply: string): string {
    if reply == AskMode then ImageMode(reply) else reply
  }

  /** The mode field of image `i`'s fragment. */
  function ModeAt(mode: string, rs: seq<string>, i: nat): string
    requires mode == AskMode ==> AnswerIndex(rs, i) < |rs|
  {
    if mode != AskMode then mode else AnsweredMode(rs[AnswerIndex(rs, i)])
  }

  /** The value of the variable `mode` once `i` images have been handled. */
  function ModeAfter(mode: string, rs: seq<string>, i: nat): string
    requires RepliesUsed(mode, rs, i) <= |rs|
  {
    if mode != AskMode || i == 0 then mode else rs[AnswerIndex(rs, i - 1)]
  }

  /** While `mode` still reads `ask`, image `i` reads reply `i` and keeps the mode it gives. */
  lemma AskStep(mode: string, rs: seq<string>, i: nat)
    requires RepliesUsed(mode, rs, i) <= |rs|
    requires ModeAfter(mode, rs, i) == AskMode
    ensures mode == AskMode && RepliesUsed(mode, rs, i) == i && AnswerIndex(rs, i) == i
    ensures RepliesUsed(mode, rs, i + 1) == i + 1
    ensures i < |rs| ==> ModeAfter(mode, rs, i + 1) == rs[i] && ModeAt(mode, rs, i) == AnsweredMode(rs[i])
  {
    if i > 0 {
      assert AnswerIndex(rs, i - 1) == i - 1;
    }
  }

  /** Once `mode` no longer reads `ask`, no reply is read and the mode is carried over. */
  lemma SettledStep(mode: string, rs: seq<string>, i: nat)
    requires RepliesUsed(mode, rs, i) <= |rs|
    requires ModeAfter(mode, rs, i) != AskMode
    ensures RepliesUsed(mode, rs, i + 1) == RepliesUsed(mode, rs, i)
    ensures ModeAfter(mode, rs, i + 1) == ModeAfter(mode, rs, i)
    ensures ModeAt(mode, rs, i) == ModeAfter(mode, rs, i)
  {
    if mode == AskMode {
      assert AnswerIndex(rs, i - 1) == Settled(rs);
    }
  }

  /** Later images never need fewer replies. */
  lemma RepliesUsedMonotone(mode: string, rs: seq<string>, i: nat, n: nat)
    requires i <= n
    ensures RepliesUsed(mode, rs, i) <= RepliesUsed(mode, rs, n)
  {
  }

  // ---------------------------------------------------------------------
  // Fragments and totals
  // ---------------------------------------------------------------------

  function Fragment(stem: string, mode: string, size: nat, path: string): string {
    "--partition " + stem + ":" + mode + ":" + FromNat(size) + ":main --image " + stem + "=" + path
  }

  /** The fragment for image `i`. */
  function FragmentAt(images: seq<Image>, mode: string, rs: seq<string>, i: nat): string
    requires i < |images|
    requires mode == AskMode ==> AnswerIndex(rs, i) < |rs|
  {
    Fragment(images[i].stem, ModeAt(mode, rs, i), images[i].size, images[i].path)
  }

  /** One fragment per image, in discovery order. */
  function Fragments(images: seq<Image>, mode: string, rs: seq<string>): (parts: seq<string>)
    requires RepliesUsed(mode, rs, |images|) <= |rs|
    ensures |parts| == |images|
  {
    seq(|images|, (i: int) requires 0 <= i < |images| => FragmentAt(images, mode, rs, i))
  }

  function SumSizes(images: seq<Image>): nat {
    if images == [] then 0 else SumSizes(images[..|images| - 1]) + images[|images| - 1].size
  }

  predicate HasAbImage(images: seq<Image>) {
    exists i :: 0 <= i < |images| && images[i].stem in AbSuperPartitions
  }

  /** `" ".join(parts)` */
  function Join(parts: seq<string>): string {
    if parts == [] then ""
    else if |parts| == 1 then parts[0]
    else parts[0] + " " + Join(parts[1..])
  }

  function Render(isAb: bool, superSize: nat, imagesSize: nat, partitions: seq<string>,
                  sparseFlag: string, tag: int): string
  {
    CommandHead + (if isAb then "2" else "1")
    + " --device super:" + FromNat(superSize)
    + " --group main:" + FromNat(imagesSize)
    + " " + Join(partitions) + " " + sparseFlag
    + " --output ./super." + FromInt(tag) + ".img"
  }

  // ---------------------------------------------------------------------
  // Alignment diagnosis
  // ---------------------------------------------------------------------

  predicate IsSparse(head: seq<bv8>) {
    |head| >= 4 && head[..4] == SparseMagic
  }

  predicate Aligned(size: nat) {
    size % BlockSize == 0
  }

  /**
   * The scan either stops at `stop` (an aligned image, or the end) or reports
   * the raw image at `index`, short of `missing` bytes.
   */
  datatype Diagnosis = Passed(stop: nat) | Problem(index: nat, missing: nat)

  /**
   * The diagnosis from image `from` onward. Every image it passes over is
   * sparse and misaligned; it stops at the first aligned image and reports
   * the first raw misaligned one.
   */
  function Scan(images: seq<Image>, from: nat): (d: Diagnosis)
    requires from <= |images|
    decreases |images| - from
    ensures d.Passed? ==>
      from <= d.stop <= |images| && (d.stop < |images| ==> Aligned(images[d.stop].size))
    ensures d.Problem? ==>
      && from <= d.index < |images|
      && !Aligned(images[d.index].size) && !IsSparse(images[d.index].head)
      && d.missing == BlockSize - images[d.index].size % BlockSize
      && 1 <= d.missing < BlockSize
    ensures forall j :: from <= j < (if d.Passed? then d.stop else d.index) ==>
      !Aligned(images[j].size) && IsSparse(images[j].head)
  {
    if from == |images| then Passed(from)
    else if Aligned(images[from].size) then Passed(from)
    else if IsSparse(images[from].head) then Scan(images, from + 1)
    else Problem(from, BlockSize - images[from].size % BlockSize)
  }

  // ---------------------------------------------------------------------
  // The whole run, as a reference definition
  // ---------------------------------------------------------------------

  /**
   * What one run prints or how it stops. `replies` holds, in order: the mode
   * reply, the per-image mode replies, the super size replies, the sparse reply.
   */
  function Expected(dir: Option<seq<Image>>, replies: seq<string>, hash: seq<string> -> int): Outcome {
    if dir.None? then WrongDirectory
    else if dir.value == [] then NoImages
    else if replies == [] then InputExhausted
    else
      var images := dir.value;
      var mode := NormaliseMode(replies[0]);
      var rs := replies[1..];
      var used := RepliesUsed(mode, rs, |images|);
      if used > |rs| then InputExhausted
      else
        var partitions := Fragments(images, mode, rs);
        var rest := rs[used..];
        var k := FirstWhere(rest, ValidSuperSize);
        if k + 1 >= |rest| then InputExhausted
        else
          var total := SumSizes(images);
          var diagnosis := Scan(images, 0);
          if !Aligned(total) && diagnosis.Problem? then
            Misaligned(diagnosis.index, diagnosis.missing)
          else
            Command(Render(HasAbImage(images), Value(rest[k]), total, partitions,
                           SparseFlag(rest[k + 1]), hash(partitions)))
  }

  // ---------------------------------------------------------------------
  // The run, step by step
  // ---------------------------------------------------------------------

  datatype Plan = Plan(partitions: seq<string>, imagesSize: nat, isAb: bool, used: nat)

  /**
   * The per-image loop: A/B detection, the mode question in ask mode, size
   * accumulation and one fragment per image. `rs` are the replies after the
   * first mode reply; `used` says how many of them the loop read.
   */
  method PlanImages(images: seq<Image>, mode: string, rs: seq<string>) returns (plan: Option<Plan>)
    ensures plan.None? <==> RepliesUsed(mode, rs, |images|) > |rs|
    ensures plan.Some? ==>
      && plan.value.used == RepliesUsed(mode, rs, |images|)
      && plan.value.partitions == Fragments(images, mode, rs)
      && plan.value.imagesSize == SumSizes(images)
      && (plan.value.isAb <==> HasAbImage(images))
  {
    var partitions: seq<string> := [];
    var imagesSize := 0;
    var isAb := false;
    var current := mode;
    var imageMode := "";
    var next := 0;
    for i := 0 to |images|
      invariant next == RepliesUsed(mode, rs, i) <= |rs|
      invariant RepliesUsed(mode, rs, |images|) <= |rs| ==> RepliesUsed(mode, rs, i) <= RepliesUsed(mode, rs, |images|)
      invariant current == ModeAfter(mode, rs, i)
      invariant |partitions| == i
      invariant forall j :: 0 <= j < i ==> partitions[j] == FragmentAt(images, mode, rs, j)
      invariant imagesSize == SumSizes(images[..i])
      invariant isAb <==> exists j :: 0 <= j < i && images[j].stem in AbSuperPartitions
    {
      var image := images[i];
      if image.stem in AbSuperPartitions {
        isAb := true;
      }
      if current == AskMode {
        AskStep(mode, rs, i);
        if next == |rs| {
          RepliesUsedMonotone(mode, rs, i + 1, |images|);
          return None;
        }
        current := rs[next];
        next := next + 1;
        imageMode := ImageMode(current);
      } else {
        SettledStep(mode, rs, i);
      }
      imagesSize := imagesSize + image.size;
      assert images[..i + 1][..i] == images[..i];
      var fragmentMode := if current == AskMode then imageMode else current;
      assert fragmentMode == ModeAt(mode, rs, i);
      var fragment := Fragment(image.stem, fragmentMode, image.size, image.path);
      assert fragment == FragmentAt(images, mode, rs, i);
      partitions := partitions + [fragment];
    }
    assert images[..|images|] == images;
    return Some(Plan(partitions, imagesSize, isAb, next));
  }

  /**
   * The super size prompt: replies are read until one is valid. Returns that
   * reply's value and how many replies were read, or None when the replies
   * run out first.
   */
  method ReadSuperSize(rs: seq<string>) returns (r: Option<(nat, nat)>)
    ensures r.None? ==> forall j :: 0 <= j < |rs| ==> !ValidSuperSize(rs[j])
    ensures r.Some? ==>
      && 1 <= r.value.1 <= |rs|
      && ValidSuperSize(rs[r.value.1 - 1])
      && r.value.0 == Value(rs[r.value.1 - 1])
      && r.value.0 % BlockSize == 0
      && forall j :: 0 <= j < r.value.1 - 1 ==> !ValidSuperSize(rs[j])
  {
    var next := 0;
    while next < |rs|
      invariant next <= |rs|
      invariant forall j :: 0 <= j < next ==> !ValidSuperSize(rs[j])
    {
      var superSize := rs[next];
      next := next + 1;
      if IsDigits(superSize) && Value(superSize) % BlockSize == 0 {
        return Some((Value(superSize), next));
      }
    }
    return None;
  }

  /** The alignment diagnosis loop, with its `break` and its early exit. */
  method ScanAlignment(images: seq<Image>) returns (d: Diagnosis)
    ensures d == Scan(images, 0)
  {
    var i := 0;
    while i < |images|
      invariant i <= |images|
      invariant Scan(images, i) == Scan(images, 0)
    {
      var incompleteBlock := images[i].size % BlockSize;
      if incompleteBlock == 0 {
        break;
      }
      if !IsSparse(images[i].head) {
        return Problem(i, BlockSize - incompleteBlock);
      }
      i := i + 1;
    }
    return Passed(i);
  }

  /** One run of the planner, from the directory listing and the replies to its outcome. */
  method GenerateCommand(dir: Option<seq<Image>>, replies: seq<string>, hash: seq<string> -> int)
    returns (out: Outcome)
    ensures out == Expected(dir, replies, hash)
  {
    if dir.None? {
      return WrongDirectory;
    }
    var images := dir.value;
    if images == [] {
      return NoImages;
    }
    if replies == [] {
      return InputExhausted;
    }
    var mode := NormaliseMode(replies[0]);
    var rs := replies[1..];
    var plan := PlanImages(images, mode, rs);
    if plan.None? {
      return InputExhausted;
    }
    var Plan(partitions, imagesSize, isAb, used) := plan.value;
    var rest := rs[used..];
    var superSize := ReadSuperSize(rest);
    if superSize.None? {
      return InputExhausted;
    }
    var k := superSize.value.1 - 1;
    assert k == FirstWhere(rest, ValidSuperSize);
    if superSize.value.1 == |rest| {
      return InputExhausted;
    }
    var sparseFlag := SparseFlag(rest[k + 1]);
    if imagesSize % BlockSize != 0 {
      var diagnosis := ScanAlignment(images);
      if diagnosis.Problem? {
        return Misaligned(diagnosis.index, diagnosis.missing);
      }
    }
    out := Command(Render(isAb, superSize.value.0, imagesSize, partitions, sparseFlag, hash(partitions)));
  }

  // ---------------------------------------------------------------------
  // Properties
  // ---------------------------------------------------------------------

  /** With a fixed mode no per-image reply is read and every fragment carries that mode. */
  lemma FixedModeFragments(images: seq<Image>, mode: string, rs: seq<string>)
    requires mode != AskMode
    ensures RepliesUsed(mode, rs, |images|) == 0
    ensures forall i :: 0 <= i < |images| ==>
      Fragments(images, mode, rs)[i] == Fragment(images[i].stem, mode, images[i].size, images[i].path)
  {
  }

  /**
   * In ask mode a first reply other than `ask` is the only one read, and its
   * raw text becomes the mode field of every fragment.
   */
  lemma AskFirstReplySettles(images: seq<Image>, rs: seq<string>)
    requires |images| > 0 && |rs| > 0 && rs[0] != AskMode
    ensures RepliesUsed(AskMode, rs, |images|) == 1
    ensures forall i :: 0 <= i < |images| ==>
      Fragments(images, AskMode, rs)[i] == Fragment(images[i].stem, rs[0], images[i].size, images[i].path)
  {
    assert Settled(rs) == 0;
  }

  /**
   * In ask mode, while the replies are literally `ask`, each image is asked
   * again and its fragment is read-write.
   */
  lemma {:induction false} AskRepliesKeepAsking(rs: seq<string>, i: nat)
    requires i < |rs|
    requires forall j :: 0 <= j <= i ==> rs[j] == AskMode
    ensures RepliesUsed(AskMode, rs, i + 1) == i + 1
    ensures ModeAt(AskMode, rs, i) == "none"
  {
  }

  /** A file is sparse exactly when its first four bytes, read as a little-endian word, are 0xED26FF3A. */
  lemma SparseMagicWord(head: seq<bv8>)
    ensures IsSparse(head) <==>
      |head| >= 4 &&
      ((head[3] as bv32) << 24) | ((head[2] as bv32) << 16) | ((head[1] as bv32) << 8) | (head[0] as bv32)
        == 0xED26FF3A
  {
    if |head| >= 4 {
      var w := ((head[3] as bv32) << 24) | ((head[2] as bv32) << 16) | ((head[1] as bv32) << 8) | (head[0] as bv32);
      if w == 0xED26FF3A {
        assert head[..4] == [head[0], head[1], head[2], head[3]];
      }
    }
  }

  /** The rendered command starts with the fixed options and then the slot count. */
  lemma RenderSlots(isAb: bool, superSize: nat, imagesSize: nat, partitions: seq<string>,
                    sparseFlag: string, tag: int)
    ensures var line := Render(isAb, superSize, imagesSize, partitions, sparseFlag, tag);
      && |line| > |CommandHead|
      && line[..|CommandHead|] == CommandHead
      && line[|CommandHead|] == (if isAb then '2' else '1')
  {
    var line := Render(isAb, superSize, imagesSize, partitions, sparseFlag, tag);
    var d := if isAb then "2" else "1";
    var tail := line[|CommandHead| + 1..];
    assert line == CommandHead + d + tail;
  }

  /** The command carries `--metadata-slots 2` exactly when some image has an A/B stem, else 1. */
  lemma SlotsFollowAb(dir: Option<seq<Image>>, replies: seq<string>, hash: seq<string> -> int)
    requires Expected(dir, replies, hash).Command?
    ensures var line := Expected(dir, replies, hash).line;
      && |line| > |CommandHead|
      && line[..|CommandHead|] == CommandHead
      && line[|CommandHead|] == (if HasAbImage(dir.value) then '2' else '1')
  {
    var images := dir.value;
    var mode := NormaliseMode(replies[0]);
    var rs := replies[1..];
    var used := RepliesUsed(mode, rs, |images|);
    var partitions := Fragments(images, mode, rs);
    var rest := rs[used..];
    var k := FirstWhere(rest, ValidSuperSize);
    RenderSlots(HasAbImage(images), Value(rest[k]), SumSizes(images), partitions,
                SparseFlag(rest[k + 1]), hash(partitions));
  }

  /** The command is printed only after some reply passed the super size check. */
  lemma CommandNeedsValidSuperSize(dir: Option<seq<Image>>, replies: seq<string>, hash: seq<string> -> int)
    requires Expected(dir, replies, hash).Command?
    ensures exists j :: 1 <= j < |replies| && ValidSuperSize(replies[j])
  {
    var images := dir.value;
    var mode := NormaliseMode(replies[0]);
    var rs := replies[1..];
    var used := RepliesUsed(mode, rs, |images|);
    var rest := rs[used..];
    var k := FirstWhere(rest, ValidSuperSize);
    assert replies[1 + used + k] == rest[k];
  }

  /**
   * A run stops on a misaligned image only when the total is misaligned, and
   * then at a raw image whose last block is short by 1 to 4095 bytes, every
   * image before it being sparse and misaligned.
   */
  lemma MisalignedDiagnosis(dir: Option<seq<Image>>, replies: seq<string>, hash: seq<string> -> int)
    requires Expected(dir, replies, hash).Misaligned?
    ensures dir.Some?
    ensures var images := dir.value;
      var Misaligned(k, missing) := Expected(dir, replies, hash);
      && !Aligned(SumSizes(images))
      && k < |images| && !IsSparse(images[k].head)
      && 1 <= missing < BlockSize && Aligned(images[k].size + missing)
      && forall j :: 0 <= j < k ==> !Aligned(images[j].size) && IsSparse(images[j].head)
  {
  }

  /** The diagnosis stops at the first block-aligned image, whatever follows it. */
  lemma {:induction false} ScanStopsAtAligned(images: seq<Image>, from: nat, i: nat)
    requires from <= i < |images|
    requires Aligned(images[i].size)
    requires forall j :: from <= j < i ==> IsSparse(images[j].head)
    ensures Scan(images, from) == Passed(FirstWhere(images[from..], (img: Image) => Aligned(img.size)) + from)
    decreases i - from
  {
    if !Aligned(images[from].size) {
      ScanStopsAtAligned(images, from + 1, i);
      assert images[from..][1..] == images[from + 1..];
    }
  }

  /**
   * Because of the `break`, an aligned first image ends the diagnosis: a raw
   * misaligned image after it is never reported, and the run goes on to print
   * the command although the total is not a multiple of the block size.
   */
  lemma BreakHidesLaterMisalignedImage(replies: seq<string>, hash: seq<string> -> int)
    ensures var images := [Image("boot", "imgs/boot.img", 4096, []),
                           Image("vendor", "imgs/vendor.img", 4097, [0, 0, 0, 0])];
      && !Aligned(SumSizes(images))
      && !IsSparse(images[1].head) && !Aligned(images[1].size)
      && Scan(images, 0) == Passed(0)
      && !Expected(Some(images), replies, hash).Misaligned?
  {
    var images := [Image("boot", "imgs/boot.img", 4096, []),
                   Image("vendor", "imgs/vendor.img", 4097, [0, 0, 0, 0])];
    assert images[..1] == [images[0]];
    assert images[..2][..1] == images[..1];
    assert images[1].head[..4][0] != SparseMagic[0];
  }

  /** A single read-write `boot` image of 8192 bytes gives one fragment and an A-only plan. */
  lemma SingleBootImage()
    ensures var images := [Image("boot", "imgs/boot.img", 8192, [])];
      && SumSizes(images) == 8192
      && !HasAbImage(images)
      && Fragments(images, "none", []) == [Fragment("boot", "none", 8192, "imgs/boot.img")]
      && FromNat(8192) == "8192"
  {
    var images := [Image("boot", "imgs/boot.img", 8192, [])];
    assert images[..0] == [];
    assert Fragments(images, "none", [])[0] == FragmentAt(images, "none", [], 0);
    assert ModeAt("none", [], 0) == "none";
    assert "boot" !in AbSuperPartitions;
    assert FromNat(8192) == "8192" by {
      assert FromNat(8) == "8";
      assert FromNat(81) == "81";
      assert FromNat(819) == "819";
    }
  }
}
