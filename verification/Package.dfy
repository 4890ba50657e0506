// run_package_v3 of payloads/uart-firmware-recovery/recovery.c: from the package header to the rewritten flash.
module Package {
  import opened Bytes
  import opened Words
  import opened Options
  import opened Crc32
  import opened Numerals
  import opened NorFlash
  import opened SpiFlows
  import opened PackageHeader
  import JsonText
  import JsonScan
  import Uart
  import FrameV3
  import ObjectLog
  import ObjectReceiver
  import ObjectTransfer
  import Manifest
  import ImageLayout
  import Sha256

  const MAX_MANIFEST: nat := 0x1_0000
  const IMAGE_BYTES: u32 := 0x0100_0000
  const FLAG_FULL_FLASH: bv32 := 1
  const FLAG_DRY_RUN: bv32 := 2
  const KNOWN_FLAGS: bv32 := 7
  const OBJECT_IMAGE: u32 := 1
  const OBJECT_MANIFEST: u32 := 2

  /** The build and the policies a run depends on: the SoC family, the list of models, the manifest members that are
      compared with fixed values or with the header's model and flags, and how many windows of an object begin before its transfer limit passes. */
  datatype Policy = Policy(
    socFamily: u32,
    modelAllowed: seq<byte> -> bool,
    otherMetadata: (seq<byte>, Header) -> bool,
    otherMembers: (seq<byte>, Header) -> bool,
    patience: u32 -> nat)

  /** validate_v3_package_header, in 32-bit words. */
  predicate HeaderValid(h: Header, raw: seq<byte>, p: Policy)
    requires |raw| == HEADER_BYTES
  {
    && h.magic0 == 0x534f4d50 && h.magic1 == 0x33474b50
    && h.version == 3
    && h.flags & !KNOWN_FLAGS == 0 && h.flags & FLAG_FULL_FLASH != 0
    && h.socFamily == p.socFamily && h.imageSize == IMAGE_BYTES
    && 0 < h.manifestSize <= MAX_MANIFEST
    && (h.frameSize == 1024 || h.frameSize == 4096)
    && 0 < h.windowSize <= 16
    && h.representation <= 3
    && 0 < h.imageFrames <= Wrap(h.imageSize + h.frameSize - 1) / h.frameSize
    && h.manifestFrames == Wrap(h.manifestSize + h.frameSize - 1) / h.frameSize
    && 0 < h.imageWireBytes <= Wrap(h.imageFrames * (40 + 8192))
    && h.model != [] && h.model[0] != 0 && p.modelAllowed(h.model)
    && h.headerCrc == Crc(raw[..140])
  }

  // ----- what the manifest must say

  /** validate_manifest_metadata_v3: the artifact's digest is the header's image digest, besides the fixed members. */
  predicate MetadataOk(p: Policy, manifest: seq<byte>, h: Header) {
    Manifest.Names(Manifest.AsText(manifest), ["artifact"], "sha256", h.imageSha) && p.otherMetadata(manifest, h)
  }

  /** validate_manifest_and_image and validate_flash_manifest. */
  predicate ImageOk(p: Policy, manifest: seq<byte>, image: seq<byte>, h: Header)
    requires |image| == FLASH_BYTES
  {
    var text := Manifest.AsText(manifest);
    && Manifest.Names(text, ["artifact"], "sha256", h.imageSha)
    && p.otherMembers(manifest, h)
    && ImageLayout.LayoutOk(image)
    && Manifest.Names(text, ["recovery", "uart_ramloader"], "loader_sha256", Sha256.Sum(image[..LOADER_BYTES]))
  }

  // ----- the confirmation line

  /** The characters of a C string in front of its NUL. */
  function CString(s: string): string {
    if s == "" || s[0] == '\0' then "" else [s[0]] + CString(s[1..])
  }

  /** What read_confirmation_once compares: recv_line_timeout keeps the first 63 characters of a line. */
  function Kept(line: string): string {
    CString(if |line| > 63 then line[..63] else line)
  }

  /** The challenge of a run. */
  function Nonce(h: Header, challenge: bv32): u32 {
    Xor(Xor(h.imageCrc, h.manifestCrc), challenge) as int
  }

  function ConfirmationText(nonce: u32): (r: string)
    ensures |r| == 19
  {
    "ERASEFLASH " + Hex8(nonce)
  }

  /** A confirmation for one challenge is worth nothing for another. */
  lemma ConfirmationIsSpecific(a: u32, b: u32)
    ensures ConfirmationText(a) == ConfirmationText(b) <==> a == b
  {
    assert ConfirmationText(a)[11..] == Hex8(a) && ConfirmationText(b)[11..] == Hex8(b);
    if ConfirmationText(a) == ConfirmationText(b) {
      Hex8Injective(a, b);
    }
  }

  lemma {:induction false} CStringIs(s: string, text: string)
    requires forall i :: 0 <= i < |text| ==> text[i] != '\0'
    ensures CString(s) == text <==> text <= s && (|s| > |text| ==> s[|text|] == '\0')
    decreases |s|
  {
    if text != "" && s != "" && s[0] == text[0] {
      CStringIs(s[1..], text[1..]);
      assert text == [text[0]] + text[1..] && s == [s[0]] + s[1..];
      assert CString(s) == text <==> CString(s[1..]) == text[1..];
    }
  }

  lemma {:induction false} HexHasNoNul(x: nat, n: nat)
    ensures forall i :: 0 <= i < |Hex(x, n)| ==> Hex(x, n)[i] != '\0'
    decreases n
  {
    if n > 0 {
      HexHasNoNul(x / 16, n - 1);
    }
  }

  /** A line confirms exactly when it is the challenge's text, or that text with a NUL and anything behind it. */
  lemma ConfirmingLines(line: string, nonce: u32)
    ensures Kept(line) == ConfirmationText(nonce)
       <==> ConfirmationText(nonce) <= line && (|line| > 19 ==> line[19] == '\0')
  {
    hide CString, Hex;
    HexHasNoNul(nonce, 8);
    CStringIs(if |line| > 63 then line[..63] else line, ConfirmationText(nonce));
  }

  /** What a run has established, in order; the evidence is part of each event. */
  datatype Event =
    | HeaderChecked(raw: seq<byte>)
    | ManifestVerified(manifest: seq<byte>)
    | MetadataAccepted
    | ImageVerified(image: seq<byte>)
    | ImageAccepted
    | FlashRequested
    | Confirmed(line: string, nonce: u32)
    | EraseStarted

  /** Everything that must stand in front of an erase, in this order and about the same header, manifest and image. */
  predicate Authorised(p: Policy, t: seq<Event>) {
    && |t| == 7
    && t[0].HeaderChecked? && t[1].ManifestVerified? && t[2].MetadataAccepted? && t[3].ImageVerified?
    && t[4].ImageAccepted? && t[5].FlashRequested? && t[6].Confirmed?
    && |t[0].raw| == HEADER_BYTES && |t[3].image| == FLASH_BYTES
    && (var h := Parse(t[0].raw);
        && HeaderValid(h, t[0].raw, p)
        && Crc(t[1].manifest) == h.manifestCrc && Sha256.Sum(t[1].manifest) == h.manifestSha
        && MetadataOk(p, t[1].manifest, h)
        && Crc(t[3].image) == h.imageCrc && Sha256.Sum(t[3].image) == h.imageSha
        && ImageOk(p, t[1].manifest, t[3].image, h)
        && h.flags & FLAG_DRY_RUN == 0
        && Kept(t[6].line) == ConfirmationText(t[6].nonce))
  }

  /** An erase is justified by the whole chain in front of it, with a confirmation that answers this run's challenge and did arrive. */
  predicate Justified(p: Policy, t: seq<Event>, challenge: bv32, lines: seq<string>) {
    && |t| == 8 && t[7] == EraseStarted && Authorised(p, t[..7])
    && t[6].nonce == Nonce(Parse(t[0].raw), challenge) && t[6].line in lines
  }

  /** The cells are the image of the chain, with the CRC and digest that its valid header names. */
  predicate HoldsImage(t: seq<Event>, cells: seq<byte>) {
    && |t| == 8 && t[0].HeaderChecked? && |t[0].raw| == HEADER_BYTES && t[3] == ImageVerified(cells)
    && Crc(cells) == Parse(t[0].raw).imageCrc && Sha256.Sum(cells) == Parse(t[0].raw).imageSha
  }

  datatype Outcome = Rejected | DryRunOk | Waiting | FlashFailed | Success

  lemma MemberNames()
    ensures JsonScan.PlainKey("sha256") && JsonScan.PlainKey("loader_sha256")
    ensures forall k :: k in ["artifact"] ==> JsonScan.PlainKey(k)
    ensures forall k :: k in ["recovery", "uart_ramloader"] ==> JsonScan.PlainKey(k)
  {}

  /** An erase is only ever authorised for an image that the manifest names: for any manifest that prints a tree, in any
      layout, the direct members artifact.sha256 and recovery.uart_ramloader.loader_sha256 are the digests of the image
      and of its loader region, whatever members of the same names are nested elsewhere. */
  lemma ErasedImageIsNamed(p: Policy, t: seq<Event>, v: JsonText.Value)
    requires Authorised(p, t)
    requires v.Object? && JsonScan.Presents(Manifest.AsText(t[1].manifest), v.blank, v.members)
    ensures var artifact, loader := JsonScan.Descend(v, ["artifact"]), JsonScan.Descend(v, ["recovery", "uart_ramloader"]);
            && artifact.Some? && artifact.value.Object?
            && JsonText.Lookup(artifact.value.members, "sha256") == Some(JsonText.Text(Manifest.HexDigest(Sha256.Sum(t[3].image))))
            && loader.Some? && loader.value.Object?
            && JsonText.Lookup(loader.value.members, "loader_sha256")
               == Some(JsonText.Text(Manifest.HexDigest(Sha256.Sum(t[3].image[..LOADER_BYTES]))))
  {
    hide Crc, Sha256.Sum, Parse, HeaderValid, Manifest.Names, JsonScan.Descend, Manifest.AsText, Manifest.HexDigest, JsonScan.Presents;
    MemberNames();
    var text := Manifest.AsText(t[1].manifest);
    Manifest.NamesExactly(text, v, ["artifact"], "sha256", Sha256.Sum(t[3].image));
    Manifest.NamesExactly(text, v, ["recovery", "uart_ramloader"], "loader_sha256", Sha256.Sum(t[3].image[..LOADER_BYTES]));
  }

  /** An erase is only ever authorised for an image that can be recovered again: the loader's banner stands inside its
      first 256 KiB, and the kernel's and the root file system's magics in their places. */
  lemma ErasedImageIsRecoverable(p: Policy, t: seq<Event>) returns (at: nat)
    requires Authorised(p, t)
    ensures at + 15 <= 256 * 1024 && Manifest.AsText(t[3].image[at..at + 15]) == "PMOSRAM READY 2"
    ensures Manifest.AsText(t[3].image[0x4_0000..0x4_0004]) == "SPIM"
    ensures Manifest.AsText(t[3].image[0x30_0000..0x30_0004]) == "hsqs"
  {
    hide Crc, Sha256.Sum, Parse, HeaderValid, Manifest.Names, MetadataOk;
    at := MarkerIn(t[3].image);
    LayoutTexts();
  }

  lemma LayoutTexts()
    ensures Manifest.AsText(ImageLayout.LOADER_MARKER) == "PMOSRAM READY 2"
    ensures Manifest.AsText(ImageLayout.SPIM_MAGIC) == "SPIM" && Manifest.AsText(ImageLayout.SQUASHFS_MAGIC) == "hsqs"
  {}

  lemma MarkerIn(image: seq<byte>) returns (at: nat)
    requires |image| == FLASH_BYTES && ImageLayout.LayoutOk(image)
    ensures at + |ImageLayout.LOADER_MARKER| <= LOADER_BYTES
    ensures image[at..at + |ImageLayout.LOADER_MARKER|] == ImageLayout.LOADER_MARKER
  {
    var n := |ImageLayout.LOADER_MARKER|;
    at :| 0 <= at < |image[..LOADER_BYTES]| && ImageLayout.StandsAt(image[..LOADER_BYTES], at, ImageLayout.LOADER_MARKER);
    SliceOfSlice(image, 0, LOADER_BYTES, at, at + n);
    assert image[0..LOADER_BYTES] == image[..LOADER_BYTES];
  }

  // ----- what a line must carry

  function ManifestObject(h: Header): FrameV3.Object {
    FrameV3.Object(OBJECT_MANIFEST, h.frameSize, h.manifestSize)
  }

  function ImageObject(h: Header): FrameV3.Object {
    FrameV3.Object(OBJECT_IMAGE, h.frameSize, h.imageSize)
  }

  predicate Objects(h: Header) {
    && ObjectLog.Admissible(ManifestObject(h), h.manifestFrames, h.windowSize)
    && ObjectLog.Admissible(ImageObject(h), h.imageFrames, h.windowSize)
    && h.manifestSize <= MAX_MANIFEST && h.imageSize == FLASH_BYTES
  }

  /** A valid header describes two objects that can be received: object 2, the manifest, and object 1, the flash image. */
  lemma ValidHeaderObjects(h: Header, raw: seq<byte>, p: Policy)
    requires |raw| == HEADER_BYTES && HeaderValid(h, raw, p)
    ensures Objects(h)
    ensures ManifestObject(h) == FrameV3.Object(2, h.frameSize, h.manifestSize)
    ensures ImageObject(h) == FrameV3.Object(1, h.frameSize, 16 * 1024 * 1024)
  {
    hide Crc;
    var n := Wrap(h.manifestSize + h.frameSize - 1);
    assert n == h.manifestSize + h.frameSize - 1 >= h.frameSize;
    if h.frameSize == 1024 {
      assert n / 1024 >= 1;
    } else {
      assert n / 4096 >= 1;
    }
  }

  /** What a line gives for one object: whether it was received, the bytes, and the line behind it. */
  datatype Fetch = Fetch(ok: bool, data: seq<byte>, rest: seq<Uart.Arrival>)

  function Fetched(line: seq<Uart.Arrival>, o: FrameV3.Object, frames: nat, window: nat, fillFf: bool,
                   crc: bv32, sha: seq<byte>, patience: nat): (r: Fetch)
    requires ObjectLog.Admissible(o, frames, window)
    ensures |r.data| == o.size
  {
    var run := ObjectLog.ObjectRun(ObjectLog.Progress(line, []), o, 0, frames, window, patience).1;
    Fetch(ObjectReceiver.Received(line, o, frames, window, fillFf, crc, sha, true, patience),
          ObjectLog.Replay(ObjectReceiver.Filled(o, fillFf), run.log), run.line)
  }

  function ManifestFetch(line: seq<Uart.Arrival>, h: Header, p: Policy): Fetch
    requires Objects(h)
  {
    Fetched(line, ManifestObject(h), h.manifestFrames, h.windowSize, false, h.manifestCrc, h.manifestSha, p.patience(OBJECT_MANIFEST))
  }

  function ImageFetch(line: seq<Uart.Arrival>, h: Header, p: Policy): (r: Fetch)
    requires Objects(h)
    ensures |r.data| == FLASH_BYTES
  {
    Fetched(line, ImageObject(h), h.imageFrames, h.windowSize, true, h.imageCrc, h.imageSha, p.patience(OBJECT_IMAGE))
  }

  /** The bytes that no accepted frame writes are those of erased flash in the image and zeros in the manifest. */
  lemma UnwrittenBytes(line: seq<Uart.Arrival>, h: Header, p: Policy, x: nat)
    requires Objects(h)
    ensures var log := ObjectLog.ObjectRun(ObjectLog.Progress(line, []), ImageObject(h), 0, h.imageFrames, h.windowSize, p.patience(1)).1.log;
            x < FLASH_BYTES && Untouched(log, x, FLASH_BYTES) ==> ImageFetch(line, h, p).data[x] == 0xff
    ensures var log := ObjectLog.ObjectRun(ObjectLog.Progress(line, []), ManifestObject(h), 0, h.manifestFrames, h.windowSize, p.patience(2)).1.log;
            x < h.manifestSize && Untouched(log, x, h.manifestSize) ==> ManifestFetch(line, h, p).data[x] == 0
  {
    hide ObjectLog.ObjectRun, ObjectLog.Replay, ObjectReceiver.Received;
    var i := ObjectLog.ObjectRun(ObjectLog.Progress(line, []), ImageObject(h), 0, h.imageFrames, h.windowSize, p.patience(1)).1.log;
    var m := ObjectLog.ObjectRun(ObjectLog.Progress(line, []), ManifestObject(h), 0, h.manifestFrames, h.windowSize, p.patience(2)).1.log;
    if x < FLASH_BYTES && Untouched(i, x, FLASH_BYTES) {
      ObjectLog.ReplayByte(ObjectReceiver.Filled(ImageObject(h), true), i, x);
    }
    if x < h.manifestSize && Untouched(m, x, h.manifestSize) {
      ObjectLog.ReplayByte(ObjectReceiver.Filled(ManifestObject(h), false), m, x);
    }
  }

  /** Every entry lies inside the object and none writes byte x. */
  predicate Untouched(log: seq<ObjectLog.Entry>, x: nat, size: nat) {
    forall k :: 0 <= k < |log| ==> log[k].offset + |log[k].payload| <= size && !ObjectLog.Writes(log[k], x)
  }

  /** Behind the header: both objects arrive and the manifest accepts them. */
  predicate BodyVerifiable(line: seq<Uart.Arrival>, h: Header, p: Policy)
    requires Objects(h)
  {
    var m := ManifestFetch(line, h, p);
    && m.ok && MetadataOk(p, m.data, h)
    && (var i := ImageFetch(m.rest, h, p);
        i.ok && ImageOk(p, m.data, i.data, h))
  }

  function HeaderOn(line: seq<Uart.Arrival>): Header
    requires Uart.Take(line, HEADER_BYTES).ok
  {
    Parse(Uart.Take(line, HEADER_BYTES).data)
  }

  /** The line carries a package that passes every check in front of the challenge; a valid header always describes objects. */
  predicate Verifiable(line: seq<Uart.Arrival>, p: Policy) {
    var head := Uart.Take(line, HEADER_BYTES);
    head.ok && HeaderValid(HeaderOn(line), head.data, p)
    && Objects(HeaderOn(line)) && BodyVerifiable(head.rest, HeaderOn(line), p)
  }

  // ----- the header, byte for byte

  /** The number of frames is the size over the frame size, rounded up. */
  predicate RoundedUp(frames: int, size: int, frameSize: int) {
    (frames - 1) * frameSize < size <= frames * frameSize
  }

  /** What a header's bytes must say, over the unbounded integers: sealed by its CRC; "PMOSPKG3", version 3; a full flash,
      with or without a dry run and an untested model; this SoC and 16 MiB; a manifest of up to 64 KiB; frames and windows
      of an allowed size; as many frames as the two objects need; a model that the build allows. */
  predicate Admitted(raw: seq<byte>, p: Policy)
    requires |raw| == HEADER_BYTES
  {
    hide Crc, Le32;
    var frameSize, frames, size := Le32(raw[28..32]), Le32(raw[40..44]), Le32(raw[24..28]);
    && Sealed(raw)
    && Le32(raw[0..4]) == 0x534f4d50 && Le32(raw[4..8]) == 0x33474b50 && Le32(raw[8..12]) == 3
    && raw[12] in {1, 3, 5, 7} && raw[13] == 0 && raw[14] == 0 && raw[15] == 0
    && Le32(raw[16..20]) == p.socFamily && Le32(raw[20..24]) == 16 * 1024 * 1024
    && 1 <= size <= 64 * 1024
    && frameSize in {1024, 4096}
    && 1 <= Le32(raw[32..36]) <= 16
    && Le32(raw[36..40]) in {0, 1, 2, 3}
    && 1 <= frames <= 16 * 1024 * 1024 / frameSize
    && RoundedUp(Le32(raw[44..48]), size, frameSize)
    && 1 <= Le32(raw[48..52]) <= frames * 8232
    && raw[124] != 0 && p.modelAllowed(raw[124..139] + [0])
  }

  lemma RoundedUpExactly(frames: u32, size: nat, frameSize: nat)
    requires 1 <= size <= 0x1_0000 && (frameSize == 1024 || frameSize == 4096)
    ensures frames == Wrap(size + frameSize - 1) / frameSize <==> RoundedUp(frames, size, frameSize)
  {
    var n := size + frameSize - 1;
    assert Wrap(n) == n;
    if frameSize == 1024 {
      assert n == 1024 * (n / 1024) + n % 1024;
    } else {
      assert n == 4096 * (n / 4096) + n % 4096;
    }
  }

  lemma MostFrames(frameSize: nat)
    requires frameSize == 1024 || frameSize == 4096
    ensures Wrap(16 * 1024 * 1024 + frameSize - 1) / frameSize == 16 * 1024 * 1024 / frameSize <= 16384
  {}

  lemma FlagValues(f: bv32)
    ensures f & !7 == 0 && f & 1 != 0 <==> f == 1 || f == 3 || f == 5 || f == 7
    ensures f == 1 || f == 5 ==> f & 2 == 0
    ensures f == 3 || f == 7 ==> f & 2 != 0
  {}

  lemma FlagWords()
    ensures Word(0) == 0 && Word(1) == 1 && Word(3) == 3 && Word(5) == 5 && Word(7) == 7
  {
    assert ToBits(0) == Bits(false, false, false, false, false, false, false, false);
    assert ToBits(1) == Bits(true, false, false, false, false, false, false, false);
    assert ToBits(3) == Bits(true, true, false, false, false, false, false, false);
    assert ToBits(5) == Bits(true, false, true, false, false, false, false, false);
    assert ToBits(7) == Bits(true, true, true, false, false, false, false, false);
    hide ToBits;
  }

  lemma NothingAbove(w: bv32)
    ensures Xor(w, Up(Xor(0, Up(Xor(0, Up(Xor(0, Up(0)))))))) == w
  {}

  lemma SmallWord(b: byte, w: bv32)
    requires Word(b) == w && Word(0) == 0
    ensures Pack([b, 0, 0, 0]) == w
  {
    hide Word, Pack, Xor, Up;
    PackFour(b, 0, 0, 0);
    NothingAbove(w);
  }

  lemma SmallWords()
    ensures Pack([1, 0, 0, 0]) == 1 && Pack([3, 0, 0, 0]) == 3 && Pack([5, 0, 0, 0]) == 5 && Pack([7, 0, 0, 0]) == 7
  {
    hide Word, Pack;
    FlagWords();
    SmallWord(1, 1);
    SmallWord(3, 3);
    SmallWord(5, 5);
    SmallWord(7, 7);
  }

  /** The flag word's bytes: bit 0 asks for the whole flash, bit 1 for a dry run, bit 2 allows an untested model. */
  lemma FlagBytes(d: seq<byte>)
    requires |d| == 4
    ensures Pack(d) & !KNOWN_FLAGS == 0 && Pack(d) & FLAG_FULL_FLASH != 0
       <==> d[0] in {1, 3, 5, 7} && d[1] == 0 && d[2] == 0 && d[3] == 0
    ensures d[0] in {1, 3, 5, 7} && d[1] == 0 && d[2] == 0 && d[3] == 0 ==> (Pack(d) & FLAG_DRY_RUN != 0 <==> d[0] in {3, 7})
  {
    hide Pack;
    SmallWords();
    FlagValues(Pack(d));
    if Pack(d) == 1 { PackInjective(d, [1, 0, 0, 0]); }
    if Pack(d) == 3 { PackInjective(d, [3, 0, 0, 0]); }
    if Pack(d) == 5 { PackInjective(d, [5, 0, 0, 0]); }
    if Pack(d) == 7 { PackInjective(d, [7, 0, 0, 0]); }
    assert d == [d[0], d[1], d[2], d[3]];
  }

  lemma FieldsOf(raw: seq<byte>)
    requires |raw| == HEADER_BYTES
    ensures var h := Parse(raw);
            && h.magic0 == Le32(raw[0..4]) && h.magic1 == Le32(raw[4..8]) && h.version == Le32(raw[8..12])
            && h.flags == Pack(raw[12..16]) && h.socFamily == Le32(raw[16..20]) && h.imageSize == Le32(raw[20..24])
            && h.manifestSize == Le32(raw[24..28]) && h.frameSize == Le32(raw[28..32]) && h.windowSize == Le32(raw[32..36])
            && h.representation == Le32(raw[36..40]) && h.imageFrames == Le32(raw[40..44])
            && h.manifestFrames == Le32(raw[44..48]) && h.imageWireBytes == Le32(raw[48..52])
    ensures Parse(raw).manifestCrc == Pack(raw[52..56]) && Parse(raw).imageCrc == Pack(raw[56..60])
    ensures Parse(raw).imageSha == raw[60..92] && Parse(raw).manifestSha == raw[92..124]
    ensures Parse(raw).model == raw[124..139] + [0] && Parse(raw).headerCrc == Pack(raw[140..])
  {
    hide Le32, Pack;
    assert raw[140..144] == raw[140..];
  }

  /** The 32-bit checks admit exactly the headers whose bytes are right over the unbounded integers. */
  lemma HeaderExactly(raw: seq<byte>, p: Policy)
    requires |raw| == HEADER_BYTES
    ensures HeaderValid(Parse(raw), raw, p) <==> Admitted(raw, p)
  {
    hide Crc, Le32, Pack, Parse, Wrap, RoundedUp;
    FieldsOf(raw);
    FlagBytes(raw[12..16]);
    var h := Parse(raw);
    if h.frameSize == 1024 || h.frameSize == 4096 {
      MostFrames(h.frameSize);
      if 1 <= h.manifestSize <= 0x1_0000 {
        RoundedUpExactly(h.manifestFrames, h.manifestSize, h.frameSize);
      }
      if h.imageFrames <= 16384 {
        WireBound(h.imageFrames);
      }
    }
  }

  lemma WireBound(frames: nat)
    requires frames <= 16384
    ensures Wrap(frames * (40 + 8192)) == frames * 8232
  {}

  /** Damage within any four consecutive bytes of a valid header, its CRC included, is refused. */
  lemma HeaderBurstIsRefused(raw: seq<byte>, damaged: seq<byte>, at: nat, p: Policy)
    requires |raw| == |damaged| == HEADER_BYTES && raw != damaged && HeaderValid(Parse(raw), raw, p)
    requires forall k :: 0 <= k < HEADER_BYTES && !(at <= k < at + 4) ==> raw[k] == damaged[k]
    ensures !HeaderValid(Parse(damaged), damaged, p)
    ensures forall rest :: !Verifiable(Uart.OnLine(damaged) + rest, p)
  {
    hide HeaderValid, Parse, Sealed, BodyVerifiable, Uart.Take;
    HeaderExactly(raw, p);
    HeaderExactly(damaged, p);
    SealBroken(raw, damaged, at);
    forall rest
      ensures !Verifiable(Uart.OnLine(damaged) + rest, p)
    {
      Uart.TakeBytes(damaged, rest);
    }
  }

  // ----- the challenge

  lemma XorOfThree(i: bv32, m: bv32, c: bv32)
    ensures Xor(Xor(Xor(Xor(i, m), c), i), m) == c
    ensures Xor(i, i) == 0 && Xor(0, c) == c
  {}

  lemma XorSame(a: bv32, b: bv32, c: bv32)
    ensures Xor(a, c) == Xor(b, c) <==> a == b
    ensures Xor(c, a) == Xor(c, b) <==> a == b
  {}

  lemma AsWord(x: bv32, y: bv32)
    ensures (x as int) as bv32 == x && (x as int == y as int ==> x == y)
  {}

  /** Of the image's CRC, the manifest's and the challenge, any one that differs alone makes another nonce, and so another
      confirmation text; the nonce and the two CRCs give the challenge back. */
  lemma NonceIsSpecific(g: Header, h: Header, c: bv32, d: bv32)
    ensures g.manifestCrc == h.manifestCrc && c == d ==> (Nonce(g, c) == Nonce(h, d) <==> g.imageCrc == h.imageCrc)
    ensures g.imageCrc == h.imageCrc && c == d ==> (Nonce(g, c) == Nonce(h, d) <==> g.manifestCrc == h.manifestCrc)
    ensures g.imageCrc == h.imageCrc && g.manifestCrc == h.manifestCrc ==> (Nonce(g, c) == Nonce(h, d) <==> c == d)
    ensures Xor(Xor(Nonce(h, c) as bv32, h.imageCrc), h.manifestCrc) == c
  {
    hide Xor;
    XorSame(g.imageCrc, h.imageCrc, g.manifestCrc);
    XorSame(g.manifestCrc, h.manifestCrc, g.imageCrc);
    XorSame(Xor(g.imageCrc, g.manifestCrc), Xor(h.imageCrc, h.manifestCrc), c);
    XorSame(c, d, Xor(h.imageCrc, h.manifestCrc));
    XorOfThree(h.imageCrc, h.manifestCrc, c);
    var x, y := Xor(Xor(g.imageCrc, g.manifestCrc), c), Xor(Xor(h.imageCrc, h.manifestCrc), d);
    AsWord(x, y);
    AsWord(Xor(Xor(h.imageCrc, h.manifestCrc), c), 0);
  }

  /** The text to type is the word and eight hexadecimal digits, in lower case, that read back as the nonce. */
  lemma ConfirmationReads(nonce: u32)
    ensures var text := ConfirmationText(nonce);
            && text[..11] == "ERASEFLASH " && ParseDigits(text[11..], 16, 0) == Some(nonce)
            && forall k :: 11 <= k < 19 ==> '0' <= text[k] <= '9' || 'a' <= text[k] <= 'f'
  {
    hide Hex, ParseDigits;
    assert Power16(8) == 0x1_0000_0000;
    ParseHexDigits(nonce, 8);
    HexIsLowerCase(nonce, 8);
    assert ConfirmationText(nonce)[11..] == Hex8(nonce) == Hex(nonce, 8);
  }

  /** The bytes that arrived warrant an erase: the header is admitted without the dry-run bit, the image and the manifest have
      the checksums and digests at their places in it, both manifest checks agree, and a line typed spells the xor of both
      CRCs and the challenge. */
  predicate Warranted(p: Policy, raw: seq<byte>, manifest: seq<byte>, image: seq<byte>, nonce: u32, line: string,
                      challenge: bv32, lines: seq<string>)
    requires |raw| == HEADER_BYTES
  {
    hide Crc, Sha256.Sum, Admitted, Pack, Parse, Xor, ConfirmationText;
    && Admitted(raw, p) && raw[12] in {1, 5}
    && raw[60..92] == Sha256.Sum(image) && raw[92..124] == Sha256.Sum(manifest)
    && Pack(raw[52..56]) == Crc(manifest) && Pack(raw[56..60]) == Crc(image)
    && p.otherMetadata(manifest, Parse(raw)) && p.otherMembers(manifest, Parse(raw))
    && Xor(Xor(nonce as bv32, Crc(image)), Crc(manifest)) == challenge
    && ConfirmationText(nonce) <= line && line in lines
  }

  lemma EraseMeans(p: Policy, t: seq<Event>, challenge: bv32, lines: seq<string>)
    requires Justified(p, t, challenge, lines)
    ensures Warranted(p, t[0].raw, t[1].manifest, t[3].image, t[6].nonce, t[6].line, challenge, lines)
  {
    hide Crc, Sha256.Sum, Parse, HeaderValid, Manifest.Names, Pack, Nonce, ConfirmationText, Kept, Admitted, ImageLayout.LayoutOk, Xor;
    var raw := t[0].raw;
    var h := Parse(raw);
    FieldsOf(raw);
    HeaderExactly(raw, p);
    AdmittedFlags(raw, p);
    NonceIsSpecific(h, h, challenge, challenge);
    ConfirmingLines(t[6].line, t[6].nonce);
  }

  /** An admitted header asks for a dry run exactly with bit 1 of its flags. */
  lemma AdmittedFlags(raw: seq<byte>, p: Policy)
    requires |raw| == HEADER_BYTES && Admitted(raw, p)
    ensures raw[12] in {1, 3, 5, 7} && (Parse(raw).flags & FLAG_DRY_RUN != 0 <==> raw[12] in {3, 7})
  {
    hide Crc, Le32, Pack, Parse, RoundedUp;
    FieldsOf(raw);
    FlagBytes(raw[12..16]);
  }

  /** Some line confirms this run's challenge. */
  predicate ConfirmedBy(lines: seq<string>, text: string) {
    exists k :: 0 <= k < |lines| && Kept(lines[k]) == text
  }

  /** text_equal on a kept line and a text without NUL. */
  method LineMatches(line: string, text: string) returns (equal: bool)
    requires |text| < 63 && forall i :: 0 <= i < |text| ==> text[i] != '\0'
    ensures equal <==> Kept(line) == text
  {
    var kept := if |line| > 63 then line[..63] else line;
    var i := 0;
    while i < |kept| && kept[i] != '\0' && i < |text| && kept[i] == text[i]
      invariant i <= |kept| && i <= |text| && kept[..i] == text[..i]
    {
      i := i + 1;
    }
    CStringIs(kept, text);
    equal := i == |text| && (i == |kept| || kept[i] == '\0');
    assert equal ==> text == text[..i] && kept[..i] <= kept;
  }

  /** The line, the dry-run flag and the confirmation decide how far a run comes. */
  predicate Decides(p: Policy, line: seq<Uart.Arrival>, lines: seq<string>, challenge: bv32, outcome: Outcome) {
    if !Verifiable(line, p) then outcome == Rejected
    else
      var h := HeaderOn(line);
      if h.flags & FLAG_DRY_RUN != 0 then outcome == DryRunOk
      else if !ConfirmedBy(lines, ConfirmationText(Nonce(h, challenge))) then outcome == Waiting
      else outcome == Success || outcome == FlashFailed
  }

  /** Each outcome read off the line and the lines typed: a refusal is a package that does not verify; of the others a dry
      run is bit 1 of the flag byte, a wait is the lack of a line that starts with the text to type, and the rest erase. */
  lemma OutcomeExactly(p: Policy, line: seq<Uart.Arrival>, lines: seq<string>, challenge: bv32, outcome: Outcome)
    requires Decides(p, line, lines, challenge, outcome)
    ensures outcome == Rejected <==> !Verifiable(line, p)
    ensures Verifiable(line, p) ==>
              (var raw, text := Uart.Take(line, HEADER_BYTES).data, ConfirmationText(Nonce(HeaderOn(line), challenge));
               && Admitted(raw, p)
               && (outcome == DryRunOk <==> raw[12] in {3, 7})
               && (outcome == Waiting <==> raw[12] in {1, 5} && !Typed(lines, text))
               && (outcome == Success || outcome == FlashFailed <==> raw[12] in {1, 5} && Typed(lines, text)))
  {
    hide HeaderValid, Nonce, ConfirmationText, Kept, BodyVerifiable, Parse, Admitted, Uart.Take;
    if Verifiable(line, p) {
      var raw := Uart.Take(line, HEADER_BYTES).data;
      HeaderExactly(raw, p);
      AdmittedFlags(raw, p);
      TypedExactly(lines, Nonce(HeaderOn(line), challenge));
    }
  }

  /** Some line is the text, alone or with a NUL behind it. */
  predicate Typed(lines: seq<string>, text: string) {
    exists k :: 0 <= k < |lines| && text <= lines[k] && (|lines[k]| > |text| ==> lines[k][|text|] == '\0')
  }

  lemma TypedExactly(lines: seq<string>, nonce: u32)
    ensures ConfirmedBy(lines, ConfirmationText(nonce)) <==> Typed(lines, ConfirmationText(nonce))
  {
    hide Kept, ConfirmationText;
    forall k | 0 <= k < |lines|
      ensures Kept(lines[k]) == ConfirmationText(nonce)
         <==> ConfirmationText(nonce) <= lines[k] && (|lines[k]| > 19 ==> lines[k][19] == '\0')
    {
      ConfirmingLines(lines[k], nonce);
    }
  }

  class Payload {
    const policy: Policy
    const port: Uart.Port
    const chip: Chip
    const staging: array<byte>
    ghost var trace: seq<Event>

    predicate Wired() {
      chip.cells.Length == FLASH_BYTES && staging.Length == FLASH_BYTES && staging != chip.cells
    }

    constructor (policy: Policy, port: Uart.Port, chip: Chip, staging: array<byte>)
      requires chip.cells.Length == FLASH_BYTES && staging.Length == FLASH_BYTES && staging != chip.cells
      ensures this.policy == policy && this.port == port && this.chip == chip && this.staging == staging
      ensures Wired() && trace == []
    {
      this.policy, this.port, this.chip, this.staging, trace := policy, port, chip, staging, [];
    }

    /** One object of the package, received into `memory` and checked against its CRC and digest. */
    method Receive(memory: array<byte>, o: FrameV3.Object, frames: nat, window: nat, fillFf: bool, crc: bv32, sha: seq<byte>, patience: nat)
      returns (ok: bool)
      requires memory.Length == o.size && ObjectLog.Admissible(o, frames, window)
      modifies port, memory
      ensures Fetch(ok, memory[..], port.Stream()) == Fetched(old(port.Stream()), o, frames, window, fillFf, crc, sha, patience)
      ensures ok ==> Crc(memory[..]) == crc && Sha256.Sum(memory[..]) == sha
    {
      hide Crc, Sha256.Sum, ObjectLog.ObjectRun, ObjectLog.Replay, ObjectReceiver.Received, ObjectReceiver.Filled, ObjectLog.LogOf,
        ObjectLog.TriesSound;
      var receiver := new ObjectReceiver.Receiver(port, memory);
      ok := receiver.ReceiveObject(o, frames, window, fillFf, crc, sha, true, patience);
    }

    /** The first five events, about this header and this image. */
    ghost predicate Verified(t: seq<Event>, raw: seq<byte>, image: seq<byte>)
      requires |raw| == HEADER_BYTES && |image| == FLASH_BYTES
    {
      && |t| == 5
      && t[0] == HeaderChecked(raw) && t[1].ManifestVerified? && t[2].MetadataAccepted? && t[3] == ImageVerified(image) && t[4].ImageAccepted?
      && (var h := Parse(raw);
          && HeaderValid(h, raw, policy)
          && Crc(t[1].manifest) == h.manifestCrc && Sha256.Sum(t[1].manifest) == h.manifestSha
          && MetadataOk(policy, t[1].manifest, h)
          && Crc(image) == h.imageCrc && Sha256.Sum(image) == h.imageSha
          && ImageOk(policy, t[1].manifest, image, h))
    }

    /** validate_manifest_metadata_v3. */
    method CheckMetadata(manifest: seq<byte>, h: Header) returns (ok: bool)
      ensures ok <==> MetadataOk(policy, manifest, h)
    {
      hide Manifest.Names;
      ok := Manifest.NamesDigest(Manifest.AsText(manifest), ["artifact"], "sha256", h.imageSha);
      ok := ok && policy.otherMetadata(manifest, h);
    }

    /** validate_manifest_and_image and validate_flash_manifest; the loader region is hashed where it is staged. */
    method CheckImage(manifest: seq<byte>, h: Header) returns (ok: bool)
      requires staging.Length == FLASH_BYTES
      ensures ok <==> ImageOk(policy, manifest, staging[..], h)
    {
      hide Manifest.Names, Sha256.Sum, ImageLayout.LayoutOk, Sha256.Context.Valid;
      var text := Manifest.AsText(manifest);
      ok := Manifest.NamesDigest(text, ["artifact"], "sha256", h.imageSha);
      if !ok || !policy.otherMembers(manifest, h) {
        return false;
      }
      ok := ImageLayout.CheckLayout(staging);
      if !ok {
        return;
      }
      ghost var loader := staging[..][..LOADER_BYTES];
      assert staging[..LOADER_BYTES] == loader;
      var sha := new Sha256.Context();
      sha.Update(staging[..LOADER_BYTES]);
      assert [] + loader == loader;
      var digest := sha.Final();
      ok := Manifest.NamesDigest(text, ["recovery", "uart_ramloader"], "loader_sha256", digest);
    }

    /** Everything behind the header up to the challenge: the manifest, the metadata, the image and its validation. */
    method VerifyBody(h: Header, raw: seq<byte>) returns (ok: bool)
      requires Wired() && |raw| == HEADER_BYTES && h == Parse(raw) && HeaderValid(h, raw, policy) && Objects(h)
      requires trace == [HeaderChecked(raw)]
      modifies port, staging, this`trace
      ensures EraseStarted !in trace
      ensures ok <==> BodyVerifiable(old(port.Stream()), h, policy)
      ensures ok ==> Verified(trace, raw, staging[..])
    {
      hide Crc, Sha256.Sum, Parse, HeaderValid, MetadataOk, ImageOk, Fetched;
      var memory := new byte[h.manifestSize];
      ok := Receive(memory, ManifestObject(h), h.manifestFrames, h.windowSize, false, h.manifestCrc, h.manifestSha, policy.patience(OBJECT_MANIFEST));
      if !ok {
        return;
      }
      var manifest := memory[..];
      trace := trace + [ManifestVerified(manifest)];
      ok := CheckMetadata(manifest, h);
      if !ok {
        return;
      }
      trace := trace + [MetadataAccepted];
      ok := Receive(staging, ImageObject(h), h.imageFrames, h.windowSize, true, h.imageCrc, h.imageSha, policy.patience(OBJECT_IMAGE));
      if !ok {
        return;
      }
      trace := trace + [ImageVerified(staging[..])];
      ok := CheckImage(manifest, h);
      if ok {
        trace := trace + [ImageAccepted];
      }
    }

    /** Everything up to the challenge. */
    method Verify() returns (ok: bool, raw: seq<byte>)
      requires Wired() && trace == []
      modifies port, staging, this`trace
      ensures EraseStarted !in trace
      ensures |raw| == HEADER_BYTES
      ensures ok <==> Verifiable(old(port.Stream()), policy)
      ensures ok ==> raw == Uart.Take(old(port.Stream()), HEADER_BYTES).data && Verified(trace, raw, staging[..])
    {
      hide Crc, Sha256.Sum, Parse, HeaderValid, BodyVerifiable, Verified, Uart.Take;
      var header := new byte[HEADER_BYTES];
      ok := port.RecvExact(header, HEADER_BYTES);
      raw := header[..];
      assert header[..HEADER_BYTES] == raw;
      if !ok {
        return;
      }
      var h := Parse(raw);
      if !HeaderValid(h, raw, policy) {
        return false, raw;
      }
      ValidHeaderObjects(h, raw, policy);
      trace := [HeaderChecked(raw)];
      ok := VerifyBody(h, raw);
    }

    /** The confirmation loop over the lines that arrive: anything but the exact text asks again. */
    method AwaitLine(nonce: u32, lines: seq<string>) returns (confirmed: bool, line: string)
      ensures confirmed <==> ConfirmedBy(lines, ConfirmationText(nonce))
      ensures confirmed ==> line in lines && Kept(line) == ConfirmationText(nonce)
    {
      hide Kept, Hex;
      HexHasNoNul(nonce, 8);
      for i := 0 to |lines|
        invariant forall k :: 0 <= k < i ==> Kept(lines[k]) != ConfirmationText(nonce)
      {
        var equal := LineMatches(lines[i], ConfirmationText(nonce));
        if equal {
          return true, lines[i];
        }
      }
      confirmed, line := false, "";
    }

    /** run_package_v3. `challenge` is the part of the nonce that comes from the counter and the chip's id;
        behind the last line the wait goes on until the power is cut. */
    method Run(challenge: bv32, lines: seq<string>) returns (outcome: Outcome)
      requires Wired() && trace == []
      modifies port, staging, chip, chip.cells, this`trace
      // no erase without the whole chain in front of it, and no change of the flash without an erase
      ensures EraseStarted in trace ==> Justified(policy, trace, challenge, lines)
      ensures EraseStarted !in trace ==> chip.cells[..] == old(chip.cells[..]) && chip.history == old(chip.history)
      ensures EraseStarted in trace <==> outcome == Success || outcome == FlashFailed
      // success means that the flash is the image whose CRC and digest the valid header names
      ensures outcome == Success ==> chip.cells[..] == staging[..] && HoldsImage(trace, chip.cells[..])
      // the line, the dry-run flag, the confirmation and the chip decide the outcome, and nothing else does
      ensures Decides(policy, old(port.Stream()), lines, challenge, outcome)
      ensures chip.healthy && EraseStarted in trace ==> outcome == Success
      ensures EraseStarted in trace ==>
                (&& old(chip.history) <= chip.history
                 && (outcome == Success <==> SpiFlows.Rewritten(chip.history[old(|chip.history|)..], staging[..])))
    {
      hide Crc, Sha256.Sum, Parse, HeaderValid, Nonce, ConfirmationText, BodyVerifiable, MetadataOk, ImageOk, ConfirmedBy, Kept, Uart.Take,
        SpiFlows.Rewritten;
      var ok, raw := Verify();
      if !ok {
        return Rejected;
      }
      var h := Parse(raw);
      if h.flags & FLAG_DRY_RUN != 0 {
        return DryRunOk;
      }
      trace := trace + [FlashRequested];
      var nonce := Nonce(h, challenge);
      var confirmed, line := AwaitLine(nonce, lines);
      if !confirmed {
        return Waiting;
      }
      trace := trace + [Confirmed(line, nonce)];
      ghost var chain := trace;
      trace := trace + [EraseStarted];
      assert trace[..7] == chain;
      var done := Rewrite(chip, staging);
      outcome := if done then Success else FlashFailed;
    }
  }

  // ----- a package put on the line

  /** A package: its header and its two objects as their sender sees them. */
  datatype Delivery = Delivery(header: Header, manifestCargo: ObjectTransfer.Cargo, imageCargo: ObjectTransfer.Cargo,
                               manifest: seq<byte>, image: seq<byte>,
                               manifestWindows: seq<seq<ObjectTransfer.Round>>, imageWindows: seq<seq<ObjectTransfer.Round>>)

  /** The cargo makes up the object, and its frames are planned within the retry rounds and the time limit. */
  ghost predicate Ships(c: ObjectTransfer.Cargo, o: FrameV3.Object, frames: nat, fillFf: bool, bytes: seq<byte>,
                        windows: seq<seq<ObjectTransfer.Round>>, window: nat, rest: seq<Uart.Arrival>, patience: nat)
  {
    && c.o == o && |c.parcels| == frames
    && ObjectTransfer.IsImage(bytes, ObjectReceiver.Filled(o, fillFf), c)
    && ObjectTransfer.Plan(c, windows, 0, window, rest) && |windows| <= patience
  }

  /** The header describes the two objects and names their digests. */
  predicate Describes(h: Header, manifest: seq<byte>, image: seq<byte>) {
    hide Crc;
    && h.manifestCrc == Crc(manifest) && h.manifestSha == Sha256.Sum(manifest)
    && h.imageCrc == Crc(image) && h.imageSha == Sha256.Sum(image)
  }

  /** The header is valid for its own bytes. */
  predicate Valid(h: Header, p: Policy) {
    Complete(h) && HeaderValid(h, Put(h), p)
  }

  /** The image's part of the line. */
  function ImageLine(d: Delivery, rest: seq<Uart.Arrival>): seq<Uart.Arrival> {
    ObjectTransfer.ObjectLine(d.imageCargo, d.imageWindows, rest)
  }

  function DeliveryLine(d: Delivery, rest: seq<Uart.Arrival>): seq<Uart.Arrival>
    requires Complete(d.header)
  {
    Uart.OnLine(Put(d.header)) + ObjectTransfer.ObjectLine(d.manifestCargo, d.manifestWindows, ImageLine(d, rest))
  }

  /** Everything about a package that makes it acceptable, on the line and in its contents. */
  ghost predicate Deliverable(d: Delivery, p: Policy, rest: seq<Uart.Arrival>) {
    hide Crc, HeaderValid, MetadataOk, ImageOk, ImageLine, Ships;
    var h := d.header;
    && Valid(h, p) && Objects(h) && Describes(h, d.manifest, d.image)
    && Ships(d.manifestCargo, ManifestObject(h), h.manifestFrames, false, d.manifest, d.manifestWindows, h.windowSize,
             ImageLine(d, rest), p.patience(OBJECT_MANIFEST))
    && Ships(d.imageCargo, ImageObject(h), h.imageFrames, true, d.image, d.imageWindows, h.windowSize, rest, p.patience(OBJECT_IMAGE))
    && MetadataOk(p, d.manifest, h) && |d.image| == FLASH_BYTES && ImageOk(p, d.manifest, d.image, h)
  }

  /** Progress: a package whose frames all get through within the retry rounds passes every check, so that without the
      dry-run flag the challenge is put, a matching confirmation starts the erase, and a healthy chip ends with the image. */
  lemma DeliveryIsVerifiable(d: Delivery, p: Policy, rest: seq<Uart.Arrival>)
    requires Deliverable(d, p, rest)
    ensures Verifiable(DeliveryLine(d, rest), p)
    ensures Uart.Take(DeliveryLine(d, rest), HEADER_BYTES).ok && HeaderOn(DeliveryLine(d, rest)) == d.header
  {
    hide Crc, Sha256.Sum, Parse, HeaderValid, MetadataOk, ImageOk, Put, Uart.Take, ObjectTransfer.Plan, ObjectTransfer.ObjectLine,
      ObjectTransfer.IsImage, ObjectLog.ObjectRun, ObjectReceiver.Received, ObjectReceiver.Filled, ObjectLog.Replay;
    var h := d.header;
    HeaderRoundTrip(h);
    var behind := ImageLine(d, rest);
    var body := ObjectTransfer.ObjectLine(d.manifestCargo, d.manifestWindows, behind);
    Uart.TakeBytes(Put(h), body);
    ObjectTransfer.ObjectArrives(d.manifestCargo, d.manifestWindows, h.windowSize, behind, false, d.manifest, p.patience(OBJECT_MANIFEST));
    ObjectTransfer.ObjectArrives(d.imageCargo, d.imageWindows, h.windowSize, rest, true, d.image, p.patience(OBJECT_IMAGE));
    assert BodyVerifiable(body, h, p);
  }
}
