// The flash kernel image: tools/mkvcoreiii_payload.py packs and verifies it, boot_flash_kernel of src/uart_ramloader.c starts it.
module KernelImage {
  import opened Bytes
  import opened Options
  import opened Words
  import opened Crc32
  import opened Arithmetic

  const MAGIC: u32 := 0x4d495053
  const HEADER_BYTES: nat := 32
  const SEGMENT: int := 0x8000_0000
  const SEGMENT_BYTES: nat := 0x1000_0000
  /** Memory from the cached segment to the end of the address space. */
  const MEMORY_BYTES: nat := 0x8000_0000

  datatype Header = Header(magic: u32, load: u32, size: u32, entry: u32, crc: bv32, reserved0: u32, reserved1: u32, reserved2: u32)

  /** read_spim_header, and the unpacking half of the host's `<8I` structure. */
  function Parse(raw: seq<byte>): Header
    requires |raw| == HEADER_BYTES
  {
    Header(Le32(raw[0..4]), Le32(raw[4..8]), Le32(raw[8..12]), Le32(raw[12..16]), Crc32.Pack(raw[16..20]),
           Le32(raw[20..24]), Le32(raw[24..28]), Le32(raw[28..32]))
  }

  /** The packing half. */
  function Put(h: Header): (r: seq<byte>)
    ensures |r| == HEADER_BYTES
  {
    Put32(h.magic) + Put32(h.load) + Put32(h.size) + Put32(h.entry) + PutWord(h.crc)
    + Put32(h.reserved0) + Put32(h.reserved1) + Put32(h.reserved2)
  }

  /** The target's way of blanking the CRC field: bytes 16 to 19 of the raw header. */
  function Blanked(raw: seq<byte>): (r: seq<byte>)
    requires |raw| == HEADER_BYTES
    ensures |r| == HEADER_BYTES
  {
    raw[..16] + [0, 0, 0, 0] + raw[20..]
  }

  lemma Slices(a: seq<byte>, b: seq<byte>, c: seq<byte>, d: seq<byte>, e: seq<byte>, f: seq<byte>, g: seq<byte>, h: seq<byte>)
    requires |a| == 4 && |b| == 4 && |c| == 4 && |d| == 4 && |e| == 4 && |f| == 4 && |g| == 4 && |h| == 4
    ensures var raw := a + b + c + d + e + f + g + h;
            && raw[0..4] == a && raw[4..8] == b && raw[8..12] == c && raw[12..16] == d
            && raw[16..20] == e && raw[20..24] == f && raw[24..28] == g && raw[28..32] == h
  {}

  /** The header codec is a bijection between headers and 32 bytes. */
  lemma HeaderCodec(h: Header, raw: seq<byte>)
    requires |raw| == HEADER_BYTES
    ensures Parse(Put(h)) == h
    ensures Put(Parse(raw)) == raw
  {
    hide Put32, PutWord, Crc32.Pack, Le32;
    Slices(Put32(h.magic), Put32(h.load), Put32(h.size), Put32(h.entry), PutWord(h.crc),
           Put32(h.reserved0), Put32(h.reserved1), Put32(h.reserved2));
    WordCodec(h.magic, raw[0..4]); WordCodec(h.load, raw[4..8]); WordCodec(h.size, raw[8..12]); WordCodec(h.entry, raw[12..16]);
    WordCodec(h.reserved0, raw[20..24]); WordCodec(h.reserved1, raw[24..28]); WordCodec(h.reserved2, raw[28..32]);
    CrcFieldRoundTrip(h.crc);
    CrcFieldRoundTrip(Crc32.Pack(raw[16..20]));
    PackInjective(PutWord(Crc32.Pack(raw[16..20])), raw[16..20]);
    assert raw == raw[0..4] + raw[4..8] + raw[8..12] + raw[12..16] + raw[16..20] + raw[20..24] + raw[24..28] + raw[28..32];
  }

  lemma BlankField()
    ensures PutWord(0) == [0, 0, 0, 0]
  {
    CrcFieldRoundTrip(0);
    NoBits();
    PackFour(0, 0, 0, 0);
    ZeroWord();
    hide Word, PutWord, Crc32.Pack;
    PackInjective(PutWord(0), [0, 0, 0, 0]);
  }

  lemma NoBits()
    ensures Word(0) == 0
  {}

  lemma ZeroWord()
    ensures Xor(0, Up(Xor(0, Up(Xor(0, Up(Xor(0, Up(0)))))))) == 0
  {}

  /** Blanking the raw field is packing the header with a zero CRC. */
  lemma BlankedIsZeroCrc(raw: seq<byte>)
    requires |raw| == HEADER_BYTES
    ensures Blanked(raw) == Put(Parse(raw).(crc := 0))
  {
    hide Put32, PutWord, Crc32.Pack, Le32, Parse;
    var h := Parse(raw);
    HeaderCodec(h, raw);
    BlankField();
    Slices(Put32(h.magic), Put32(h.load), Put32(h.size), Put32(h.entry), PutWord(h.crc),
           Put32(h.reserved0), Put32(h.reserved1), Put32(h.reserved2));
    assert raw[..16] == Put32(h.magic) + Put32(h.load) + Put32(h.size) + Put32(h.entry);
    assert raw[20..] == Put32(h.reserved0) + Put32(h.reserved1) + Put32(h.reserved2);
  }

  // ----- the host tool

  /** crc_for. */
  function ImageCrc(h: Header, payload: seq<byte>): bv32 {
    Crc(Put(h.(crc := 0)) + payload)
  }

  /** Bitwise AND of two natural numbers of any width. */
  function BitAnd(x: nat, y: nat): nat {
    if x == 0 || y == 0 then 0 else (x % 2) * (y % 2) + 2 * BitAnd(x / 2, y / 2)
  }

  predicate PowerOfTwo(x: nat) {
    x == 1 || (x > 0 && x % 2 == 0 && PowerOfTwo(x / 2))
  }

  lemma {:induction false} BitAndSelf(x: nat)
    ensures BitAnd(x, x) == x
  {
    if x != 0 {
      BitAndSelf(x / 2);
      if x % 2 == 1 {
        assert BitAnd(x, x) == 1 + 2 * (x / 2);
      }
    }
  }

  /** The packer's bit trick accepts exactly the powers of two. */
  lemma {:induction false} OneBitTest(x: nat)
    requires x > 0
    ensures BitAnd(x, x - 1) == 0 <==> PowerOfTwo(x)
    decreases x
  {
    if x % 2 == 1 {
      BitAndSelf(x / 2);
      assert (x - 1) / 2 == x / 2;
    } else {
      assert (x - 1) / 2 == x / 2 - 1;
      OneBitTest(x / 2);
    }
  }

  predicate Aligned(x: int, n: int)
    requires n > 0
  {
    x % n == 0
  }

  datatype PackOptions = PackOptions(magic: u32, load: u32, entry: u32, alignment: u32, padByte: byte, maxPayload: u32,
                                     reserved0: u32, reserved1: u32, reserved2: u32)

  function Padding(n: nat, alignment: nat): nat
    requires alignment > 0
  {
    var deficit: int := 0 - n;
    deficit % alignment
  }

  /** command_pack: the image, or None for one of its three refusals. */
  function PackImage(raw: seq<byte>, o: PackOptions): Option<seq<byte>> {
    if raw == [] then None
    else if o.alignment == 0 || BitAnd(o.alignment, o.alignment - 1) != 0 then None
    else
      var payload := raw + seq(Padding(|raw|, o.alignment), _ => o.padByte);
      if |payload| > o.maxPayload then None
      else
        var h := Header(o.magic, o.load, |payload|, o.entry, 0, o.reserved0, o.reserved1, o.reserved2);
        Some(Put(h.(crc := ImageCrc(h, payload))) + payload)
  }

  datatype Complaint = WrongMagic | ZeroSize | Unaligned | TooLarge | WrongCrc

  datatype Verdict = Malformed | DivisionByZero | Complaints(list: seq<Complaint>)

  /** command_verify behind unpack_image's length checks. */
  function Verify(image: seq<byte>, magic: u32, alignment: u32, maxPayload: u32): Verdict {
    if |image| < HEADER_BYTES then Malformed
    else
      var h := Parse(image[..HEADER_BYTES]);
      var payload := image[HEADER_BYTES..];
      if |image| != HEADER_BYTES + h.size then Malformed
      else if alignment == 0 then DivisionByZero
      else Complaints((if h.magic != magic then [WrongMagic] else [])
                    + (if h.size == 0 then [ZeroSize] else [])
                    + (if !Aligned(h.size, alignment) then [Unaligned] else [])
                    + (if h.size > maxPayload then [TooLarge] else [])
                    + (if h.crc != ImageCrc(h, payload) then [WrongCrc] else []))
  }

  /** What it means that the verifier finds nothing to complain about. */
  lemma NoComplaints(image: seq<byte>, magic: u32, alignment: u32, maxPayload: u32)
    ensures Verify(image, magic, alignment, maxPayload) == Complaints([])
       <==> (&& |image| > HEADER_BYTES && alignment > 0
             && (var h, payload := Parse(image[..HEADER_BYTES]), image[HEADER_BYTES..];
                 && h.magic == magic && h.size == |payload| <= maxPayload && Aligned(h.size, alignment)
                 && h.crc == ImageCrc(h, payload)))
  {
    hide Parse, ImageCrc, Aligned;
  }

  lemma LeastPadding(n: nat, alignment: nat)
    requires alignment > 0
    ensures Aligned(n + Padding(n, alignment), alignment)
    ensures Padding(n, alignment) < alignment
    ensures Aligned(n, alignment) ==> Padding(n, alignment) == 0
  {
    var deficit: int := 0 - n;
    var q := deficit / alignment;
    assert deficit == alignment * q + Padding(n, alignment);
    MultipleOf(n + Padding(n, alignment), alignment, -q);
    if n % alignment == 0 {
      var m := n / alignment;
      assert n == alignment * m;
      MultipleOf(deficit, alignment, -m);
    }
  }

  lemma MultipleOf(x: int, a: nat, k: int)
    requires a > 0 && x == a * k
    ensures x % a == 0
  {
    var q := x / a;
    if q < k {
      MulOrder(a, q + 1, k);
      MulNext(a, q);
    } else if k < q {
      MulOrder(a, k + 1, q);
      MulNext(a, k);
    }
  }

  /** Packing: a refusal exactly for the documented reasons; otherwise the kernel in front of the least padding, and no complaint. */
  lemma PackedImageVerifies(raw: seq<byte>, o: PackOptions)
    ensures PackImage(raw, o).Some?
       <==> raw != [] && PowerOfTwo(o.alignment) && |raw| + Padding(|raw|, o.alignment) <= o.maxPayload
    ensures PackImage(raw, o).Some? ==>
              var image := PackImage(raw, o).value;
              && raw <= image[HEADER_BYTES..]
              && |image| - HEADER_BYTES < |raw| + o.alignment
              && (forall k :: HEADER_BYTES + |raw| <= k < |image| ==> image[k] == o.padByte)
              && (var h := Parse(image[..HEADER_BYTES]);
                  h.load == o.load && h.entry == o.entry && h.size == |image| - HEADER_BYTES
                  && h.reserved0 == o.reserved0 && h.reserved1 == o.reserved1 && h.reserved2 == o.reserved2)
              && Verify(image, o.magic, o.alignment, o.maxPayload) == Complaints([])
  {
    hide Parse, Put, ImageCrc, Verify, Aligned, Padding, BitAnd;
    if o.alignment > 0 {
      OneBitTest(o.alignment);
      LeastPadding(|raw|, o.alignment);
    }
    if PackImage(raw, o).Some? {
      var image := PackImage(raw, o).value;
      var payload := raw + seq(Padding(|raw|, o.alignment), _ => o.padByte);
      var h := Header(o.magic, o.load, |payload|, o.entry, 0, o.reserved0, o.reserved1, o.reserved2);
      var sealed := h.(crc := ImageCrc(h, payload));
      assert image[..HEADER_BYTES] == Put(sealed) && image[HEADER_BYTES..] == payload;
      HeaderCodec(sealed, image[..HEADER_BYTES]);
      SameCrc(sealed, h, payload);
      NoComplaints(image, o.magic, o.alignment, o.maxPayload);
    }
  }

  lemma SameCrc(g: Header, h: Header, payload: seq<byte>)
    requires g.(crc := 0) == h.(crc := 0)
    ensures ImageCrc(g, payload) == ImageCrc(h, payload)
  {}

  /** The options a packed image was made with, as far as they can be read off. */
  function OptionsOf(h: Header, alignment: u32, padByte: byte, maxPayload: u32): PackOptions {
    PackOptions(h.magic, h.load, h.entry, alignment, padByte, maxPayload, h.reserved0, h.reserved1, h.reserved2)
  }

  /** The verifier is the packer's inverse: what it passes is what the packer makes of the payload, byte for byte. */
  lemma VerifiedImageIsPacked(image: seq<byte>, magic: u32, alignment: u32, padByte: byte, maxPayload: u32)
    requires PowerOfTwo(alignment) && |image| >= HEADER_BYTES
    ensures var h := Parse(image[..HEADER_BYTES]);
            Verify(image, magic, alignment, maxPayload) == Complaints([])
            <==> h.magic == magic && PackImage(image[HEADER_BYTES..], OptionsOf(h, alignment, padByte, maxPayload)) == Some(image)
  {
    hide Parse, Put, ImageCrc, Verify, Aligned, Padding, BitAnd, PowerOfTwo;
    var h, payload := Parse(image[..HEADER_BYTES]), image[HEADER_BYTES..];
    var o := OptionsOf(h, alignment, padByte, maxPayload);
    NoComplaints(image, magic, alignment, maxPayload);
    if PackImage(payload, o) == Some(image) {
      hide PackImage;
      PackedImageVerifies(payload, o);
    }
    if Verify(image, magic, alignment, maxPayload) == Complaints([]) {
      OneBitTest(alignment);
      LeastPadding(|payload|, alignment);
      assert payload + seq(Padding(|payload|, alignment), _ => padByte) == payload;
      HeaderCodec(h, image[..HEADER_BYTES]);
      SameCrc(h, h.(crc := 0), payload);
      assert image == image[..HEADER_BYTES] + payload;
    }
  }

  // ----- the boot loader

  /** The size policies, with the configured hard limit and, where it decides, the configured legacy limit. */
  datatype SizePolicy = LegacyStrict(hard: u32, limit: u32) | LegacyWarn(hard: u32) | HardOnly(hard: u32)
  datatype CrcPolicy = CheckCrc | WarnCrc | IgnoreCrc

  datatype Reason = Magic | SizeNonzero | SizeRound | SizeAlign | SizeHard | SizeLegacy | LoadSegment | LoadAlign | LoadOverflow
                  | EntryAlign | EntryRange | StackOverlap | Stage1Overlap | CrcMismatch

  datatype Outcome = Recovery(reason: Reason) | Jump(entry: u32)

  /** ranges_overlap. */
  predicate Overlaps(startA: u32, endA: u32, startB: u32, endB: u32) {
    startA < endB && startB < endA
  }

  function CopySize(size: u32): u32 {
    Wrap(size + 31) / 32 * 32
  }

  predicate InCachedSegment(load: u32) {
    load / 0x1000_0000 == 8
  }

  /** The checks in front of the copy, in the order of the source, with the end address computed in 32 bits. */
  function Refusal(h: Header, policy: SizePolicy): Option<Reason> {
    var copy := CopySize(h.size);
    var end := Wrap(h.load + copy);
    if h.magic != MAGIC then Some(Magic)
    else if h.size == 0 then Some(SizeNonzero)
    else if h.size > 0xffff_ffe0 then Some(SizeRound)
    else if !Aligned(h.size, 32) && policy.LegacyStrict? then Some(SizeAlign)
    else if copy > policy.hard then Some(SizeHard)
    else if policy.LegacyStrict? && copy > policy.limit then Some(SizeLegacy)
    else if !InCachedSegment(h.load) then Some(LoadSegment)
    else if !Aligned(h.load, 4) then Some(LoadAlign)
    else if end < h.load then Some(LoadOverflow)
    else if !Aligned(h.entry, 4) then Some(EntryAlign)
    else if h.entry < h.load || h.entry >= end then Some(EntryRange)
    else if Overlaps(h.load, end, 0x8000_0000, 0x8000_4000) then Some(StackOverlap)
    else if Overlaps(h.load, end, 0x87f0_0000, 0x8800_0000) then Some(Stage1Overlap)
    else None
  }

  /** A placement over the unbounded integers: in the cached segment, off the loader's stack and code, entered inside. */
  predicate Placed(load: int, copy: int, entry: int) {
    && SEGMENT <= load < SEGMENT + SEGMENT_BYTES && Aligned(load, 4)
    && Aligned(entry, 4) && load <= entry < load + copy
    && 0x8000_4000 <= load
    && (load + copy <= 0x87f0_0000 || 0x8800_0000 <= load)
    && load + copy < 0x1_0000_0000
  }

  function RoundUp(size: nat): nat {
    (size + 31) / 32 * 32
  }

  /** The 32-bit checks decide the unbounded placement; the overflow check cannot fire unless the hard limit is beyond any flash. */
  lemma RefusalIsUnbounded(h: Header, policy: SizePolicy)
    ensures Refusal(h, policy).None?
       <==> (&& h.magic == MAGIC && h.size != 0 && RoundUp(h.size) <= policy.hard
             && (policy.LegacyStrict? ==> Aligned(h.size, 32) && RoundUp(h.size) <= policy.limit)
             && Placed(h.load, RoundUp(h.size), h.entry))
    ensures policy.hard <= 0x6fff_ffff ==> Refusal(h, policy) != Some(LoadOverflow)
    ensures policy.LegacyStrict? && policy.limit >= policy.hard ==> Refusal(h, policy) != Some(SizeLegacy)
    ensures Refusal(h, policy).None? ==> CopySize(h.size) == RoundUp(h.size) && h.size <= RoundUp(h.size) < h.size + 32
    ensures Aligned(h.size, 32) ==> RoundUp(h.size) == h.size
  {
    hide CopySize, RoundUp, Wrap, Aligned, InCachedSegment;
    Rounding(h.size);
    Segment(h.load);
    if h.size <= 0xffff_ffe0 {
      EndAddress(h.load, h.size);
    }
  }

  lemma Rounding(size: u32)
    ensures size <= RoundUp(size) < size + 32
    ensures Aligned(size, 32) ==> RoundUp(size) == size
    ensures size <= 0xffff_ffe0 ==> CopySize(size) == RoundUp(size)
  {}

  lemma Segment(load: u32)
    ensures InCachedSegment(load) <==> SEGMENT <= load < SEGMENT + SEGMENT_BYTES
  {}

  lemma EndAddress(load: u32, size: u32)
    requires size <= 0xffff_ffe0
    ensures var end := load + RoundUp(size); Wrap(load + CopySize(size)) == if end < 0x1_0000_0000 then end else end - 0x1_0000_0000
  {
    Rounding(size);
    hide CopySize, RoundUp;
  }

  /** What boot_flash_kernel does with the header and the bytes behind it. */
  function Boot(raw: seq<byte>, behind: seq<byte>, size: SizePolicy, crc: CrcPolicy): Outcome
    requires |raw| == HEADER_BYTES && |behind| == size.hard
  {
    var h := Parse(raw);
    match Refusal(h, size)
    case Some(reason) => Recovery(reason)
    case None =>
      RefusalIsUnbounded(h, size);
      if crc == CheckCrc && ImageCrc(h, behind[..RoundUp(h.size)]) != h.crc then Recovery(CrcMismatch) else Jump(h.entry)
  }

  /** The cached segment behind it: the declared lines at the load address, or no change when the header is refused. */
  function RamAfter(ram: seq<byte>, raw: seq<byte>, behind: seq<byte>, size: SizePolicy): (r: seq<byte>)
    requires |raw| == HEADER_BYTES && |behind| == size.hard && |ram| == MEMORY_BYTES
  {
    var h := Parse(raw);
    RefusalIsUnbounded(h, size);
    if Refusal(h, size).Some? then ram else Overlay(ram, h.load - SEGMENT, behind[..RoundUp(h.size)])
  }

  lemma Complement(c: bv32)
    ensures !c == Xor(INITIAL, c)
  {}

  /** One pass of the copy loop: eight words from the flash window to the load address. */
  method CopyLine(ram: array<byte>, to: nat, flash: array<byte>, from: nat)
    requires ram != flash && to + 32 <= ram.Length && from + 32 <= flash.Length
    modifies ram
    ensures ram[..] == Overlay(old(ram[..]), to, flash[from..from + 32])
  {
    hide Overlay;
    ghost var was := ram[..];
    assert flash[from..from] == [];
    OverlayNothing(was, to);
    for w := 0 to 8
      invariant ram[..] == Overlay(was, to, flash[from..from + 4 * w])
    {
      CopyWord(ram, to + 4 * w, flash, from + 4 * w);
      OverlayJoin(was, to, flash[from..from + 4 * w], flash[from + 4 * w..from + 4 * w + 4]);
      FlashJoin(flash, from, from + 4 * w, from + 4 * w + 4);
    }
  }

  lemma FlashJoin(flash: array<byte>, a: nat, b: nat, c: nat)
    requires a <= b <= c <= flash.Length
    ensures flash[a..b] + flash[b..c] == flash[a..c]
  {}

  lemma FlashFront(flash: array<byte>, a: nat, b: nat, n: nat)
    requires a <= b <= flash.Length && n <= b - a
    ensures flash[a..b][..n] == flash[a..a + n]
  {}

  method CopyWord(ram: array<byte>, to: nat, flash: array<byte>, from: nat)
    requires ram != flash && to + 4 <= ram.Length && from + 4 <= flash.Length
    modifies ram
    ensures ram[..] == Overlay(old(ram[..]), to, flash[from..from + 4])
  {
    ram[to], ram[to + 1], ram[to + 2], ram[to + 3] := flash[from], flash[from + 1], flash[from + 2], flash[from + 3];
  }

  /** The loop of boot_flash_kernel that sums and copies a line at a time. */
  method CopyAndSum(start: bv32, ram: array<byte>, to: nat, flash: array<byte>, from: nat, copy: nat) returns (crc: bv32)
    requires ram != flash && to + copy <= ram.Length && from + copy <= flash.Length && copy % 32 == 0
    modifies ram
    ensures crc == Absorb(start, flash[from..from + copy])
    ensures ram[..] == Overlay(old(ram[..]), to, flash[from..from + copy])
  {
    hide Absorb, Overlay;
    crc := start;
    var offset := 0;
    ghost var was := ram[..];
    assert flash[from..from] == [];
    AbsorbNothing(start);
    OverlayNothing(was, to);
    while offset < copy
      invariant offset <= copy && offset % 32 == 0
      invariant crc == Absorb(start, flash[from..from + offset])
      invariant ram[..] == Overlay(was, to, flash[from..from + offset])
    {
      ghost var done, line := flash[from..from + offset], flash[from + offset..from + offset + 32];
      crc := Update(crc, flash[from + offset..from + offset + 32]);
      CopyLine(ram, to + offset, flash, from + offset);
      AbsorbConcat(start, done, line);
      OverlayJoin(was, to, done, line);
      FlashJoin(flash, from, from + offset, from + offset + 32);
      offset := offset + 32;
    }
  }

  /** The CRC over the blanked header, continued over the payload, is the packer's CRC. */
  lemma StreamedCrcIsPackersCrc(raw: seq<byte>, payload: seq<byte>)
    requires |raw| == HEADER_BYTES
    ensures Xor(INITIAL, Absorb(Absorb(INITIAL, Blanked(raw)), payload)) == ImageCrc(Parse(raw), payload)
  {
    hide Absorb, Xor, Parse, Put;
    BlankedIsZeroCrc(raw);
    AbsorbConcat(INITIAL, Blanked(raw), payload);
  }

  /** boot_flash_kernel. `flash` is the memory-mapped window; `ram` starts at 0x80000000 and reaches to the end of the
      address space, because only the load address itself is held inside the cached segment. */
  method BootFlashKernel(flash: array<byte>, at: nat, ram: array<byte>, sizePolicy: SizePolicy, crcPolicy: CrcPolicy) returns (outcome: Outcome)
    requires at + HEADER_BYTES + sizePolicy.hard <= flash.Length
    requires ram != flash && ram.Length == MEMORY_BYTES
    modifies ram
    ensures var raw, behind := flash[at..at + HEADER_BYTES], flash[at + HEADER_BYTES..at + HEADER_BYTES + sizePolicy.hard];
            && outcome == Boot(raw, behind, sizePolicy, crcPolicy)
            && ram[..] == RamAfter(old(ram[..]), raw, behind, sizePolicy)
  {
    hide Absorb, Xor, Parse, ImageCrc, Refusal, Crc, Overlay, CopySize, RoundUp, Blanked, Overlaps;
    var raw := flash[at..at + HEADER_BYTES];
    ghost var behind := flash[at + HEADER_BYTES..at + HEADER_BYTES + sizePolicy.hard];
    var h := Parse(raw);
    RefusalIsUnbounded(h, sizePolicy);
    var refusal := Refusal(h, sizePolicy);
    if refusal.Some? {
      return Recovery(refusal.value);
    }
    var from, copy := at + HEADER_BYTES, CopySize(h.size);
    SomeLines(h.size);
    var crc := Update(INITIAL, Blanked(raw));
    crc := CopyAndSum(crc, ram, h.load - SEGMENT, flash, from, copy);
    FlashFront(flash, from, from + sizePolicy.hard, copy);
    StreamedCrcIsPackersCrc(raw, behind[..copy]);
    Complement(crc);
    if crcPolicy == CheckCrc && !crc != h.crc {
      return Recovery(CrcMismatch);
    }
    outcome := Jump(h.entry);
  }

  // ----- the same decisions read off the raw bytes, over the unbounded integers

  /** What each reason complains about, when nothing in front of it does. */
  predicate Violates(h: Header, policy: SizePolicy, r: Reason) {
    hide RoundUp;
    var end := h.load + RoundUp(h.size);
    match r
    case Magic => h.magic != 0x4d495053
    case SizeNonzero => h.size == 0
    case SizeRound => RoundUp(h.size) >= 0x1_0000_0000
    case SizeAlign => policy.LegacyStrict? && h.size % 32 != 0
    case SizeHard => RoundUp(h.size) > policy.hard
    case SizeLegacy => policy.LegacyStrict? && RoundUp(h.size) > policy.limit
    case LoadSegment => !(0x8000_0000 <= h.load < 0x9000_0000)
    case LoadAlign => h.load % 4 != 0
    case LoadOverflow => end >= 0x1_0000_0000
    case EntryAlign => h.entry % 4 != 0
    case EntryRange => !(h.load <= h.entry < end)
    case StackOverlap => h.load < 0x8000_4000
    case Stage1Overlap => h.load < 0x8800_0000 && 0x87f0_0000 < end
    case CrcMismatch => false
  }

  /** The place of a check among the others. */
  function Rank(r: Reason): nat {
    match r
    case Magic => 0
    case SizeNonzero => 1
    case SizeRound => 2
    case SizeAlign => 3
    case SizeHard => 4
    case SizeLegacy => 5
    case LoadSegment => 6
    case LoadAlign => 7
    case LoadOverflow => 8
    case EntryAlign => 9
    case EntryRange => 10
    case StackOverlap => 11
    case Stage1Overlap => 12
    case CrcMismatch => 13
  }

  /** The reason reported is the first that applies, over the unbounded integers. */
  lemma RefusalIsFirst(h: Header, policy: SizePolicy, r: Reason)
    ensures Refusal(h, policy) == Some(r)
       <==> Violates(h, policy, r) && forall q: Reason :: Rank(q) < Rank(r) ==> !Violates(h, policy, q)
  {
    hide Refusal, Violates;
    FirstOfRefusal(h, policy);
    if Refusal(h, policy).Some? && r != Refusal(h, policy).value {
      FirstIsOne(h, policy, r, Refusal(h, policy).value);
    }
  }

  lemma RoundLimit(size: u32)
    ensures RoundUp(size) >= 0x1_0000_0000 <==> size > 0xffff_ffe0
  {}

  /** The reason found applies, none of the earlier ones does, and without a reason none does. */
  lemma FirstOfRefusal(h: Header, policy: SizePolicy)
    ensures match Refusal(h, policy)
            case None => forall q: Reason :: !Violates(h, policy, q)
            case Some(r) => Violates(h, policy, r) && forall q: Reason :: Rank(q) < Rank(r) ==> !Violates(h, policy, q)
  {
    hide RoundUp, CopySize, Wrap, InCachedSegment;
    Rounding(h.size);
    RoundLimit(h.size);
    Segment(h.load);
    if h.size <= 0xffff_ffe0 {
      EndAddress(h.load, h.size);
    }
  }

  lemma FirstIsOne(h: Header, policy: SizePolicy, q: Reason, r: Reason)
    requires q != r
    requires Violates(h, policy, r) && forall x: Reason :: Rank(x) < Rank(r) ==> !Violates(h, policy, x)
    ensures !(Violates(h, policy, q) && forall x: Reason :: Rank(x) < Rank(q) ==> !Violates(h, policy, x))
  {
    hide Violates;
    assert Rank(q) < Rank(r) || Rank(r) < Rank(q);
  }

  lemma FieldsOf(raw: seq<byte>)
    requires |raw| == HEADER_BYTES
    ensures var h := Parse(raw);
            && h.magic == Le32(raw[0..4]) && h.load == Le32(raw[4..8]) && h.size == Le32(raw[8..12])
            && h.entry == Le32(raw[12..16]) && h.crc == Crc32.Pack(raw[16..20])
  {
    hide Le32, Crc32.Pack;
  }

  lemma MagicBytes(d: seq<byte>)
    requires |d| == 4
    ensures Le32(d) == 0x4d495053 <==> d == [0x53, 0x50, 0x49, 0x4d]
  {
    WordCodec(0x4d495053, d);
    WordCodec(0x4d495053, [0x53, 0x50, 0x49, 0x4d]);
  }

  /** The CRC stored at byte 16 is that of the header with zeros in its place and of the lines behind it. */
  predicate SealedImage(raw: seq<byte>, lines: seq<byte>)
    requires |raw| == HEADER_BYTES
  {
    hide Crc, Crc32.Pack;
    Crc32.Pack(raw[16..20]) == Crc(raw[..16] + [0, 0, 0, 0] + raw[20..] + lines)
  }

  lemma SealedExactly(raw: seq<byte>, lines: seq<byte>)
    requires |raw| == HEADER_BYTES
    ensures SealedImage(raw, lines) <==> ImageCrc(Parse(raw), lines) == Parse(raw).crc
  {
    hide Crc, Crc32.Pack, Parse, Put;
    FieldsOf(raw);
    BlankedIsZeroCrc(raw);
  }

  /** Which complaints the verifier makes about which images, read off the bytes. */
  lemma ComplaintsExactly(image: seq<byte>, magic: u32, alignment: u32, maxPayload: u32)
    ensures var verdict := Verify(image, magic, alignment, maxPayload);
            && (verdict.Malformed? <==> |image| < HEADER_BYTES || |image| - HEADER_BYTES != Le32(image[8..12]))
            && (!verdict.Malformed? ==> (verdict.DivisionByZero? <==> alignment == 0))
            && (verdict.Complaints? ==>
                  && (WrongMagic in verdict.list <==> Le32(image[0..4]) != magic)
                  && (ZeroSize in verdict.list <==> |image| == HEADER_BYTES)
                  && (Unaligned in verdict.list <==> (|image| - HEADER_BYTES) % alignment != 0)
                  && (TooLarge in verdict.list <==> |image| - HEADER_BYTES > maxPayload)
                  && (WrongCrc in verdict.list <==> !SealedImage(image[..HEADER_BYTES], image[HEADER_BYTES..])))
  {
    hide Parse, Le32, ImageCrc, SealedImage;
    if |image| >= HEADER_BYTES {
      var raw := image[..HEADER_BYTES];
      FieldsOf(raw);
      assert raw[0..4] == image[0..4] && raw[8..12] == image[8..12];
      SealedExactly(raw, image[HEADER_BYTES..]);
      var h, n := Parse(raw), |image| - HEADER_BYTES;
      ListMembers(h.magic != magic, h.size == 0, alignment > 0 && !Aligned(n, alignment), n > maxPayload,
                  h.crc != ImageCrc(h, image[HEADER_BYTES..]));
    }
  }

  lemma ListMembers(magic: bool, size: bool, unaligned: bool, large: bool, crc: bool)
    ensures var list := (if magic then [WrongMagic] else []) + (if size then [ZeroSize] else []) + (if unaligned then [Unaligned] else [])
                      + (if large then [TooLarge] else []) + (if crc then [WrongCrc] else []);
            && (WrongMagic in list <==> magic) && (ZeroSize in list <==> size) && (Unaligned in list <==> unaligned)
            && (TooLarge in list <==> large) && (WrongCrc in list <==> crc)
  {}

  /** The header's own bytes allow a start: magic, sizes within the policy's limits and a sound placement of whole lines. */
  predicate Startable(raw: seq<byte>, size: SizePolicy)
    requires |raw| == HEADER_BYTES
  {
    hide Le32, RoundUp;
    var n := RoundUp(Le32(raw[8..12]));
    && raw[0..4] == [0x53, 0x50, 0x49, 0x4d]
    && 1 <= n <= size.hard
    && (size.LegacyStrict? ==> Le32(raw[8..12]) % 32 == 0 && n <= size.limit)
    && Placed(Le32(raw[4..8]), n, Le32(raw[12..16]))
  }

  lemma StartableExactly(raw: seq<byte>, size: SizePolicy)
    requires |raw| == HEADER_BYTES
    ensures Startable(raw, size) <==> Refusal(Parse(raw), size).None?
  {
    hide Le32, RoundUp, Refusal, Parse, Placed, CopySize;
    FieldsOf(raw);
    MagicBytes(raw[0..4]);
    RefusalIsUnbounded(Parse(raw), size);
    SomeLines(Parse(raw).size);
  }

  lemma SomeLines(size: nat)
    ensures size == 0 <==> RoundUp(size) == 0
    ensures size % 32 == 0 ==> RoundUp(size) == size
    ensures RoundUp(size) % 32 == 0 && size <= RoundUp(size) < size + 32
  {}

  /** The loader jumps to e exactly when the header's bytes allow a start at e and, where the CRC is checked and only there,
      it is right; for every size policy and CRC policy. */
  lemma BootsExactly(raw: seq<byte>, behind: seq<byte>, size: SizePolicy, crc: CrcPolicy, e: u32)
    requires |raw| == HEADER_BYTES && |behind| == size.hard
    ensures Boot(raw, behind, size, crc) == Jump(e)
       <==> (&& Startable(raw, size) && e == Le32(raw[12..16])
             && (crc == CheckCrc ==> SealedImage(raw, behind[..RoundUp(Le32(raw[8..12]))])))
    ensures Boot(raw, behind, size, crc) == Recovery(CrcMismatch)
       <==> Startable(raw, size) && crc == CheckCrc && !SealedImage(raw, behind[..RoundUp(Le32(raw[8..12]))])
  {
    hide Le32, RoundUp, Refusal, Parse, SealedImage, Placed, CopySize, ImageCrc;
    FieldsOf(raw);
    StartableExactly(raw, size);
    RefusalIsUnbounded(Parse(raw), size);
    NeverCrc(Parse(raw), size);
    if Startable(raw, size) {
      SealedExactly(raw, behind[..RoundUp(Le32(raw[8..12]))]);
    }
  }

  lemma NeverCrc(h: Header, policy: SizePolicy)
    ensures Refusal(h, policy) != Some(CrcMismatch)
  {
    hide CopySize, Wrap, Aligned, InCachedSegment, Overlaps;
  }

  /** Memory behind it: the declared bytes rounded up to whole lines stand at the load address when the header's bytes allow
      a start, whatever the CRC says, and nothing else has changed. */
  lemma MemoryExactly(ram: seq<byte>, raw: seq<byte>, behind: seq<byte>, size: SizePolicy)
    requires |raw| == HEADER_BYTES && |behind| == size.hard && |ram| == MEMORY_BYTES
    ensures var after := RamAfter(ram, raw, behind, size);
            if !Startable(raw, size) then after == ram
            else
              var at, n := Le32(raw[4..8]) - SEGMENT, RoundUp(Le32(raw[8..12]));
              && 0 <= at && at + n <= MEMORY_BYTES && n <= |behind|
              && after[at..at + n] == behind[..n] && after[..at] == ram[..at] && after[at + n..] == ram[at + n..]
  {
    hide Le32, RoundUp, Refusal, Parse, CopySize, Overlay;
    FieldsOf(raw);
    StartableExactly(raw, size);
    RefusalIsUnbounded(Parse(raw), size);
    if Startable(raw, size) {
      var at, n := Le32(raw[4..8]) - SEGMENT, RoundUp(Le32(raw[8..12]));
      OverlayHoldsData(ram, at, behind[..n]);
      OverlayKeepsSlice(ram, at, behind[..n], 0, at);
      OverlayKeepsSlice(ram, at, behind[..n], at + n, MEMORY_BYTES);
      Whole(ram, at, n);
      Whole(RamAfter(ram, raw, behind, size), at, n);
    }
  }

  lemma Whole(ram: seq<byte>, at: nat, n: nat)
    requires |ram| == MEMORY_BYTES && at + n <= |ram|
    ensures ram[..at] == ram[0..at] && ram[at + n..] == ram[at + n..MEMORY_BYTES]
  {}

  /** A bootable image with damage within four consecutive bytes of its lines, or in its CRC field, is reported as such. */
  lemma KernelBurstIsRefused(raw: seq<byte>, behind: seq<byte>, raw': seq<byte>, behind': seq<byte>, size: SizePolicy, at: nat)
    requires |raw| == HEADER_BYTES && |behind| == |behind'| == size.hard && Boot(raw, behind, size, CheckCrc).Jump?
    requires var n := RoundUp(Parse(raw).size);
             || (raw' == raw && n <= |behind| && behind[..n] != behind'[..n]
                 && forall k :: 0 <= k < n && !(at <= k < at + 4) ==> behind[k] == behind'[k])
             || (|raw'| == HEADER_BYTES && raw' != raw && raw'[..16] == raw[..16] && raw'[20..] == raw[20..] && behind' == behind)
    ensures Boot(raw', behind', size, CheckCrc) == Recovery(CrcMismatch)
  {
    hide Le32, RoundUp, Refusal, Parse, Placed, CopySize, ImageCrc, Crc, Boot, Crc32.Pack;
    FieldsOf(raw);
    FieldsOf(raw');
    var e := Boot(raw, behind, size, CheckCrc).entry;
    BootsExactly(raw, behind, size, CheckCrc, e);
    BootsExactly(raw', behind', size, CheckCrc, e);
    var n := RoundUp(Le32(raw[8..12]));
    if raw' == raw {
      var front := raw[..16] + [0, 0, 0, 0] + raw[20..];
      var sent, got := front + behind[..n], front + behind'[..n];
      assert sent[32..] == behind[..n] && got[32..] == behind'[..n];
      BurstDetected(sent, got, 32 + at);
    } else {
      SameFields(raw, raw');
      assert raw'[16..20] != raw[16..20] by {
        assert raw == raw[..16] + raw[16..20] + raw[20..] && raw' == raw'[..16] + raw'[16..20] + raw'[20..];
      }
      PackDiffers(raw[16..20], raw'[16..20]);
    }
  }

  lemma PackDiffers(v: seq<byte>, w: seq<byte>)
    requires |v| == |w| == 4 && v != w
    ensures Crc32.Pack(v) != Crc32.Pack(w)
  {
    hide Crc32.Pack;
    if Crc32.Pack(v) == Crc32.Pack(w) {
      PackInjective(v, w);
    }
  }

  lemma SameFields(raw: seq<byte>, raw': seq<byte>)
    requires |raw| == |raw'| == HEADER_BYTES && raw'[..16] == raw[..16]
    ensures raw'[0..4] == raw[0..4] && raw'[4..8] == raw[4..8] && raw'[8..12] == raw[8..12] && raw'[12..16] == raw[12..16]
  {
    assert raw[0..4] == raw[..16][0..4] && raw[4..8] == raw[..16][4..8] && raw[8..12] == raw[..16][8..12] && raw[12..16] == raw[..16][12..16];
    assert raw'[0..4] == raw'[..16][0..4] && raw'[4..8] == raw'[..16][4..8] && raw'[8..12] == raw'[..16][8..12] && raw'[12..16] == raw'[..16][12..16];
  }

  /** Under the strict policies a flash image boots exactly when the host's verifier passes it and its placement is sound. */
  lemma BootsExactlyWhatVerifies(raw: seq<byte>, behind: seq<byte>, p: SizePolicy)
    requires p.LegacyStrict? && |raw| == HEADER_BYTES && |behind| == p.hard
    ensures var h := Parse(raw);
            Boot(raw, behind, p, CheckCrc) == Jump(h.entry)
            <==> (&& h.size <= p.hard
                  && Verify(raw + behind[..h.size], MAGIC, 32, Smaller(p.limit, p.hard)) == Complaints([])
                  && Placed(h.load, h.size, h.entry))
    ensures var outcome := Boot(raw, behind, p, CheckCrc); outcome.Jump? ==> outcome.entry == Parse(raw).entry
  {
    hide Parse, ImageCrc, Verify, Refusal, Aligned, RoundUp;
    var h := Parse(raw);
    RefusalIsUnbounded(h, p);
    if h.size <= p.hard {
      var image := raw + behind[..h.size];
      assert image[..HEADER_BYTES] == raw && image[HEADER_BYTES..] == behind[..h.size];
      NoComplaints(image, MAGIC, 32, Smaller(p.limit, p.hard));
    }
  }

  function Smaller(a: u32, b: u32): u32 {
    if a < b then a else b
  }

  /** Pack, then boot: the loader jumps to the packed entry with the kernel at its load address. */
  lemma PackedKernelBoots(kernel: seq<byte>, o: PackOptions, rest: seq<byte>, ram: seq<byte>, p: SizePolicy)
    requires p.LegacyStrict? && PackImage(kernel, o).Some? && o.magic == MAGIC && o.alignment % 32 == 0
    requires |PackImage(kernel, o).value| + |rest| == HEADER_BYTES + p.hard
    requires |PackImage(kernel, o).value| - HEADER_BYTES <= p.limit
    requires Placed(o.load, |PackImage(kernel, o).value| - HEADER_BYTES, o.entry)
    requires |ram| == MEMORY_BYTES
    ensures var flash := PackImage(kernel, o).value + rest;
            var raw, behind := flash[..HEADER_BYTES], flash[HEADER_BYTES..];
            && Boot(raw, behind, p, CheckCrc) == Jump(o.entry)
            && kernel <= RamAfter(ram, raw, behind, p)[o.load - SEGMENT..]
  {
    hide PackImage, Parse, Verify, Boot, Refusal, ImageCrc, Aligned, RoundUp, Overlay;
    var image := PackImage(kernel, o).value;
    var flash := image + rest;
    var raw, behind := flash[..HEADER_BYTES], flash[HEADER_BYTES..];
    var h := Parse(raw);
    PackedParts(kernel, o, image, rest, p);
    BootsExactlyWhatVerifies(raw, behind, p);
    RefusalIsUnbounded(h, p);
    RefusedNever(raw, behind, p);
    KernelInFront(ram, o.load - SEGMENT, kernel, behind[..h.size]);
  }

  /** A packed image at the start of a longer window, seen as header and bytes behind it. */
  lemma PackedParts(kernel: seq<byte>, o: PackOptions, image: seq<byte>, rest: seq<byte>, p: SizePolicy)
    requires p.LegacyStrict? && PackImage(kernel, o) == Some(image) && o.magic == MAGIC && o.alignment % 32 == 0
    requires |image| + |rest| == HEADER_BYTES + p.hard && |image| - HEADER_BYTES <= p.limit
    ensures var raw, behind := (image + rest)[..HEADER_BYTES], (image + rest)[HEADER_BYTES..];
            var h := Parse(raw);
            && h.load == o.load && h.entry == o.entry && h.size == |image| - HEADER_BYTES <= |behind|
            && RoundUp(h.size) == h.size
            && Verify(raw + behind[..h.size], MAGIC, 32, Smaller(p.limit, p.hard)) == Complaints([])
            && kernel <= behind[..h.size]
  {
    hide PackImage, Parse, Verify, ImageCrc, Aligned, RoundUp;
    PackedImageVerifies(kernel, o);
    NoComplaints(image, MAGIC, o.alignment, o.maxPayload);
    Divides(|image| - HEADER_BYTES, o.alignment);
    NoComplaints(image, MAGIC, 32, Smaller(p.limit, p.hard));
    FrontOf(image, rest);
  }

  lemma FrontOf(image: seq<byte>, rest: seq<byte>)
    requires |image| >= HEADER_BYTES
    ensures (image + rest)[..HEADER_BYTES] == image[..HEADER_BYTES]
    ensures (image + rest)[HEADER_BYTES..][..|image| - HEADER_BYTES] == image[HEADER_BYTES..]
    ensures image[..HEADER_BYTES] + image[HEADER_BYTES..] == image
  {
    assert (image + rest)[HEADER_BYTES..] == image[HEADER_BYTES..] + rest;
  }

  lemma RefusedNever(raw: seq<byte>, behind: seq<byte>, p: SizePolicy)
    requires p.LegacyStrict? && |raw| == HEADER_BYTES && |behind| == p.hard
    requires Boot(raw, behind, p, CheckCrc).Jump?
    ensures Refusal(Parse(raw), p) == None
  {
    hide Parse, Refusal, ImageCrc, RoundUp;
  }

  lemma KernelInFront(ram: seq<byte>, at: nat, kernel: seq<byte>, payload: seq<byte>)
    requires at + |payload| <= |ram| && kernel <= payload
    ensures kernel <= Overlay(ram, at, payload)[at..]
  {}

  lemma Divides(size: nat, alignment: nat)
    requires alignment > 0 && alignment % 32 == 0 && Aligned(size, alignment)
    ensures size % 32 == 0 && Aligned(size, 32) && RoundUp(size) == size
  {
    var k, m := size / alignment, alignment / 32;
    assert alignment == 32 * m && size == alignment * k;
    assert size == 32 * (m * k);
  }
}
