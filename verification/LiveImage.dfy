// prepare_live_image of payloads/uart-liveboot/liveboot.c: the staged flash image unpacked to where Linux expects it.
module LiveImage {
  import opened Bytes
  import opened Options
  import opened Words
  import opened Crc32
  import KernelImage

  // Addresses of the cached segment, counted from the lowest one in use.
  const ORIGIN: int := 0x8100_0000
  const MEMORY: nat := 0x0700_0000
  const KERNEL_DEST: nat := 0
  const KERNEL_SLOT: nat := 0x002c_0000
  const STAGING: nat := 0x0040_0000
  const STAGED_BYTES: nat := 0x0100_0000
  const MANIFEST: nat := 0x0140_0000
  const MANIFEST_BYTES: nat := 0x0001_0000
  const EXECUTION: nat := 0x05c0_0000
  const EXECUTION_BYTES: nat := 0x0040_0000
  const ROOTFS_DEST: nat := 0x0600_0000
  const ROOTFS_MAX: nat := 0x0080_0000
  const KERNEL_OFFSET: nat := 0x0004_0000
  const ROOTFS_OFFSET: nat := 0x0030_0000

  datatype Plan = Plan(kernelSize: u32, kernelCopySize: u32, kernelEntry: u32, rootfsSize: u32, bytesUsed: u32)

  /** live_le16. */
  function Le16(d: seq<byte>): u32
    requires |d| == 2
  {
    d[0] as int + 0x100 * d[1] as int
  }

  function RawHeader(image: seq<byte>): (r: seq<byte>)
    requires |image| == STAGED_BYTES
    ensures |r| == 32
  {
    image[KERNEL_OFFSET..KERNEL_OFFSET + 32]
  }

  function KernelBytes(image: seq<byte>, n: nat): seq<byte>
    requires |image| == STAGED_BYTES && n <= KERNEL_SLOT
  {
    image[KERNEL_OFFSET + 32..KERNEL_OFFSET + 32 + n]
  }

  function Superblock(image: seq<byte>): (r: seq<byte>)
    requires |image| == STAGED_BYTES
    ensures |r| == 96
  {
    image[ROOTFS_OFFSET..ROOTFS_OFFSET + 96]
  }

  /** The header checks in front of the CRC, in 32-bit words. */
  predicate KernelGeometry(h: KernelImage.Header) {
    && !(h.magic != 0x4d495053 || h.load != 0x8100_0000 || h.entry < h.load || h.size == 0 || h.size > 0x002c_0000 - 32)
    && !(h.entry >= Wrap(h.load + KernelImage.CopySize(h.size)) || KernelImage.CopySize(h.size) > 0x002c_0000 - 32)
  }

  predicate RootfsAccepted(superblock: seq<byte>, manifestSize: u32)
    requires |superblock| == 96
  {
    && superblock[0..4] == [0x68, 0x73, 0x71, 0x73]
    && Le16(superblock[28..30]) == 4
    && Le32(superblock[44..48]) == 0
    && !(Le32(superblock[40..44]) < 96 || Le32(superblock[40..44]) > manifestSize || manifestSize > 0x0080_0000)
    && !(Wrap(0x8700_0000 + manifestSize) < 0x8700_0000 || Wrap(0x8700_0000 + manifestSize) > 0x8780_0000)
  }

  /** The staged image holds a kernel for this loader, with its CRC, and a root file system of the manifest's size. */
  predicate Acceptable(image: seq<byte>, manifestSize: u32)
    requires |image| == STAGED_BYTES
  {
    var h := KernelImage.Parse(RawHeader(image));
    && KernelGeometry(h)
    && KernelImage.ImageCrc(h, KernelBytes(image, KernelImage.RoundUp(h.size))) == h.crc
    && RootfsAccepted(Superblock(image), manifestSize)
  }

  /** live_copy, within one memory. */
  method Copy(ram: array<byte>, to: nat, from: nat, n: nat)
    requires to + n <= ram.Length && from + n <= ram.Length
    requires to + n <= from || from + n <= to
    modifies ram
    ensures ram[..] == Overlay(old(ram[..]), to, old(ram[from..from + n]))
  {
    hide Overlay;
    ghost var was := ram[..];
    assert was[from..from + n] == ram[from..from + n];
    OverlayNothing(was, to);
    assert was[from..from] == [];
    for i := 0 to n
      invariant ram[..] == Overlay(was, to, was[from..from + i])
    {
      ghost var before := ram[..];
      OverlayKeeps(was, to, was[from..from + i], from + i);
      assert before[from + i] == ram[from + i];
      ram[to + i] := ram[from + i];
      assert ram[..] == before[to + i := was[from + i]];
      OverlayPut(was, to, was[from..from + i], was[from + i]);
      assert was[from..from + i] + [was[from + i]] == was[from..from + i + 1];
    }
  }

  function Staged(memory: seq<byte>): (r: seq<byte>)
    requires |memory| == MEMORY
    ensures |r| == STAGED_BYTES
  {
    memory[STAGING..STAGING + STAGED_BYTES]
  }

  /** Memory after a successful preparation. */
  function Unpacked(memory: seq<byte>, copy: nat, rootfs: nat): (r: seq<byte>)
    requires |memory| == MEMORY && copy <= KERNEL_SLOT && rootfs <= ROOTFS_MAX
    ensures |r| == MEMORY
  {
    var image := Staged(memory);
    Overlay(Overlay(memory, KERNEL_DEST, KernelBytes(image, copy)), ROOTFS_DEST, image[ROOTFS_OFFSET..ROOTFS_OFFSET + rootfs])
  }

  function PlanFor(image: seq<byte>, manifestSize: u32): Plan
    requires |image| == STAGED_BYTES
  {
    var h := KernelImage.Parse(RawHeader(image));
    Plan(h.size, KernelImage.CopySize(h.size), h.entry, manifestSize, Le32(Superblock(image)[40..44]))
  }

  lemma CopySizeFits(h: KernelImage.Header)
    requires KernelGeometry(h)
    ensures KernelImage.CopySize(h.size) == KernelImage.RoundUp(h.size) <= KERNEL_SLOT - 32
    ensures h.size <= KernelImage.RoundUp(h.size)
    ensures 0x8100_0000 <= h.entry < 0x8100_0000 + KernelImage.RoundUp(h.size)
  {}

  lemma RootfsFits(superblock: seq<byte>, manifestSize: u32)
    requires |superblock| == 96 && RootfsAccepted(superblock, manifestSize)
    ensures 96 <= Le32(superblock[40..44]) <= manifestSize <= ROOTFS_MAX
  {}

  /** prepare_live_image; `ram` is the cached segment from 0x81000000 up to 0x88000000. */
  method Prepare(ram: array<byte>, manifestSize: u32) returns (plan: Option<Plan>)
    requires ram.Length == MEMORY
    modifies ram
    ensures plan.Some? <==> Acceptable(old(Staged(ram[..])), manifestSize)
    ensures plan.None? ==> ram[..] == old(ram[..])
    ensures plan.Some? ==> plan.value == PlanFor(old(Staged(ram[..])), manifestSize)
                           && plan.value.kernelCopySize <= KERNEL_SLOT && plan.value.rootfsSize <= ROOTFS_MAX
                           && ram[..] == Unpacked(old(ram[..]), plan.value.kernelCopySize, plan.value.rootfsSize)
  {
    hide KernelImage.Parse, KernelImage.ImageCrc, Absorb, Xor, Overlay, Le32, Le16, KernelImage.CopySize, KernelImage.RoundUp, RootfsAccepted,
      KernelGeometry, KernelImage.Blanked, Staged;
    ghost var was := ram[..];
    ghost var image := Staged(was);
    var raw := ram[STAGING + KERNEL_OFFSET..STAGING + KERNEL_OFFSET + 32];
    ArraySlice(ram, STAGING + KERNEL_OFFSET, 32);
    StagedSlice(was, KERNEL_OFFSET, 32);
    var h := KernelImage.Parse(raw);
    if !KernelGeometry(h) {
      return None;
    }
    CopySizeFits(h);
    var copy := KernelImage.CopySize(h.size);
    var source := STAGING + KERNEL_OFFSET + 32;
    var crc := Update(INITIAL, KernelImage.Blanked(raw));
    crc := Update(crc, ram[source..source + copy]);
    ArraySlice(ram, source, copy);
    StagedSlice(was, KERNEL_OFFSET + 32, copy);
    KernelImage.StreamedCrcIsPackersCrc(raw, KernelBytes(image, copy));
    KernelImage.Complement(crc);
    if !crc != h.crc {
      return None;
    }
    var superblock := ram[STAGING + ROOTFS_OFFSET..STAGING + ROOTFS_OFFSET + 96];
    ArraySlice(ram, STAGING + ROOTFS_OFFSET, 96);
    StagedSlice(was, ROOTFS_OFFSET, 96);
    if !RootfsAccepted(superblock, manifestSize) {
      return None;
    }
    RootfsFits(superblock, manifestSize);
    Copy(ram, KERNEL_DEST, source, copy);
    KernelLeavesStaging(was, KernelBytes(image, copy));
    var rootfs := STAGING + ROOTFS_OFFSET;
    ArraySlice(ram, rootfs, manifestSize);
    StagedSlice(ram[..], ROOTFS_OFFSET, manifestSize);
    Copy(ram, ROOTFS_DEST, rootfs, manifestSize);
    plan := Some(Plan(h.size, copy, h.entry, manifestSize, Le32(superblock[40..44])));
  }

  lemma KernelLeavesStaging(memory: seq<byte>, kernel: seq<byte>)
    requires |memory| == MEMORY && |kernel| <= KERNEL_SLOT
    ensures Staged(Overlay(memory, KERNEL_DEST, kernel)) == Staged(memory)
  {}

  lemma StagedSlice(memory: seq<byte>, at: nat, n: nat)
    requires |memory| == MEMORY && at + n <= STAGED_BYTES
    ensures memory[STAGING + at..STAGING + at + n] == Staged(memory)[at..at + n]
  {
    SliceOfSlice(memory, STAGING, STAGING + STAGED_BYTES, at, at + n);
  }

  lemma ArraySlice(ram: array<byte>, at: nat, n: nat)
    requires at + n <= ram.Length
    ensures ram[at..at + n] == ram[..][at..at + n]
  {}

  /** Where an accepted image is read from and written to. */
  lemma LayoutIsSound(memory: seq<byte>, manifestSize: u32)
    requires |memory| == MEMORY && Acceptable(Staged(memory), manifestSize)
    ensures var image := Staged(memory);
            var plan := PlanFor(image, manifestSize);
            var copy, rootfs := plan.kernelCopySize, plan.rootfsSize;
            // both sources lie inside the staged image, and the kernel ends in front of the root file system
            && KERNEL_OFFSET + 32 + copy <= ROOTFS_OFFSET
            && ROOTFS_OFFSET + rootfs <= STAGED_BYTES
            // the destinations keep clear of each other and of every region still in use
            && KERNEL_DEST + copy <= STAGING < STAGING + STAGED_BYTES <= MANIFEST < MANIFEST + MANIFEST_BYTES
               <= EXECUTION < EXECUTION + EXECUTION_BYTES <= ROOTFS_DEST < ROOTFS_DEST + rootfs <= MEMORY
            // both copies are exact, and nothing else changes
            && var after := Unpacked(memory, copy, rootfs);
            && after[KERNEL_DEST..KERNEL_DEST + copy] == KernelBytes(image, copy)
            && after[ROOTFS_DEST..ROOTFS_DEST + rootfs] == image[ROOTFS_OFFSET..ROOTFS_OFFSET + rootfs]
            && after[KERNEL_DEST + copy..ROOTFS_DEST] == memory[KERNEL_DEST + copy..ROOTFS_DEST]
            && after[ROOTFS_DEST + rootfs..] == memory[ROOTFS_DEST + rootfs..]
            // the entry is inside the copied kernel, and the file system ends inside the copied root file system
            && ORIGIN + KERNEL_DEST <= plan.kernelEntry < ORIGIN + KERNEL_DEST + copy
            && 96 <= plan.bytesUsed <= rootfs
  {
    hide KernelImage.Parse, KernelImage.ImageCrc, Le32, KernelImage.CopySize, KernelImage.RoundUp, RootfsAccepted, KernelGeometry;
    var image := Staged(memory);
    CopySizeFits(KernelImage.Parse(RawHeader(image)));
    RootfsFits(Superblock(image), manifestSize);
  }

  /** A kernel packed for this loader with 32-byte lines passes its checks at the kernel offset of a flash image. */
  lemma PackedKernelIsAcceptable(kernel: seq<byte>, o: KernelImage.PackOptions, image: seq<byte>, manifestSize: u32)
    requires |image| == STAGED_BYTES && KernelImage.PackImage(kernel, o).Some?
    requires o.magic == KernelImage.MAGIC && o.alignment % 32 == 0 && o.load == 0x8100_0000
    requires |KernelImage.PackImage(kernel, o).value| <= KERNEL_SLOT
    requires 0x8100_0000 <= o.entry < 0x8100_0000 + |KernelImage.PackImage(kernel, o).value| - 32
    requires KernelImage.PackImage(kernel, o).value <= image[KERNEL_OFFSET..]
    ensures Acceptable(image, manifestSize) <==> RootfsAccepted(Superblock(image), manifestSize)
    ensures kernel <= KernelBytes(image, KERNEL_SLOT)
  {
    hide KernelImage.Parse, KernelImage.ImageCrc, KernelImage.PackImage, KernelImage.Verify, Acceptable, RawHeader, KernelBytes;
    var packed := KernelImage.PackImage(kernel, o).value;
    PackedFields(kernel, o, packed);
    PackedInPlace(packed, image);
    PrefixTransitive(kernel, packed[32..], KernelBytes(image, KERNEL_SLOT));
    VerifiedKernel(packed, image, manifestSize);
  }

  lemma PrefixTransitive(a: seq<byte>, b: seq<byte>, c: seq<byte>)
    requires a <= b <= c
    ensures a <= c
  {}

  lemma PackedFields(kernel: seq<byte>, o: KernelImage.PackOptions, packed: seq<byte>)
    requires KernelImage.PackImage(kernel, o) == Some(packed) && o.alignment % 32 == 0
    ensures |packed| > 32 && |packed| % 32 == 0 && kernel <= packed[32..]
    ensures var h := KernelImage.Parse(packed[..32]);
            && h.magic == o.magic && h.load == o.load && h.entry == o.entry && h.size == |packed| - 32
            && h.crc == KernelImage.ImageCrc(h, packed[32..])
  {
    hide KernelImage.Parse, KernelImage.ImageCrc, KernelImage.PackImage, KernelImage.Verify, KernelImage.Aligned, KernelImage.RoundUp;
    KernelImage.PackedImageVerifies(kernel, o);
    KernelImage.NoComplaints(packed, o.magic, o.alignment, o.maxPayload);
    KernelImage.Divides(|packed| - 32, o.alignment);
  }

  lemma VerifiedKernel(packed: seq<byte>, image: seq<byte>, manifestSize: u32)
    requires |image| == STAGED_BYTES && 32 < |packed| <= KERNEL_SLOT && packed <= image[KERNEL_OFFSET..]
    requires |packed| % 32 == 0
    requires var h := KernelImage.Parse(packed[..32]);
             && h.magic == KernelImage.MAGIC && h.load == 0x8100_0000 && h.size == |packed| - 32
             && h.load <= h.entry < h.load + h.size
             && h.crc == KernelImage.ImageCrc(h, packed[32..])
    ensures Acceptable(image, manifestSize) <==> RootfsAccepted(Superblock(image), manifestSize)
  {
    hide KernelImage.Parse, KernelImage.ImageCrc, RawHeader, KernelBytes, Superblock, RootfsAccepted;
    PackedInPlace(packed, image);
    AlignedGeometry(KernelImage.Parse(packed[..32]));
  }

  lemma AlignedGeometry(h: KernelImage.Header)
    requires h.magic == KernelImage.MAGIC && h.load == 0x8100_0000 && 0 < h.size <= KERNEL_SLOT - 32 && h.size % 32 == 0
    requires h.load <= h.entry < h.load + h.size
    ensures KernelGeometry(h) && KernelImage.RoundUp(h.size) == h.size
  {}

  lemma PackedInPlace(packed: seq<byte>, image: seq<byte>)
    requires |image| == STAGED_BYTES && 32 <= |packed| <= KERNEL_SLOT && packed <= image[KERNEL_OFFSET..]
    ensures RawHeader(image) == packed[..32]
    ensures KernelBytes(image, |packed| - 32) == packed[32..] <= KernelBytes(image, KERNEL_SLOT)
  {
    var p := image[KERNEL_OFFSET..];
    var n := |packed| - 32;
    assert packed == p[..|packed|];
    assert KernelBytes(image, n) == p[32..32 + n] == packed[32..];
    assert KernelBytes(image, KERNEL_SLOT)[..n] == KernelBytes(image, n);
  }

  // ----- what an acceptable image is, byte for byte

  /** "SPIM" at 0x40000 with a load address of 0x81000000, a size that fits the slot, an entry inside the copied lines and the
      right CRC; at 0x300000 "hsqs", version 4 and between 96 bytes and the manifest's size in use, which is at most 8 MiB. */
  predicate Bootable(image: seq<byte>, manifestSize: u32)
    requires |image| == STAGED_BYTES
  {
    hide Le32, KernelImage.RoundUp, KernelImage.SealedImage;
    var size, entry, used := Le32(image[0x4_0008..0x4_000c]), Le32(image[0x4_000c..0x4_0010]), Le32(image[0x30_0028..0x30_002c]);
    && image[0x4_0000..0x4_0004] == [0x53, 0x50, 0x49, 0x4d]
    && Le32(image[0x4_0004..0x4_0008]) == 0x8100_0000
    && 1 <= size <= 0x2b_ffe0
    && 0x8100_0000 <= entry < 0x8100_0000 + KernelImage.RoundUp(size)
    && SealedSlot(image, KernelImage.RoundUp(size))
    && image[0x30_0000..0x30_0004] == [0x68, 0x73, 0x71, 0x73]
    && image[0x30_001c] == 4 && image[0x30_001d] == 0
    && 96 <= used <= manifestSize <= 8 * 1024 * 1024
    && Le32(image[0x30_002c..0x30_0030]) == 0
  }

  predicate SealedSlot(image: seq<byte>, n: nat)
    requires |image| == STAGED_BYTES
  {
    hide KernelImage.SealedImage;
    n <= 0x2b_ffe0 && KernelImage.SealedImage(image[0x4_0000..0x4_0020], image[0x4_0020..0x4_0020 + n])
  }

  lemma KernelHalf(image: seq<byte>)
    requires |image| == STAGED_BYTES
    ensures var h := KernelImage.Parse(RawHeader(image));
            && (h.magic == 0x4d495053 <==> image[0x4_0000..0x4_0004] == [0x53, 0x50, 0x49, 0x4d])
            && h.load == Le32(image[0x4_0004..0x4_0008]) && h.size == Le32(image[0x4_0008..0x4_000c])
            && h.entry == Le32(image[0x4_000c..0x4_0010])
  {
    hide Le32, KernelImage.Parse;
    var raw := RawHeader(image);
    KernelImage.FieldsOf(raw);
    KernelImage.MagicBytes(raw[0..4]);
    SliceOfSlice(image, 0x4_0000, 0x4_0020, 0, 4); SliceOfSlice(image, 0x4_0000, 0x4_0020, 4, 8);
    SliceOfSlice(image, 0x4_0000, 0x4_0020, 8, 12); SliceOfSlice(image, 0x4_0000, 0x4_0020, 12, 16);
  }

  lemma GeometryMeans(h: KernelImage.Header)
    ensures KernelGeometry(h)
       <==> (&& h.magic == 0x4d495053 && h.load == 0x8100_0000 && 1 <= h.size <= 0x2b_ffe0
             && 0x8100_0000 <= h.entry < 0x8100_0000 + KernelImage.RoundUp(h.size))
    ensures h.size <= 0x2b_ffe0 ==> KernelImage.RoundUp(h.size) <= 0x2b_ffe0
  {}

  lemma Version(s: seq<byte>)
    requires |s| == 96
    ensures Le16(s[28..30]) == 4 <==> s[28] == 4 && s[29] == 0
  {
    assert s[28..30][0] == s[28] && s[28..30][1] == s[29];
  }

  lemma SuperblockMeans(s: seq<byte>, manifestSize: u32)
    requires |s| == 96
    ensures RootfsAccepted(s, manifestSize)
       <==> (&& s[0..4] == [0x68, 0x73, 0x71, 0x73] && s[28] == 4 && s[29] == 0
             && 96 <= Le32(s[40..44]) <= manifestSize <= 8 * 1024 * 1024 && Le32(s[44..48]) == 0)
  {
    hide Le32, Le16;
    Version(s);
  }

  lemma SuperblockBytes(image: seq<byte>)
    requires |image| == STAGED_BYTES
    ensures var s := Superblock(image);
            && s[0..4] == image[0x30_0000..0x30_0004] && s[28] == image[0x30_001c] && s[29] == image[0x30_001d]
            && s[40..44] == image[0x30_0028..0x30_002c] && s[44..48] == image[0x30_002c..0x30_0030]
  {
    SliceOfSlice(image, 0x30_0000, 0x30_0060, 0, 4); SliceOfSlice(image, 0x30_0000, 0x30_0060, 40, 44);
    SliceOfSlice(image, 0x30_0000, 0x30_0060, 44, 48);
    assert image[0x30_0000..0x30_0060][28] == image[0x30_001c] && image[0x30_0000..0x30_0060][29] == image[0x30_001d];
  }

  lemma RootfsHalf(image: seq<byte>, manifestSize: u32)
    requires |image| == STAGED_BYTES
    ensures RootfsAccepted(Superblock(image), manifestSize)
       <==> (&& image[0x30_0000..0x30_0004] == [0x68, 0x73, 0x71, 0x73]
             && image[0x30_001c] == 4 && image[0x30_001d] == 0
             && 96 <= Le32(image[0x30_0028..0x30_002c]) <= manifestSize <= 8 * 1024 * 1024
             && Le32(image[0x30_002c..0x30_0030]) == 0)
  {
    hide Le32, RootfsAccepted, Superblock;
    SuperblockBytes(image);
    SuperblockMeans(Superblock(image), manifestSize);
  }

  /** The staged image is accepted exactly when its bytes say so. */
  lemma AcceptableExactly(image: seq<byte>, manifestSize: u32)
    requires |image| == STAGED_BYTES
    ensures Acceptable(image, manifestSize) <==> Bootable(image, manifestSize)
  {
    hide Le32, KernelImage.Parse, KernelImage.ImageCrc, KernelImage.RoundUp, KernelImage.SealedImage, KernelImage.CopySize,
      KernelGeometry, RootfsAccepted, Superblock, RawHeader;
    var h := KernelImage.Parse(RawHeader(image));
    KernelHalf(image);
    GeometryMeans(h);
    RootfsHalf(image, manifestSize);
    if KernelGeometry(h) {
      var n := KernelImage.RoundUp(h.size);
      KernelImage.SealedExactly(RawHeader(image), KernelBytes(image, n));
      SlotParts(image, n);
    }
  }

  lemma SlotParts(image: seq<byte>, n: nat)
    requires |image| == STAGED_BYTES && n <= 0x2b_ffe0
    ensures RawHeader(image) == image[0x4_0000..0x4_0020] && KernelBytes(image, n) == image[0x4_0020..0x4_0020 + n]
  {}

  /** Every field of the plan, read off the bytes. */
  lemma PlanExactly(image: seq<byte>, manifestSize: u32)
    requires |image| == STAGED_BYTES
    ensures var plan, size := PlanFor(image, manifestSize), Le32(image[0x4_0008..0x4_000c]);
            && plan.kernelSize == size && plan.kernelCopySize == KernelImage.CopySize(size)
            && plan.kernelEntry == Le32(image[0x4_000c..0x4_0010])
            && plan.rootfsSize == manifestSize && plan.bytesUsed == Le32(image[0x30_0028..0x30_002c])
  {
    hide Le32, KernelImage.Parse, RawHeader, Superblock, KernelImage.CopySize;
    KernelHalf(image);
    SuperblockBytes(image);
  }
}
