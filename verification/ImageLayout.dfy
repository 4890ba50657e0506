// What validate_manifest_and_image in payloads/uart-firmware-recovery/recovery.c looks for in the staged image itself.
module ImageLayout {
  import opened Bytes
  import opened NorFlash

  const KERNEL_OFFSET: nat := 0x4_0000
  const ROOTFS_OFFSET: nat := 0x30_0000

  const SPIM_MAGIC: seq<byte> := [0x53, 0x50, 0x49, 0x4d]
  const SQUASHFS_MAGIC: seq<byte> := [0x68, 0x73, 0x71, 0x73]

  /** "PMOSRAM READY 2": the banner of a loader that can be recovered over the serial line. */
  const LOADER_MARKER: seq<byte> := [0x50, 0x4d, 0x4f, 0x53, 0x52, 0x41, 0x4d, 0x20, 0x52, 0x45, 0x41, 0x44, 0x59, 0x20, 0x32]

  /** The needle stands at this place of the haystack. */
  predicate StandsAt(haystack: seq<byte>, at: nat, needle: seq<byte>) {
    at + |needle| <= |haystack| && haystack[at..at + |needle|] == needle
  }

  predicate Contains(haystack: seq<byte>, needle: seq<byte>) {
    needle != [] && exists at :: 0 <= at < |haystack| && StandsAt(haystack, at, needle)
  }

  /** Both region magics are in place and the loader region holds the marker. */
  predicate LayoutOk(image: seq<byte>)
    requires |image| == FLASH_BYTES
  {
    && StandsAt(image, KERNEL_OFFSET, SPIM_MAGIC)
    && StandsAt(image, ROOTFS_OFFSET, SQUASHFS_MAGIC)
    && Contains(image[..LOADER_BYTES], LOADER_MARKER)
  }

  /** bytes_equal, at a place of a buffer. */
  method BytesEqual(memory: array<byte>, at: nat, expected: seq<byte>) returns (equal: bool)
    requires at + |expected| <= memory.Length
    ensures equal <==> memory[at..at + |expected|] == expected
  {
    for i := 0 to |expected|
      invariant memory[at..at + i] == expected[..i]
    {
      if memory[at + i] != expected[i] {
        assert memory[at..at + |expected|][i] != expected[i];
        return false;
      }
    }
    equal := true;
  }

  /** contains_bytes over the first `size` bytes of a buffer. */
  method ContainsBytes(memory: array<byte>, size: nat, needle: seq<byte>) returns (found: bool)
    requires size <= memory.Length
    ensures found <==> Contains(memory[..size], needle)
  {
    if |needle| == 0 || |needle| > size {
      return false;
    }
    var i := 0;
    while i <= size - |needle|
      invariant i <= size - |needle| + 1
      invariant forall at :: 0 <= at < i ==> !StandsAt(memory[..size], at, needle)
    {
      var equal := BytesEqual(memory, i, needle);
      SliceOfPrefix(memory, size, i, |needle|);
      if equal {
        assert StandsAt(memory[..size], i, needle);
        return true;
      }
      i := i + 1;
    }
    found := false;
  }

  lemma SliceOfPrefix(memory: array<byte>, size: nat, at: nat, n: nat)
    requires at + n <= size <= memory.Length
    ensures memory[..size][at..at + n] == memory[at..at + n]
  {}

  /** The image half of validate_manifest_and_image. */
  method CheckLayout(staging: array<byte>) returns (ok: bool)
    requires staging.Length == FLASH_BYTES
    ensures ok <==> LayoutOk(staging[..])
  {
    hide Contains;
    SliceOfPrefix(staging, FLASH_BYTES, KERNEL_OFFSET, 4);
    SliceOfPrefix(staging, FLASH_BYTES, ROOTFS_OFFSET, 4);
    assert staging[..FLASH_BYTES] == staging[..] && staging[..][..LOADER_BYTES] == staging[..LOADER_BYTES];
    ok := BytesEqual(staging, KERNEL_OFFSET, SPIM_MAGIC);
    if !ok {
      return;
    }
    ok := BytesEqual(staging, ROOTFS_OFFSET, SQUASHFS_MAGIC);
    if !ok {
      return;
    }
    ok := ContainsBytes(staging, LOADER_BYTES, LOADER_MARKER);
  }

  /** An image whose loader region is blank is refused whatever else it holds. */
  lemma BlankLoaderIsRefused(image: seq<byte>)
    requires |image| == FLASH_BYTES && forall k :: 0 <= k < LOADER_BYTES ==> image[k] == 0
    ensures !LayoutOk(image)
  {
    var region := image[..LOADER_BYTES];
    forall at | 0 <= at < |region|
      ensures !StandsAt(region, at, LOADER_MARKER)
    {
      assert region[at] == image[at];
      FirstByte(region, at, LOADER_MARKER);
    }
  }

  lemma FirstByte(haystack: seq<byte>, at: nat, needle: seq<byte>)
    requires needle != []
    ensures StandsAt(haystack, at, needle) ==> haystack[at] == needle[0]
  {
    if StandsAt(haystack, at, needle) {
      assert haystack[at..at + |needle|][0] == haystack[at];
    }
  }
}
