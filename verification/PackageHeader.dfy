// The PMOSREC v3 package header: parse_v3_package_header of payloads/uart-firmware-recovery/recovery.c.
module PackageHeader {
  import opened Bytes
  import opened Crc32

  const HEADER_BYTES: nat := 144

  datatype Header = Header(magic0: u32, magic1: u32, version: u32, flags: bv32, socFamily: u32, imageSize: u32,
                           manifestSize: u32, frameSize: u32, windowSize: u32, representation: u32,
                           imageFrames: u32, manifestFrames: u32, imageWireBytes: u32,
                           manifestCrc: bv32, imageCrc: bv32, imageSha: seq<byte>, manifestSha: seq<byte>,
                           model: seq<byte>, headerCrc: bv32)

  /** parse_v3_package_header. */
  function Parse(raw: seq<byte>): Header
    requires |raw| == HEADER_BYTES
  {
    Header(Le32(raw[0..4]), Le32(raw[4..8]), Le32(raw[8..12]), Pack(raw[12..16]), Le32(raw[16..20]), Le32(raw[20..24]),
           Le32(raw[24..28]), Le32(raw[28..32]), Le32(raw[32..36]), Le32(raw[36..40]),
           Le32(raw[40..44]), Le32(raw[44..48]), Le32(raw[48..52]),
           Pack(raw[52..56]), Pack(raw[56..60]), raw[60..92], raw[92..124], raw[124..139] + [0], Pack(raw[140..144]))
  }

  // ----- the header as the host lays it out

  predicate Complete(h: Header) {
    |h.imageSha| == 32 && |h.manifestSha| == 32 && |h.model| == 16 && h.model[15] == 0
  }

  /** The thirteen words in front of the checksums. */
  function PutWords(h: Header): (r: seq<byte>)
    ensures |r| == 52
  {
    Put32(h.magic0) + Put32(h.magic1) + Put32(h.version) + PutWord(h.flags) + Put32(h.socFamily) + Put32(h.imageSize)
    + Put32(h.manifestSize) + Put32(h.frameSize) + Put32(h.windowSize) + Put32(h.representation)
    + Put32(h.imageFrames) + Put32(h.manifestFrames) + Put32(h.imageWireBytes)
  }

  function Put(h: Header): (r: seq<byte>)
    requires Complete(h)
    ensures |r| == HEADER_BYTES
  {
    PutWords(h) + PutWord(h.manifestCrc) + PutWord(h.imageCrc) + h.imageSha + h.manifestSha + h.model + PutWord(h.headerCrc)
  }

  lemma OuterSlices(words: seq<byte>, m: seq<byte>, i: seq<byte>, x: seq<byte>, y: seq<byte>, model: seq<byte>, c: seq<byte>)
    requires |words| == 52 && |m| == 4 && |i| == 4 && |x| == 32 && |y| == 32 && |model| == 16 && |c| == 4
    ensures var raw := words + m + i + x + y + model + c;
            && raw[0..52] == words && raw[52..56] == m && raw[56..60] == i && raw[60..92] == x && raw[92..124] == y
            && raw[124..139] == model[..15] && raw[140..144] == c
  {}

  lemma WordSlices(a: seq<byte>, b: seq<byte>, c: seq<byte>, d: seq<byte>, e: seq<byte>, f: seq<byte>, g: seq<byte>,
                   h: seq<byte>, i: seq<byte>, j: seq<byte>, k: seq<byte>, l: seq<byte>, m: seq<byte>)
    requires |a| == 4 && |b| == 4 && |c| == 4 && |d| == 4 && |e| == 4 && |f| == 4 && |g| == 4
    requires |h| == 4 && |i| == 4 && |j| == 4 && |k| == 4 && |l| == 4 && |m| == 4
    ensures var w := a + b + c + d + e + f + g + h + i + j + k + l + m;
            && w[0..4] == a && w[4..8] == b && w[8..12] == c && w[12..16] == d && w[16..20] == e && w[20..24] == f
            && w[24..28] == g && w[28..32] == h && w[32..36] == i && w[36..40] == j && w[40..44] == k && w[44..48] == l
            && w[48..52] == m
  {}

  lemma InnerSlices(raw: seq<byte>)
    requires |raw| == HEADER_BYTES
    ensures var w := raw[0..52];
            && raw[0..4] == w[0..4] && raw[4..8] == w[4..8] && raw[8..12] == w[8..12] && raw[12..16] == w[12..16]
            && raw[16..20] == w[16..20] && raw[20..24] == w[20..24] && raw[24..28] == w[24..28] && raw[28..32] == w[28..32]
            && raw[32..36] == w[32..36] && raw[36..40] == w[36..40] && raw[40..44] == w[40..44] && raw[44..48] == w[44..48]
            && raw[48..52] == w[48..52]
  {}

  lemma WordsRead(h: Header, w: seq<byte>)
    requires w == PutWords(h)
    ensures Le32(w[0..4]) == h.magic0 && Le32(w[4..8]) == h.magic1 && Le32(w[8..12]) == h.version && Pack(w[12..16]) == h.flags
    ensures Le32(w[16..20]) == h.socFamily && Le32(w[20..24]) == h.imageSize && Le32(w[24..28]) == h.manifestSize
    ensures Le32(w[28..32]) == h.frameSize && Le32(w[32..36]) == h.windowSize && Le32(w[36..40]) == h.representation
    ensures Le32(w[40..44]) == h.imageFrames && Le32(w[44..48]) == h.manifestFrames && Le32(w[48..52]) == h.imageWireBytes
  {
    hide Put32, PutWord, Pack, Le32;
    WordSlices(Put32(h.magic0), Put32(h.magic1), Put32(h.version), PutWord(h.flags), Put32(h.socFamily), Put32(h.imageSize),
               Put32(h.manifestSize), Put32(h.frameSize), Put32(h.windowSize), Put32(h.representation),
               Put32(h.imageFrames), Put32(h.manifestFrames), Put32(h.imageWireBytes));
    var any := [0, 0, 0, 0];
    WordCodec(h.magic0, any); WordCodec(h.magic1, any); WordCodec(h.version, any); CrcFieldRoundTrip(h.flags);
    WordCodec(h.socFamily, any); WordCodec(h.imageSize, any); WordCodec(h.manifestSize, any); WordCodec(h.frameSize, any);
    WordCodec(h.windowSize, any); WordCodec(h.representation, any); WordCodec(h.imageFrames, any);
    WordCodec(h.manifestFrames, any); WordCodec(h.imageWireBytes, any);
  }

  /** Every field of a header is read back from its place. */
  lemma HeaderRoundTrip(h: Header)
    requires Complete(h)
    ensures Parse(Put(h)) == h
  {
    hide Put32, PutWord, Pack, Le32, PutWords;
    var raw := Put(h);
    OuterSlices(PutWords(h), PutWord(h.manifestCrc), PutWord(h.imageCrc), h.imageSha, h.manifestSha, h.model, PutWord(h.headerCrc));
    InnerSlices(raw);
    WordsRead(h, PutWords(h));
    CrcFieldRoundTrip(h.manifestCrc); CrcFieldRoundTrip(h.imageCrc); CrcFieldRoundTrip(h.headerCrc);
    assert h.model == h.model[..15] + [0];
  }
}
