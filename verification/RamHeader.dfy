// The PMOSRAM v2 transfer header: built by tools/uart_ramload_send.py, checked by src/uart_ramloader.c.
module RamHeader {
  import opened Bytes
  import opened Options
  import opened Crc32
  import Sha256

  const MAGIC0: u32 := 0x534f4d50
  const MAGIC1: u32 := 0x324d4152
  const RAM_START: u32 := 0x81000000
  const RAM_END: u32 := 0x87f00000
  const MAX_SIZE: u32 := 0x00400000
  const MAX_CHUNK: u32 := 4096
  const HEADER_BYTES: nat := 72

  datatype Header = Header(magic0: u32, magic1: u32, version: u32, flags: u32, load: u32, entry: u32,
                           total: u32, chunk: u32, imageCrc: bv32, imageSha: seq<byte>, headerCrc: bv32)

  /** parse_header. */
  function Parse(raw: seq<byte>): Header
    requires |raw| == HEADER_BYTES
  {
    Header(Le32(raw[0..4]), Le32(raw[4..8]), Le32(raw[8..12]), Le32(raw[12..16]), Le32(raw[16..20]), Le32(raw[20..24]),
           Le32(raw[24..28]), Le32(raw[28..32]), Pack(raw[32..36]), raw[36..68], Pack(raw[68..72]))
  }

  /** validate_header, with the end address computed in 32 bits. */
  predicate Validate(h: Header, raw: seq<byte>)
    requires |raw| == HEADER_BYTES
  {
    var end := Wrap(h.load + h.total);
    && h.magic0 == MAGIC0
    && h.magic1 == MAGIC1
    && h.version == 2
    && h.flags == 0
    && h.headerCrc == Crc(raw[..68])
    && !(h.load < RAM_START)
    && h.total != 0
    && !(h.total > MAX_SIZE)
    && !(end < h.load)
    && !(end > RAM_END)
    && h.load % 4 == 0
    && h.entry % 4 == 0
    && !(h.entry < h.load || h.entry >= end)
    && !(h.chunk < 64 || h.chunk > MAX_CHUNK)
  }

  /** A placement over the unbounded integers: inside the DRAM window, aligned, with the entry inside the image. */
  predicate Fits(load: int, entry: int, total: int, chunk: int) {
    && RAM_START <= load && load + total <= RAM_END
    && 1 <= total <= MAX_SIZE
    && load % 4 == 0 && entry % 4 == 0
    && load <= entry < load + total
    && 64 <= chunk <= MAX_CHUNK
  }

  /** The wrapping checks accept exactly the headers whose geometry is right over the unbounded integers. */
  lemma ValidateIsUnbounded(h: Header, raw: seq<byte>)
    requires |raw| == HEADER_BYTES
    ensures Validate(h, raw)
       <==> (&& h.magic0 == MAGIC0 && h.magic1 == MAGIC1 && h.version == 2 && h.flags == 0
             && h.headerCrc == Crc(raw[..68])
             && Fits(h.load, h.entry, h.total, h.chunk))
  {
    hide Crc;
  }

  /** Everything in front of the header's own CRC. */
  function Front(payload: seq<byte>, load: u32, entry: u32, total: u32, chunk: u32): (r: seq<byte>)
    ensures |r| == 68
  {
    Put32(MAGIC0) + Put32(MAGIC1) + Put32(2) + Put32(0) + Put32(load) + Put32(entry) + Put32(total) + Put32(chunk)
    + PutWord(Crc(payload)) + Sha256.Sum(payload)
  }

  /** make_header; None where it raises ProtocolError. */
  function Make(payload: seq<byte>, load: int, entry: int, chunk: int): (r: Option<seq<byte>>)
    ensures r.Some? ==> |r.value| == HEADER_BYTES
  {
    if payload == [] || |payload| > 4 * 1024 * 1024 then None
    else if !(0x81000000 <= load && load + |payload| <= 0x87F00000) then None
    else if load % 4 != 0 || entry % 4 != 0 || !(load <= entry < load + |payload|) then None
    else if !(64 <= chunk <= 4096) then None
    else
      var front := Front(payload, load, entry, |payload|, chunk);
      Some(front + PutWord(Crc(front)))
  }

  lemma Slices(a: seq<byte>, b: seq<byte>, c: seq<byte>, d: seq<byte>, e: seq<byte>, f: seq<byte>, g: seq<byte>, h: seq<byte>,
               crc: seq<byte>, sha: seq<byte>, tail: seq<byte>)
    requires |a| == 4 && |b| == 4 && |c| == 4 && |d| == 4 && |e| == 4 && |f| == 4 && |g| == 4 && |h| == 4
    requires |crc| == 4 && |sha| == 32 && |tail| == 4
    ensures var raw := a + b + c + d + e + f + g + h + crc + sha + tail;
            && raw[0..4] == a && raw[4..8] == b && raw[8..12] == c && raw[12..16] == d
            && raw[16..20] == e && raw[20..24] == f && raw[24..28] == g && raw[28..32] == h
            && raw[32..36] == crc && raw[36..68] == sha && raw[68..72] == tail
  {}

  /** The fields of a packed header, found at their offsets. */
  lemma FrontFields(payload: seq<byte>, load: u32, entry: u32, total: u32, chunk: u32, tail: seq<byte>)
    requires |tail| == 4
    ensures Parse(Front(payload, load, entry, total, chunk) + tail)
         == Header(MAGIC0, MAGIC1, 2, 0, load, entry, total, chunk, Crc(payload), Sha256.Sum(payload), Pack(tail))
  {
    hide Crc, Sha256.Sum, Put32, PutWord, Pack, Le32;
    Slices(Put32(MAGIC0), Put32(MAGIC1), Put32(2), Put32(0), Put32(load), Put32(entry), Put32(total), Put32(chunk),
           PutWord(Crc(payload)), Sha256.Sum(payload), tail);
    WordCodec(MAGIC0, tail); WordCodec(MAGIC1, tail); WordCodec(2, tail); WordCodec(0, tail);
    WordCodec(load, tail); WordCodec(entry, tail); WordCodec(total, tail); WordCodec(chunk, tail);
    CrcFieldRoundTrip(Crc(payload));
  }

  /** The host builds a header exactly when the placement fits; the target reads every field back and accepts it. */
  lemma MadeHeaderIsAccepted(payload: seq<byte>, load: int, entry: int, chunk: int)
    ensures Make(payload, load, entry, chunk).Some? <==> Fits(load, entry, |payload|, chunk)
    ensures Make(payload, load, entry, chunk).Some? ==>
              var raw := Make(payload, load, entry, chunk).value;
              && Parse(raw) == Header(MAGIC0, MAGIC1, 2, 0, load, entry, |payload|, chunk,
                                      Crc(payload), Sha256.Sum(payload), Crc(raw[..68]))
              && Validate(Parse(raw), raw)
  {
    hide Crc, Sha256.Sum, Parse, PutWord, Pack;
    if Make(payload, load, entry, chunk).Some? {
      var front := Front(payload, load, entry, |payload|, chunk);
      var raw := Make(payload, load, entry, chunk).value;
      hide Front;
      assert raw[..68] == front;
      CrcFieldRoundTrip(Crc(front));
      FrontFields(payload, load, entry, |payload|, chunk, PutWord(Crc(front)));
    }
  }

  /** Only the host's own header for a payload carries that payload's CRC and digest past the target's checks. */
  lemma AcceptedHeaderIsMade(h: Header, raw: seq<byte>, payload: seq<byte>)
    requires |raw| == HEADER_BYTES && h == Parse(raw) && Validate(h, raw)
    requires h.total == |payload| && h.imageCrc == Crc(payload) && h.imageSha == Sha256.Sum(payload)
    ensures Make(payload, h.load, h.entry, h.chunk) == Some(raw)
  {
    hide Crc, Sha256.Sum, Put32, PutWord, Pack, Le32;
    WordCodec(h.load, raw[0..4]); WordCodec(h.load, raw[4..8]); WordCodec(h.load, raw[8..12]); WordCodec(h.load, raw[12..16]);
    WordCodec(h.load, raw[16..20]); WordCodec(h.load, raw[20..24]); WordCodec(h.load, raw[24..28]); WordCodec(h.load, raw[28..32]);
    CrcFieldRoundTrip(Crc(payload));
    CrcFieldRoundTrip(Crc(raw[..68]));
    PackInjective(PutWord(Crc(payload)), raw[32..36]);
    PackInjective(PutWord(Crc(raw[..68])), raw[68..72]);
    var front := Front(payload, h.load, h.entry, h.total, h.chunk);
    assert raw == raw[0..4] + raw[4..8] + raw[8..12] + raw[12..16] + raw[16..20] + raw[20..24] + raw[24..28] + raw[28..32]
               + raw[32..36] + raw[36..68] + raw[68..72];
    assert front == raw[..68];
  }

  // ----- the header, byte for byte

  /** What an accepted header's bytes say: sealed by its CRC; "PMOSRAM2", version 2 and no flags; a placement that fits. */
  predicate Admitted(raw: seq<byte>)
    requires |raw| == HEADER_BYTES
  {
    hide Crc, Le32;
    && Sealed(raw)
    && Le32(raw[0..4]) == 0x534f4d50 && Le32(raw[4..8]) == 0x324d4152 && Le32(raw[8..12]) == 2 && Le32(raw[12..16]) == 0
    && Fits(Le32(raw[16..20]), Le32(raw[20..24]), Le32(raw[24..28]), Le32(raw[28..32]))
  }

  lemma HeaderExactly(raw: seq<byte>)
    requires |raw| == HEADER_BYTES
    ensures Validate(Parse(raw), raw) <==> Admitted(raw)
  {
    hide Crc, Le32, Pack, Fits;
    assert raw[|raw| - 4..] == raw[68..72];
    ValidateIsUnbounded(Parse(raw), raw);
    hide Validate;
  }

  /** Damage within any four consecutive bytes of an accepted header, its CRC included, is refused. */
  lemma HeaderBurstIsRefused(raw: seq<byte>, damaged: seq<byte>, at: nat)
    requires |raw| == |damaged| == HEADER_BYTES && raw != damaged && Validate(Parse(raw), raw)
    requires forall k :: 0 <= k < HEADER_BYTES && !(at <= k < at + 4) ==> raw[k] == damaged[k]
    ensures !Validate(Parse(damaged), damaged)
  {
    hide Validate, Parse, Sealed, Crc;
    HeaderExactly(raw);
    HeaderExactly(damaged);
    SealBroken(raw, damaged, at);
  }
}
