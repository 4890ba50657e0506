// One PMOSREC v3 frame: its header, what makes it acceptable, and the slot map. (payloads/uart-firmware-recovery/recovery.c)
module FrameV3 {
  import opened Arithmetic
  import opened Bytes
  import opened Options
  import opened Crc32
  import opened Uart
  import Lz4

  const FRAME_MAGIC: u32 := 0x33464b50
  const HEADER_BYTES: nat := 40
  const MAX_WIRE: nat := 8192
  const MAX_FRAME: nat := 4096
  const FULL_IMAGE_SIZE: nat := 0x01000000

  datatype Header = Header(magic: u32, objectId: u32, sequence: u32, offset: u32, decodedLength: u32, wireLength: u32,
                           flags: u32, wireCrc: bv32, decodedCrc: bv32, headerCrc: bv32)

  /** parse_v3_frame_header. */
  function Parse(raw: seq<byte>): Header
    requires |raw| == HEADER_BYTES
  {
    Header(Le32(raw[0..4]), Le32(raw[4..8]), Le32(raw[8..12]), Le32(raw[12..16]), Le32(raw[16..20]), Le32(raw[20..24]),
           Le32(raw[24..28]), Pack(raw[28..32]), Pack(raw[32..36]), Pack(raw[36..40]))
  }

  /** The object being received: its number, the size of a frame and the size of the destination. */
  datatype Object = Object(id: u32, frameSize: nat, size: nat)

  predicate Sane(o: Object) {
    1024 <= o.frameSize <= MAX_FRAME && o.size <= FULL_IMAGE_SIZE
  }

  predicate HeaderGood(raw: seq<byte>, o: Object, sequence: nat)
    requires |raw| == HEADER_BYTES
  {
    var h := Parse(raw);
    h.headerCrc == Crc(raw[..36]) && h.magic == FRAME_MAGIC && h.objectId == o.id && h.sequence == sequence
  }

  /** The length and offset limits; the only flag is the lowest bit. */
  predicate GeometryGood(h: Header, o: Object) {
    && 0 < h.wireLength <= MAX_WIRE
    && 0 < h.decodedLength <= o.frameSize
    && h.offset <= o.size
    && h.decodedLength <= o.size - h.offset
    && h.flags <= 1
  }

  /** The decoded bytes, when both CRCs and the decoder agree with the header. */
  function Payload(h: Header, wire: seq<byte>, frameSize: nat): (r: Option<seq<byte>>)
    ensures r.Some? ==> |r.value| == h.decodedLength
  {
    if Crc(wire) != h.wireCrc then None
    else if h.flags == 1 then
      match Lz4.Decode(wire, [], frameSize)
      case None => None
      case Some(decoded) => if |decoded| == h.decodedLength && Crc(decoded) == h.decodedCrc then Some(decoded) else None
    else if |wire| == h.decodedLength && Crc(wire) == h.decodedCrc then Some(wire)
    else None
  }

  /** What one frame's worth of reading finds, and the line behind it. */
  datatype Reading =
    | Delivered(offset: nat, payload: seq<byte>, rest: seq<Arrival>)
    | BadPayload(rest: seq<Arrival>)
    | BadHeader(rest: seq<Arrival>)

  function ReadFrame(line: seq<Arrival>, o: Object, sequence: nat): Reading {
    var head := Take(line, HEADER_BYTES);
    if !head.ok then BadHeader(head.rest)
    else if !HeaderGood(head.data, o, sequence) || !GeometryGood(Parse(head.data), o) then BadHeader(head.rest)
    else
      var h := Parse(head.data);
      var body := Take(head.rest, h.wireLength);
      if !body.ok then BadHeader(body.rest)
      else match Payload(h, body.data, o.frameSize)
        case None => BadPayload(body.rest)
        case Some(payload) => Delivered(h.offset, payload, body.rest)
  }

  lemma DeliveredFits(line: seq<Arrival>, o: Object, sequence: nat)
    ensures var r := ReadFrame(line, o, sequence);
            r.Delivered? ==> 0 < |r.payload| <= o.frameSize && r.offset + |r.payload| <= o.size
  {
    hide Crc, Payload, Take, HeaderGood;
  }

  /** A frame with a good header is consumed whole, header and wire bytes and nothing else, whatever its wire bytes are. */
  lemma ReadsWholeFrame(raw: seq<byte>, wire: seq<byte>, rest: seq<Arrival>, o: Object, sequence: nat)
    requires |raw| == HEADER_BYTES && HeaderGood(raw, o, sequence) && GeometryGood(Parse(raw), o)
    requires |wire| == Parse(raw).wireLength
    ensures var r := ReadFrame(OnLine(raw) + (OnLine(wire) + rest), o, sequence);
            && r.rest == rest
            && r == match Payload(Parse(raw), wire, o.frameSize)
                    case None => BadPayload(rest)
                    case Some(payload) => Delivered(Parse(raw).offset, payload, rest)
  {
    hide Crc, Parse, Payload;
    TakeBytes(raw, OnLine(wire) + rest);
    TakeBytes(wire, rest);
  }

  // ----- the sending end's view: a frame put on the line is the frame delivered

  /** The fields in front of the header's own CRC. */
  function Front(h: Header): (r: seq<byte>)
    ensures |r| == 36
  {
    Put32(h.magic) + Put32(h.objectId) + Put32(h.sequence) + Put32(h.offset) + Put32(h.decodedLength) + Put32(h.wireLength)
    + Put32(h.flags) + PutWord(h.wireCrc) + PutWord(h.decodedCrc)
  }

  lemma Slices(a: seq<byte>, b: seq<byte>, c: seq<byte>, d: seq<byte>, e: seq<byte>, f: seq<byte>, g: seq<byte>,
               x: seq<byte>, y: seq<byte>, z: seq<byte>)
    requires |a| == 4 && |b| == 4 && |c| == 4 && |d| == 4 && |e| == 4 && |f| == 4 && |g| == 4
    requires |x| == 4 && |y| == 4 && |z| == 4
    ensures var raw := a + b + c + d + e + f + g + x + y + z;
            && raw[0..4] == a && raw[4..8] == b && raw[8..12] == c && raw[12..16] == d && raw[16..20] == e
            && raw[20..24] == f && raw[24..28] == g && raw[28..32] == x && raw[32..36] == y && raw[36..40] == z
  {}

  lemma Pieces(raw: seq<byte>)
    requires |raw| == HEADER_BYTES
    ensures raw == raw[0..4] + raw[4..8] + raw[8..12] + raw[12..16] + raw[16..20] + raw[20..24] + raw[24..28] + raw[28..32]
                   + raw[32..36] + raw[36..40]
  {}

  /** The header codec is a bijection between headers and 40 bytes. */
  lemma HeaderCodec(h: Header, raw: seq<byte>)
    requires |raw| == HEADER_BYTES
    ensures Parse(Front(h) + PutWord(h.headerCrc)) == h
    ensures Front(Parse(raw)) + PutWord(Parse(raw).headerCrc) == raw
  {
    FieldsParse(h);
    FieldsPut(raw);
  }

  lemma FieldsParse(h: Header)
    ensures Parse(Front(h) + PutWord(h.headerCrc)) == h
  {
    hide Put32, PutWord, Pack, Le32;
    Slices(Put32(h.magic), Put32(h.objectId), Put32(h.sequence), Put32(h.offset), Put32(h.decodedLength), Put32(h.wireLength),
           Put32(h.flags), PutWord(h.wireCrc), PutWord(h.decodedCrc), PutWord(h.headerCrc));
    var any := [0, 0, 0, 0];
    WordCodec(h.magic, any); WordCodec(h.objectId, any); WordCodec(h.sequence, any); WordCodec(h.offset, any);
    WordCodec(h.decodedLength, any); WordCodec(h.wireLength, any); WordCodec(h.flags, any);
    CrcFieldRoundTrip(h.wireCrc); CrcFieldRoundTrip(h.decodedCrc); CrcFieldRoundTrip(h.headerCrc);
  }

  lemma FieldsPut(raw: seq<byte>)
    requires |raw| == HEADER_BYTES
    ensures Front(Parse(raw)) + PutWord(Parse(raw).headerCrc) == raw
  {
    hide Put32, PutWord, Pack, Le32;
    WordCodec(0, raw[0..4]); WordCodec(0, raw[4..8]); WordCodec(0, raw[8..12]); WordCodec(0, raw[12..16]);
    WordCodec(0, raw[16..20]); WordCodec(0, raw[20..24]); WordCodec(0, raw[24..28]);
    CrcCodec(0, raw[28..32]); CrcCodec(0, raw[32..36]); CrcCodec(0, raw[36..40]);
    Pieces(raw);
  }

  lemma CrcCodec(c: bv32, d: seq<byte>)
    requires |d| == 4
    ensures Pack(PutWord(c)) == c && PutWord(Pack(d)) == d
  {
    hide PutWord, Pack;
    CrcFieldRoundTrip(c);
    CrcFieldRoundTrip(Pack(d));
    PackInjective(PutWord(Pack(d)), d);
  }

  /** A decoded frame with the form it travels in: as it is, or as a compressed block. */
  datatype Parcel = Parcel(offset: u32, payload: seq<byte>, block: Option<Lz4.Block>)

  predicate Carries(p: Parcel, o: Object) {
    && 0 < |p.payload| <= o.frameSize && p.offset + |p.payload| <= o.size
    && (p.block.Some? ==> Lz4.Encodable(p.block.value) && Lz4.Grounded(p.block.value, 0) && Lz4.Expand(p.block.value, []) == p.payload)
    && 0 < |Wire(p)| <= MAX_WIRE
  }

  function Wire(p: Parcel): seq<byte> {
    if p.block.Some? && Lz4.Encodable(p.block.value) then Lz4.Encode(p.block.value) else p.payload
  }

  function HeaderFor(p: Parcel, o: Object, sequence: u32): Header
    requires Carries(p, o) && Sane(o)
  {
    var h := Header(FRAME_MAGIC, o.id, sequence, p.offset, |p.payload|, |Wire(p)|, if p.block.Some? then 1 else 0,
                    Crc(Wire(p)), Crc(p.payload), 0);
    h.(headerCrc := Crc(Front(h)))
  }

  /** The header bytes in front of a parcel. */
  function Raw(p: Parcel, o: Object, sequence: u32): (r: seq<byte>)
    requires Carries(p, o) && Sane(o)
    ensures |r| == HEADER_BYTES
  {
    var h := HeaderFor(p, o, sequence);
    Front(h) + PutWord(h.headerCrc)
  }

  lemma PayloadRecovered(p: Parcel, o: Object, sequence: u32)
    requires Carries(p, o) && Sane(o)
    ensures Payload(HeaderFor(p, o, sequence), Wire(p), o.frameSize) == Some(p.payload)
  {
    hide Crc, Lz4.Decode, Lz4.Encode, Lz4.Expand, Front;
    if p.block.Some? {
      Lz4.DecodeEncode(p.block.value, [], o.frameSize);
    }
  }

  lemma HeaderIsGood(p: Parcel, o: Object, sequence: u32)
    requires Carries(p, o) && Sane(o)
    ensures var raw := Raw(p, o, sequence);
            Parse(raw) == HeaderFor(p, o, sequence) && HeaderGood(raw, o, sequence) && GeometryGood(Parse(raw), o)
  {
    hide Crc, Parse, Payload, Front, PutWord, Wire;
    var h := HeaderFor(p, o, sequence);
    var raw := Raw(p, o, sequence);
    HeaderCodec(h, raw);
    assert raw[..36] == Front(h);
    FrontIgnoresCrc(h);
  }

  /** Round trip of a whole frame, compressed or not: what is put on the line is what the receiver delivers. */
  lemma SentFrameIsDelivered(p: Parcel, o: Object, sequence: u32, rest: seq<Arrival>)
    requires Carries(p, o) && Sane(o)
    ensures ReadFrame(OnLine(Raw(p, o, sequence)) + (OnLine(Wire(p)) + rest), o, sequence) == Delivered(p.offset, p.payload, rest)
  {
    hide Crc, Parse, Payload, Front, PutWord, Wire, ReadFrame, Raw;
    HeaderIsGood(p, o, sequence);
    PayloadRecovered(p, o, sequence);
    ReadsWholeFrame(Raw(p, o, sequence), Wire(p), rest, o, sequence);
  }

  /** With other wire bytes of the same length, refused by the checks, the frame is a retryable loss and nothing more. */
  lemma DamagedFrameIsRetryable(p: Parcel, o: Object, sequence: u32, wire: seq<byte>, rest: seq<Arrival>)
    requires Carries(p, o) && Sane(o)
    requires |wire| == |Wire(p)| && Payload(HeaderFor(p, o, sequence), wire, o.frameSize) == None
    ensures ReadFrame(OnLine(Raw(p, o, sequence)) + (OnLine(wire) + rest), o, sequence) == BadPayload(rest)
  {
    hide Crc, Parse, Payload, Front, PutWord, Wire, ReadFrame, Raw;
    HeaderIsGood(p, o, sequence);
    ReadsWholeFrame(Raw(p, o, sequence), wire, rest, o, sequence);
  }

  lemma FrontIgnoresCrc(h: Header)
    ensures Front(h) == Front(h.(headerCrc := 0))
  {}

  /** The header passes its checks. */
  predicate HeaderUsable(raw: seq<byte>, o: Object, sequence: nat)
    requires |raw| == HEADER_BYTES
  {
    HeaderGood(raw, o, sequence) && GeometryGood(Parse(raw), o)
  }

  /** A frame whose header is refused is dropped up to the next pause when the boundary is recovered. */
  lemma GarbledIsDrained(bytes: seq<byte>, rest: seq<Arrival>, o: Object, sequence: nat)
    requires |bytes| >= HEADER_BYTES && !HeaderUsable(bytes[..HEADER_BYTES], o, sequence)
    ensures var r := ReadFrame(OnLine(bytes) + ([Pause] + rest), o, sequence); r.BadHeader? && Drain(r.rest) == rest
  {
    hide Crc, Payload, Take, Parse, HeaderGood, GeometryGood, Drain;
    var head, tail := bytes[..HEADER_BYTES], bytes[HEADER_BYTES..];
    assert bytes == head + tail;
    OnLineJoin(head, tail);
    assert OnLine(bytes) + ([Pause] + rest) == OnLine(head) + (OnLine(tail) + ([Pause] + rest));
    TakeBytes(head, OnLine(tail) + ([Pause] + rest));
    DrainBytes(tail, rest);
  }

  /** The bytes end inside the header, or behind a good header inside the wire bytes it announces. */
  predicate StopsShort(bytes: seq<byte>, o: Object, sequence: nat) {
    |bytes| < HEADER_BYTES
    || (HeaderUsable(bytes[..HEADER_BYTES], o, sequence) && |bytes| < HEADER_BYTES + Parse(bytes[..HEADER_BYTES]).wireLength)
  }

  /** A frame that stops short runs into the time limit, and the boundary is recovered at the next pause. */
  lemma CutIsDrained(bytes: seq<byte>, rest: seq<Arrival>, o: Object, sequence: nat)
    requires StopsShort(bytes, o, sequence)
    ensures var r := ReadFrame(OnLine(bytes) + ([Deadline] + ([Pause] + rest)), o, sequence); r.BadHeader? && Drain(r.rest) == rest
  {
    hide Crc, Payload, Take, Parse, HeaderGood, GeometryGood, Drain;
    var behind := [Pause] + rest;
    DrainBytes([], rest);
    assert OnLine([]) + behind == behind;
    if |bytes| < HEADER_BYTES {
      TakeShort(bytes, HEADER_BYTES, behind);
    } else {
      var head, part := bytes[..HEADER_BYTES], bytes[HEADER_BYTES..];
      assert bytes == head + part;
      OnLineJoin(head, part);
      assert OnLine(bytes) + ([Deadline] + behind) == OnLine(head) + (OnLine(part) + ([Deadline] + behind));
      TakeBytes(head, OnLine(part) + ([Deadline] + behind));
      TakeShort(part, Parse(head).wireLength, behind);
    }
  }

  lemma ReadFrameBehind(line: seq<Arrival>, o: Object, sequence: nat)
    ensures Behind(ReadFrame(line, o, sequence).rest, line)
  {
    hide Crc, Payload, Take, Parse, Behind, HeaderGood, GeometryGood;
    var head := Take(line, HEADER_BYTES);
    TakeBehind(line, HEADER_BYTES);
    if head.ok && HeaderGood(head.data, o, sequence) && GeometryGood(Parse(head.data), o) {
      TakeBehind(head.rest, Parse(head.data).wireLength);
      BehindMore(Take(head.rest, Parse(head.data).wireLength).rest, head.rest, line);
    }
  }

  /** A result that leaves the line untouched afterwards, delivered or not, has consumed one whole frame:
      forty header bytes and as many wire bytes as that header, whose CRC is right, announces. */
  lemma ConsumesOneFrame(line: seq<Arrival>, o: Object, sequence: nat)
    requires !ReadFrame(line, o, sequence).BadHeader?
    ensures var raw := Take(line, HEADER_BYTES).data;
            && |raw| == HEADER_BYTES && HeaderGood(raw, o, sequence)
            && BytesOn(line) == HEADER_BYTES + Parse(raw).wireLength + BytesOn(ReadFrame(line, o, sequence).rest)
  {
    hide Crc, Payload, Take, Parse;
    TakeCounts(line, HEADER_BYTES);
    var head := Take(line, HEADER_BYTES);
    TakeCounts(head.rest, Parse(head.data).wireLength);
  }

  // ----- what a reading means, byte for byte

  /** The frame's header is acceptable: CRC, magic, object, sequence, lengths, place and flags, each read off its bytes. */
  predicate Acceptable(raw: seq<byte>, o: Object, sequence: nat)
    requires |raw| == HEADER_BYTES
  {
    hide Crc, Le32;
    && Sealed(raw)
    && Le32(raw[0..4]) == 0x33464b50
    && Le32(raw[4..8]) == o.id
    && Le32(raw[8..12]) == sequence
    && Le32(raw[12..16]) + Le32(raw[16..20]) <= o.size
    && 1 <= Le32(raw[16..20]) <= o.frameSize
    && 1 <= Le32(raw[20..24]) <= 8192
    && (Le32(raw[24..28]) == 0 || Le32(raw[24..28]) == 1)
  }

  lemma UsableMeans(raw: seq<byte>, o: Object, sequence: nat)
    requires |raw| == HEADER_BYTES
    ensures HeaderUsable(raw, o, sequence) <==> Acceptable(raw, o, sequence)
  {
    hide Crc, Le32, Pack;
    assert raw[|raw| - 4..] == raw[36..40];
  }

  /** The header bytes at the front of a line, and the wire bytes behind them. */
  function HeadOn(line: seq<Arrival>): Read {
    Take(line, HEADER_BYTES)
  }

  function WireOn(line: seq<Arrival>): Read
    requires HeadOn(line).ok
  {
    hide Take, Le32;
    Take(HeadOn(line).rest, Le32(HeadOn(line).data[20..24]))
  }

  /** A reading gets past the header exactly when forty bytes arrive, they are acceptable, and as many wire bytes as they
      announce arrive behind them. */
  lemma HeaderExactly(line: seq<Arrival>, o: Object, sequence: nat)
    ensures !ReadFrame(line, o, sequence).BadHeader?
       <==> HeadOn(line).ok && Acceptable(HeadOn(line).data, o, sequence) && WireOn(line).ok
  {
    hide Crc, Le32, Payload, Take, HeaderGood, GeometryGood, Acceptable;
    if HeadOn(line).ok {
      UsableMeans(HeadOn(line).data, o, sequence);
      FieldsOf(HeadOn(line).data);
    }
  }

  lemma FieldsOf(raw: seq<byte>)
    requires |raw| == HEADER_BYTES
    ensures var h := Parse(raw);
            && h.offset == Le32(raw[12..16]) && h.decodedLength == Le32(raw[16..20]) && h.wireLength == Le32(raw[20..24])
            && h.flags == Le32(raw[24..28]) && h.wireCrc == Pack(raw[28..32]) && h.decodedCrc == Pack(raw[32..36])
  {
    hide Le32, Pack;
  }

  /** What wire bytes stand for under a header's flags. */
  function Unpacked(raw: seq<byte>, wire: seq<byte>, frameSize: nat): Option<seq<byte>>
    requires |raw| == HEADER_BYTES
  {
    hide Le32, Lz4.Decode;
    if Le32(raw[24..28]) == 1 then Lz4.Decode(wire, [], frameSize) else Some(wire)
  }

  /** Both CRCs behind the header are right, for the wire bytes and for what they stand for, and the length is the announced one. */
  predicate Intact(raw: seq<byte>, wire: seq<byte>, frameSize: nat)
    requires |raw| == HEADER_BYTES
  {
    hide Crc, Le32, Pack, Unpacked;
    var decoded := Unpacked(raw, wire, frameSize);
    && Crc(wire) == Pack(raw[28..32])
    && decoded.Some? && |decoded.value| == Le32(raw[16..20]) && Crc(decoded.value) == Pack(raw[32..36])
  }

  lemma PayloadExactly(raw: seq<byte>, wire: seq<byte>, frameSize: nat)
    requires |raw| == HEADER_BYTES && (Le32(raw[24..28]) == 0 || Le32(raw[24..28]) == 1)
    ensures var r := Payload(Parse(raw), wire, frameSize);
            && (r.Some? <==> Intact(raw, wire, frameSize))
            && (r.Some? ==> r == Unpacked(raw, wire, frameSize))
  {
    FieldsOf(raw);
    hide Crc, Le32, Pack, Lz4.Decode, Parse;
  }

  /** And it delivers exactly the intact ones: what is delivered is what the wire bytes stand for, at the announced place. */
  lemma DeliveredExactly(line: seq<Arrival>, o: Object, sequence: nat)
    requires !ReadFrame(line, o, sequence).BadHeader?
    ensures HeadOn(line).ok && WireOn(line).ok
    ensures var raw, wire, r := HeadOn(line).data, WireOn(line).data, ReadFrame(line, o, sequence);
            && (r.Delivered? <==> Intact(raw, wire, o.frameSize))
            && (r.Delivered? ==> Unpacked(raw, wire, o.frameSize) == Some(r.payload) && r.offset == Le32(raw[12..16]))
            && r.rest == WireOn(line).rest
  {
    hide Crc, Le32, Pack, Take, HeaderGood, GeometryGood, Payload, Intact, Unpacked, Parse;
    HeaderExactly(line, o, sequence);
    FieldsOf(HeadOn(line).data);
    PayloadExactly(HeadOn(line).data, WireOn(line).data, o.frameSize);
  }

  /** The sender's header is acceptable, and its seal is its own. */
  lemma RawIsSealed(p: Parcel, o: Object, sequence: u32)
    requires Carries(p, o) && Sane(o)
    ensures Acceptable(Raw(p, o, sequence), o, sequence)
  {
    hide Crc, Acceptable, Raw, HeaderGood, GeometryGood, Parse;
    HeaderIsGood(p, o, sequence);
    UsableMeans(Raw(p, o, sequence), o, sequence);
  }

  /** A header damaged within any four consecutive of its forty bytes, its CRC included, is refused, whatever follows. */
  lemma HeaderBurstIsRefused(p: Parcel, o: Object, sequence: u32, damaged: seq<byte>, at: nat, rest: seq<Arrival>)
    requires Carries(p, o) && Sane(o)
    requires |damaged| == HEADER_BYTES && damaged != Raw(p, o, sequence)
    requires forall k :: 0 <= k < HEADER_BYTES && !(at <= k < at + 4) ==> damaged[k] == Raw(p, o, sequence)[k]
    ensures ReadFrame(OnLine(damaged) + rest, o, sequence).BadHeader?
  {
    hide Crc, Raw, ReadFrame, Take, Sealed, Carries;
    RawIsSealed(p, o, sequence);
    SealBroken(Raw(p, o, sequence), damaged, at);
    TakeBytes(damaged, rest);
    HeaderExactly(OnLine(damaged) + rest, o, sequence);
  }

  /** A whole frame of another sequence number or of another object is refused. */
  lemma OtherFrameIsRefused(p: Parcel, from: Object, sent: u32, o: Object, sequence: nat, rest: seq<Arrival>)
    requires Carries(p, from) && Sane(from) && (sent != sequence || from.id != o.id)
    ensures ReadFrame(OnLine(Raw(p, from, sent)) + (OnLine(Wire(p)) + rest), o, sequence).BadHeader?
  {
    hide Crc, Raw, ReadFrame, Take, Sealed, Carries, Le32, Wire;
    RawIsSealed(p, from, sent);
    var raw := Raw(p, from, sent);
    TakeBytes(raw, OnLine(Wire(p)) + rest);
    HeaderExactly(OnLine(raw) + (OnLine(Wire(p)) + rest), o, sequence);
  }

  // ----- the slot map: one bit for each possible frame of the object

  function BitAt(d: Bits, k: nat): bool
    requires k < 8
  {
    if k == 0 then d.b0 else if k == 1 then d.b1 else if k == 2 then d.b2 else if k == 3 then d.b3
    else if k == 4 then d.b4 else if k == 5 then d.b5 else if k == 6 then d.b6 else d.b7
  }

  function WithBit(d: Bits, k: nat): (r: Bits)
    requires k < 8
    ensures forall j: nat :: j < 8 ==> (BitAt(r, j) <==> j == k || BitAt(d, j))
  {
    if k == 0 then d.(b0 := true) else if k == 1 then d.(b1 := true) else if k == 2 then d.(b2 := true)
    else if k == 3 then d.(b3 := true) else if k == 4 then d.(b4 := true) else if k == 5 then d.(b5 := true)
    else if k == 6 then d.(b6 := true) else d.(b7 := true)
  }

  /** b & (1 << k). */
  predicate TestBit(b: byte, k: nat)
    requires k < 8
  {
    BitAt(ToBits(b), k)
  }

  /** b | (1 << k). */
  function SetBit(b: byte, k: nat): byte
    requires k < 8
  {
    FromBits(WithBit(ToBits(b), k))
  }

  lemma SetThenTest(b: byte, k: nat, j: nat)
    requires k < 8 && j < 8
    ensures TestBit(SetBit(b, k), j) <==> j == k || TestBit(b, j)
  {
    hide ToBits, FromBits, BitAt, WithBit;
    BitsOfByte(WithBit(ToBits(b), k));
  }

  const SLOTS: nat := 16384
  const MAP_BYTES: nat := 2048

  predicate Marked(slots: seq<byte>, slot: nat)
    requires |slots| == MAP_BYTES && slot < SLOTS
  {
    TestBit(slots[slot / 8], slot % 8)
  }

  /** When frame_slot_mark succeeds. */
  predicate Markable(slots: seq<byte>, offset: nat, frameSize: nat, retry: bool)
    requires |slots| == MAP_BYTES
  {
    frameSize >= 1024 && offset % frameSize == 0 && offset / frameSize < SLOTS && (retry || !Marked(slots, offset / frameSize))
  }

  method FrameSlotMark(slotMap: array<byte>, offset: nat, frameSize: nat, retry: bool) returns (ok: bool)
    requires slotMap.Length == MAP_BYTES
    modifies slotMap
    ensures ok <==> Markable(old(slotMap[..]), offset, frameSize, retry)
    ensures retry ==> (ok <==> frameSize >= 1024 && offset % frameSize == 0 && offset / frameSize < SLOTS)
    ensures !ok ==> slotMap[..] == old(slotMap[..])
    ensures ok ==> forall s :: 0 <= s < SLOTS ==> (Marked(slotMap[..], s) <==> s == offset / frameSize || Marked(old(slotMap[..]), s))
  {
    hide TestBit, SetBit;
    if frameSize < 1024 || offset % frameSize != 0 {
      return false;
    }
    var slot := offset / frameSize;
    if slot >= FULL_IMAGE_SIZE / 1024 {
      return false;
    }
    var at, bit := slot / 8, slot % 8;
    if !retry && TestBit(slotMap[at], bit) {
      return false;
    }
    ghost var before := slotMap[..];
    slotMap[at] := SetBit(slotMap[at], bit);
    forall s | 0 <= s < SLOTS
      ensures Marked(slotMap[..], s) <==> s == slot || Marked(before, s)
    {
      if s / 8 == at {
        SetThenTest(before[at], bit, s % 8);
        assert s == 8 * (s / 8) + s % 8 && slot == 8 * at + bit;
      }
    }
    ok := true;
  }

  /** Two frames in different slots touch different bytes. */
  lemma SlotsDisjoint(a: nat, n: nat, b: nat, m: nat, frameSize: nat)
    requires frameSize > 0 && a % frameSize == 0 && b % frameSize == 0 && a / frameSize != b / frameSize
    requires n <= frameSize && m <= frameSize
    ensures a + n <= b || b + m <= a
  {
    var p, q := a / frameSize, b / frameSize;
    assert a == frameSize * p && b == frameSize * q;
    if p < q {
      Multiples(frameSize, p, q);
    } else {
      Multiples(frameSize, q, p);
    }
  }

  lemma Multiples(f: nat, p: nat, q: nat)
    requires p < q
    ensures f * p + f <= f * q
  {
    MulOrder(f, p + 1, q);
    MulNext(f, p);
  }
}
