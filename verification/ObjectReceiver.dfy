// The PMOSREC v3 windowed object receiver: receive_v3_frame and receive_v3_object.
module ObjectReceiver {
  import opened Arithmetic
  import opened Bytes
  import opened Options
  import opened Crc32
  import opened Uart
  import opened FrameV3
  import opened RetryBitmap
  import opened ObjectLog
  import Lz4
  import Sha256

  /** Where a reception starts: the filled destination and the line. */
  datatype Origin = Origin(fill: seq<byte>, line: seq<Arrival>)

  function Filled(o: Object, fillFf: bool): (r: seq<byte>)
    ensures |r| == o.size
  {
    seq(o.size, _ => if fillFf then 0xff else 0)
  }

  /** The line carries the object: its run succeeds and leaves bytes with the expected digests. */
  predicate Received(line: seq<Arrival>, o: Object, frameCount: nat, window: nat, fillFf: bool,
                     expectedCrc: bv32, expectedSha: seq<byte>, verifySha: bool, patience: nat) {
    && Admissible(o, frameCount, window)
    && (var r := ObjectRun(Progress(line, []), o, 0, frameCount, window, patience);
        && r.0
        && Crc(Replay(Filled(o, fillFf), r.1.log)) == expectedCrc
        && (verifySha ==> Sha256.Sum(Replay(Filled(o, fillFf), r.1.log)) == expectedSha))
  }

  /** Whether a frame's slot may be marked, read off the log. */
  lemma MarkableMeans(log: seq<Entry>, o: Object, slots: seq<byte>, offset: nat, retry: bool)
    requires Sane(o) && |slots| == MAP_BYTES && LogSound(log, o, slots) && offset < o.size
    ensures Markable(slots, offset, o.frameSize, retry)
       <==> offset % o.frameSize == 0 && (retry || !Taken(log, o.frameSize, offset / o.frameSize))
  {
    hide Marked, Taken;
    SlotInRange(offset, o.frameSize);
  }

  lemma NothingTried(line: seq<Arrival>, o: Object, allow: bool)
    ensures TriesSound([], line, line, o, allow) && LogOf([], o) == []
  {
    BehindItself(line);
  }

  class Receiver {
    const port: Port
    const wire: array<byte>
    const decoded: array<byte>
    const slotMap: array<byte>
    const scratch: array<byte>
    const destination: array<byte>
    ghost var log: seq<Entry>
    ghost var acks: seq<Ack>
    ghost var tries: seq<Try>

    predicate Buffers()
    {
      && wire.Length == MAX_WIRE && decoded.Length == MAX_FRAME && slotMap.Length == MAP_BYTES && scratch.Length == HEADER_BYTES
      && wire != decoded && wire != slotMap && wire != scratch && wire != destination
      && decoded != slotMap && decoded != scratch && decoded != destination
      && slotMap != scratch && slotMap != destination && scratch != destination
    }

    constructor (port: Port, destination: array<byte>)
      ensures this.port == port && this.destination == destination
      ensures Buffers() && fresh(wire) && fresh(decoded) && fresh(slotMap) && fresh(scratch)
      ensures log == [] && acks == [] && tries == []
    {
      this.port, this.destination := port, destination;
      wire, decoded := new byte[MAX_WIRE], new byte[MAX_FRAME];
      slotMap, scratch := new byte[MAP_BYTES], new byte[HEADER_BYTES];
      log, acks, tries := [], [], [];
    }

    /** The part behind the wire bytes: both CRCs and the decoder; the result is left in the decode buffer. */
    method DecodePayload(h: Header, o: Object) returns (ok: bool)
      requires Buffers() && Sane(o) && GeometryGood(h, o)
      modifies decoded
      ensures ok <==> Payload(h, wire[..h.wireLength], o.frameSize).Some?
      ensures ok ==> decoded[..h.decodedLength] == Payload(h, wire[..h.wireLength], o.frameSize).value
    {
      hide Crc, Lz4.Decode;
      var received := wire[..h.wireLength];
      var wireCrc := Compute(received);
      if wireCrc != h.wireCrc {
        return false;
      }
      if h.flags == 1 {
        var unpacked, length := Lz4.Decompress(received, decoded, o.frameSize);
        if !unpacked || length != h.decodedLength {
          return false;
        }
      } else {
        if h.wireLength != h.decodedLength {
          return false;
        }
        for i := 0 to h.decodedLength
          invariant decoded[..i] == received[..i]
        {
          decoded[i] := wire[i];
        }
        assert received[..h.decodedLength] == received;
      }
      var decodedCrc := Compute(decoded[..h.decodedLength]);
      ok := decodedCrc == h.decodedCrc;
    }

    /** Copies a decoded frame to its place. */
    method Deliver(offset: nat, n: nat)
      requires Buffers() && n <= decoded.Length && offset + n <= destination.Length
      modifies destination
      ensures destination[..] == Overlay(old(destination[..]), offset, decoded[..n])
    {
      hide Overlay;
      ghost var start := destination[..];
      OverlayNothing(start, offset);
      assert decoded[..0] == [];
      for i := 0 to n
        invariant destination[..] == Overlay(start, offset, decoded[..i])
      {
        OverlayPut(start, offset, decoded[..i], decoded[i]);
        assert decoded[..i + 1] == decoded[..i] + [decoded[i]];
        ghost var now := destination[..];
        destination[offset + i] := decoded[i];
        assert destination[..] == now[offset + i := decoded[i]];
      }
    }

    /** Reads one frame, up to and including its wire bytes; the line is left behind them. */
    method ReadWire(o: Object, sequence: nat) returns (ok: bool, h: Header)
      requires Buffers() && Sane(o)
      modifies port, wire, scratch
      ensures var r := ReadFrame(old(port.Stream()), o, sequence);
              && port.Stream() == r.rest && port.pushback == None
              && (ok <==> !r.BadHeader?)
              && (ok ==> GeometryGood(h, o))
              && (ok ==> r == match Payload(h, wire[..h.wireLength], o.frameSize)
                              case None => BadPayload(port.Stream())
                              case Some(payload) => Delivered(h.offset, payload, port.Stream()))
    {
      hide Crc, Payload, Take, Parse;
      h := Header(0, 0, 0, 0, 0, 0, 0, 0, 0, 0);
      ok := port.RecvExact(scratch, HEADER_BYTES);
      if !ok {
        return;
      }
      var raw := scratch[..HEADER_BYTES];
      h := Parse(raw);
      var headerCrc := Compute(raw[..36]);
      if h.headerCrc != headerCrc || h.magic != FRAME_MAGIC || h.objectId != o.id || h.sequence != sequence {
        return false, h;
      }
      if !GeometryGood(h, o) {
        return false, h;
      }
      ok := port.RecvExact(wire, h.wireLength);
    }

    /** receive_v3_frame. */
    method ReceiveFrame(o: Object, sequence: nat, retry: bool, allowHeaderRetry: bool) returns (result: Result)
      requires Buffers() && Sane(o) && o.size == destination.Length
      modifies port, wire, decoded, slotMap, scratch, destination, this`log, this`tries
      ensures tries == old(tries) + [Try(sequence, retry, old(port.Stream()), port.Stream(), result)]
      ensures var r := ReadFrame(old(port.Stream()), o, sequence);
              && (result == Accepted <==> r.Delivered? && Markable(old(slotMap[..]), r.offset, o.frameSize, retry))
              && (result == TryAgain <==> r.BadPayload? || (r.BadHeader? && allowHeaderRetry))
              && port.Stream() == (if r.BadHeader? && allowHeaderRetry then Drain(r.rest) else r.rest)
              && (result == Accepted ==> log == old(log) + [Entry(sequence, r.offset, r.payload, retry)])
              && (result == Accepted ==> r.offset + |r.payload| <= o.size && destination[..] == Overlay(old(destination[..]), r.offset, r.payload))
              && (result == Accepted ==> forall s :: 0 <= s < SLOTS ==>
                    (Marked(slotMap[..], s) <==> s == r.offset / o.frameSize || Marked(old(slotMap[..]), s)))
      ensures result != Accepted ==> log == old(log) && destination[..] == old(destination[..]) && slotMap[..] == old(slotMap[..])
    {
      hide ReadFrame, Payload, Marked, Markable, Overlay;
      DeliveredFits(port.Stream(), o, sequence);
      ghost var before := port.Stream();
      result := Accepted;
      var ok, h := ReadWire(o, sequence);
      if !ok {
        if allowHeaderRetry {
          result := TryAgain;
          var _ := port.DrainUntilIdle();
        } else {
          result := Fatal;
        }
      } else {
        ok := DecodePayload(h, o);
        if !ok {
          result := TryAgain;
        } else {
          var marked := FrameSlotMark(slotMap, h.offset, o.frameSize, retry);
          if !marked {
            result := Fatal;
          } else {
            Deliver(h.offset, h.decodedLength);
            log := log + [Entry(sequence, h.offset, decoded[..h.decodedLength], retry)];
          }
        }
      }
      tries := tries + [Try(sequence, retry, before, port.Stream(), result)];
    }

    // ----- the object: windows of frames, each followed by acknowledgements and retry rounds

    /** The state as the specification of the whole run sees it. */
    ghost function Here(): Progress
      reads this`log, port
    {
      Progress(port.Stream(), log)
    }

    ghost predicate Consistent(o: Object, from: Origin, allow: bool)
      reads this`log, this`acks, this`tries, destination, slotMap, port
      requires Buffers() && Sane(o)
    {
      && destination[..] == Replay(from.fill, log)
      && LogSound(log, o, slotMap[..])
      && log == LogOf(tries, o) && TriesSound(tries, from.line, port.Stream(), o, allow)
      && AcksSound(acks, log) && AcksInOrder(acks)
    }

    /** Inside a window: everything below it is in, nothing above `upto`, and the bitmap names what is missing. */
    ghost predicate WindowAt(bitmap: nat, base: nat, upto: nat)
      reads this`log
    {
      BitmapIs(bitmap, log, base, upto) && AllBelow(log, base) && NoneFrom(log, base + upto)
    }

    /** One call of receive_v3_frame for a frame not accepted before. */
    method Want(o: Object, ghost from: Origin, sequence: nat, retry: bool, allowHeaderRetry: bool) returns (result: Result)
      requires Buffers() && Sane(o) && o.size == destination.Length == |from.fill| && Consistent(o, from, allowHeaderRetry)
      requires !Seen(log, sequence)
      modifies port, wire, decoded, slotMap, scratch, destination, this`log, this`tries
      ensures Consistent(o, from, allowHeaderRetry) && |tries| == old(|tries|) + 1
      ensures (result, Here()) == Attempted(old(Here()), o, sequence, retry, allowHeaderRetry)
      ensures result != Accepted ==> log == old(log)
      ensures result == Accepted ==> |log| == old(|log|) + 1 && log[..old(|log|)] == old(log) && log[old(|log|)].sequence == sequence
    {
      hide ReadFrame, Marked, Overlay, LogSound, AcksSound, Replay, LogOf, TriesSound, AcksInOrder, Drain, Taken;
      ghost var before, slots, tried := log, slotMap[..], tries;
      DeliveredFits(port.Stream(), o, sequence);
      ghost var reading := ReadFrame(port.Stream(), o, sequence);
      if reading.Delivered? {
        MarkableMeans(before, o, slots, reading.offset, retry);
      }
      result := ReceiveFrame(o, sequence, retry, allowHeaderRetry);
      TryMade(tried, from.line, tries[|tried|], o, allowHeaderRetry);
      if result == Accepted {
        ghost var e := log[|before|];
        assert log == before + [e];
        ReplayMore(from.fill, before, e);
        LogGrows(before, e, o, slots, slotMap[..]);
        AcksKeep(acks, before, e);
      }
    }

    /** The initial fill. */
    method Fill(value: byte)
      modifies destination
      ensures destination[..] == seq(destination.Length, _ => value)
    {
      for i := 0 to destination.Length
        invariant destination[..i] == seq(i, _ => value)
      {
        destination[i] := value;
      }
      assert destination[..destination.Length] == destination[..];
    }

    /** clear_received_map. */
    method ClearMap()
      requires Buffers()
      modifies slotMap
      ensures forall s :: 0 <= s < SLOTS ==> !Marked(slotMap[..], s)
    {
      for i := 0 to slotMap.Length
        invariant forall k :: 0 <= k < i ==> slotMap[k] == 0
      {
        slotMap[i] := 0;
      }
      hide TestBit;
      forall s | 0 <= s < SLOTS
        ensures !Marked(slotMap[..], s)
      {
        ZeroHasNoBit(s % 8);
      }
    }

    /** send_ack_record, and the record of what it said. */
    method SendAck(ghost o: Object, ghost from: Origin, base: nat, count: nat, bitmap: nat, ghost allow: bool) returns (ok: bool)
      requires Buffers() && Sane(o) && Consistent(o, from, allow) && WindowAt(bitmap, base, count)
      requires AckFollows(acks, base, count)
      modifies port, scratch, this`acks
      ensures Consistent(o, from, allow)
      ensures acks == old(acks) + [Ack(base, count, bitmap, |log|)]
      ensures (ok, Here()) == Acknowledged(old(Here()))
    {
      hide BitmapIs, AllBelow, NoneFrom, LogSound, Replay, LogOf, TriesSound, AcksInOrder, AckFollows, Confirmed;
      AckAppended(acks, Ack(base, count, bitmap, |log|));
      ConfirmedBehind(port.Stream(), 4);
      LineMovesOn(tries, from.line, port.Stream(), Confirmed(port.Stream(), 4).1, o, allow);
      acks := acks + [Ack(base, count, bitmap, |log|)];
      assert log[..|log|] == log;
      var sent;
      ok, sent := port.AwaitConfirmation(scratch);
    }

    /** The first pass over a window. */
    method FirstPass(o: Object, ghost from: Origin, base: nat, count: nat, allowHeaderRetry: bool) returns (ok: bool, bitmap: nat)
      requires Buffers() && Sane(o) && o.size == destination.Length == |from.fill| && Consistent(o, from, allowHeaderRetry)
      requires 1 <= count <= WINDOW_MAX && AllBelow(log, base) && NoneFrom(log, base)
      modifies port, wire, decoded, slotMap, scratch, destination, this`log, this`tries
      ensures Consistent(o, from, allowHeaderRetry) && |tries| <= old(|tries|) + count
      ensures Sweep(ok, Here(), bitmap) == FirstSweep(old(Here()), o, base, 0, count, 0, allowHeaderRetry)
      ensures ok ==> WindowAt(bitmap, base, count)
    {
      hide Consistent, Attempted;
      bitmap := 0;
      NothingMissing(log, base);
      for i := 0 to count
        invariant Consistent(o, from, allowHeaderRetry) && WindowAt(bitmap, base, i)
        invariant |tries| == old(|tries|) + i
        invariant FirstSweep(Here(), o, base, i, count, bitmap, allowHeaderRetry)
               == FirstSweep(old(Here()), o, base, 0, count, 0, allowHeaderRetry)
      {
        NotSeenFrom(log, base + i);
        ghost var before := log;
        var result := Want(o, from, base + i, false, allowHeaderRetry);
        if result == Fatal {
          return false, bitmap;
        }
        FirstPassStep(before, log, base, i, bitmap, result == Accepted);
        if result != Accepted {
          bitmap := With(bitmap, i);
        }
      }
      ok := true;
    }

    /** One retry round over the frames the bitmap names. */
    method RetryRound(o: Object, ghost from: Origin, base: nat, count: nat, missing: nat, allowHeaderRetry: bool)
      returns (ok: bool, bitmap: nat)
      requires Buffers() && Sane(o) && o.size == destination.Length == |from.fill| && Consistent(o, from, allowHeaderRetry)
      requires 1 <= count <= WINDOW_MAX && WindowAt(missing, base, count)
      modifies port, wire, decoded, slotMap, scratch, destination, this`log, this`tries
      ensures Consistent(o, from, allowHeaderRetry) && |tries| <= old(|tries|) + count
      ensures Sweep(ok, Here(), bitmap) == RetrySweep(old(Here()), o, base, 0, count, missing, allowHeaderRetry)
      ensures ok ==> WindowAt(bitmap, base, count)
    {
      hide Consistent, Attempted;
      bitmap := missing;
      for bit := 0 to count
        invariant Consistent(o, from, allowHeaderRetry) && WindowAt(bitmap, base, count)
        invariant |tries| <= old(|tries|) + bit
        invariant RetrySweep(Here(), o, base, bit, count, bitmap, allowHeaderRetry)
               == RetrySweep(old(Here()), o, base, 0, count, missing, allowHeaderRetry)
      {
        if Has(bitmap, bit) {
          ghost var before := log;
          var result := Want(o, from, base + bit, true, allowHeaderRetry);
          if result == Fatal {
            return false, bitmap;
          }
          if result == Accepted {
            RetryStep(before, log, base, count, bitmap, bit);
            bitmap := Dropped(bitmap, bit);
          }
        }
      }
      ok := true;
    }

    /** One window: the first pass, its acknowledgement, and at most eight retry rounds with theirs. */
    method Window(o: Object, ghost from: Origin, base: nat, count: nat, allowHeaderRetry: bool) returns (ok: bool)
      requires Buffers() && Sane(o) && o.size == destination.Length == |from.fill| && Consistent(o, from, allowHeaderRetry)
      requires 1 <= count <= WINDOW_MAX && AllBelow(log, base) && NoneFrom(log, base) && AckFollows(acks, base, count)
      modifies port, wire, decoded, slotMap, scratch, destination, this`log, this`acks, this`tries
      ensures Consistent(o, from, allowHeaderRetry) && |tries| <= old(|tries|) + 9 * count
      ensures (ok, Here()) == WindowRun(old(Here()), o, base, count, allowHeaderRetry)
      ensures ok ==> AllBelow(log, base + count) && NoneFrom(log, base + count)
      ensures ok ==> acks != [] && Emptied(acks, base + count)
    {
      hide Consistent, BitmapIs, AllBelow, NoneFrom, FirstSweep, RetrySweep, Acknowledged;
      var bitmap;
      ok, bitmap := FirstPass(o, from, base, count, allowHeaderRetry);
      if !ok {
        return;
      }
      ghost var start := Here();
      ghost var first := bitmap;
      ok := SendAck(o, from, base, count, bitmap, allowHeaderRetry);
      if !ok {
        return;
      }
      var round := 0;
      while bitmap != 0
        invariant round <= 8 && Consistent(o, from, allowHeaderRetry) && WindowAt(bitmap, base, count)
        invariant acks != [] && acks[|acks| - 1].base == base && acks[|acks| - 1].count == count && acks[|acks| - 1].bitmap == bitmap
        invariant |tries| <= old(|tries|) + count + round * count
        invariant Rounds(start, o, base, count, first, 0, allowHeaderRetry)
               == (if bitmap == 0 then (true, Here()) else RoundsBehind(Here(), o, base, count, bitmap, round, allowHeaderRetry))
        decreases 8 - round
      {
        MulNext(count, round);
        if round == 8 {
          return false;
        }
        round := round + 1;
        ok, bitmap := RetryRound(o, from, base, count, bitmap, allowHeaderRetry);
        MulOrder(count, round, 8);
        if !ok {
          return;
        }
        ok := SendAck(o, from, base, count, bitmap, allowHeaderRetry);
        if !ok {
          return;
        }
      }
      MulOrder(count, round, 8);
      WindowComplete(log, base, count);
      ok := true;
    }

    /** The window loop of receive_v3_object; `patience` windows begin before the transfer limit passes. */
    method Windows(o: Object, ghost from: Origin, frameCount: nat, window: nat, patience: nat) returns (ok: bool)
      requires Buffers() && Sane(o) && o.size == destination.Length == |from.fill| && Consistent(o, from, window == 1)
      requires 1 <= window <= WINDOW_MAX && log == [] && acks == []
      modifies port, wire, decoded, slotMap, scratch, destination, this`log, this`acks, this`tries
      ensures Consistent(o, from, window == 1) && |tries| <= old(|tries|) + 9 * frameCount
      ensures (ok, Here()) == ObjectRun(old(Here()), o, 0, frameCount, window, patience)
      ensures ok ==> forall q: nat :: Seen(log, q) <==> q < frameCount
      ensures ok && frameCount > 0 ==> Emptied(acks, frameCount)
    {
      hide Consistent, Seen, WindowRun;
      var base, begun := 0, 0;
      NothingSeen();
      while base < frameCount
        invariant base <= frameCount && begun <= patience && Consistent(o, from, window == 1)
        invariant AllBelow(log, base) && NoneFrom(log, base) && Emptied(acks, base)
        invariant |tries| <= old(|tries|) + 9 * base
        invariant ObjectRun(Here(), o, base, frameCount, window, patience - begun)
               == ObjectRun(old(Here()), o, 0, frameCount, window, patience)
      {
        hide AllBelow, NoneFrom;
        if begun == patience {
          return false;
        }
        var count := frameCount - base;
        if count > window {
          count := window;
        }
        EmptiedFollows(acks, base, count);
        ok := Window(o, from, base, count, window == 1);
        if !ok {
          return;
        }
        base, begun := base + count, begun + 1;
      }
      AllSeen(log, frameCount);
      ok := true;
    }

    /** The whole-object checks at the end of receive_v3_object. */
    method CheckObject(expectedCrc: bv32, expectedSha: seq<byte>, verifySha: bool) returns (ok: bool)
      requires destination.Length < 0x1_0000_0000
      ensures ok <==> Crc(destination[..]) == expectedCrc && (verifySha ==> Sha256.Sum(destination[..]) == expectedSha)
    {
      hide Crc, Sha256.Sum, Sha256.Context.Valid;
      ghost var data := destination[..];
      var crc := Compute(destination[..]);
      if crc != expectedCrc {
        return false;
      }
      if verifySha {
        var sha := new Sha256.Context();
        sha.Update(destination[..]);
        assert [] + data == data;
        var digest := sha.Final();
        if digest != expectedSha {
          return false;
        }
      }
      ok := true;
    }

    /** receive_v3_object; `patience` windows begin before the transfer limit passes. */
    method ReceiveObject(o: Object, frameCount: nat, window: nat, fillFf: bool,
                         expectedCrc: bv32, expectedSha: seq<byte>, verifySha: bool, patience: nat) returns (ok: bool)
      requires Buffers() && o.size == destination.Length && o.size <= FULL_IMAGE_SIZE
      requires log == [] && acks == [] && tries == []
      modifies port, wire, decoded, slotMap, scratch, destination, this`log, this`acks, this`tries
      // success is decided by the line alone, and so is what is read of it
      ensures ok <==> Received(old(port.Stream()), o, frameCount, window, fillFf, expectedCrc, expectedSha, verifySha, patience)
      ensures Admissible(o, frameCount, window) ==> Here() == ObjectRun(Progress(old(port.Stream()), []), o, 0, frameCount, window, patience).1
      // at any time: the log comes from frames of the line, read in order, and the acknowledgements report it
      ensures |tries| <= 9 * frameCount
      ensures Admissible(o, frameCount, window) ==>
                && log == LogOf(tries, o) && TriesSound(tries, old(port.Stream()), port.Stream(), o, window == 1)
                && destination[..] == Replay(Filled(o, fillFf), log)
      ensures AcksSound(acks, log) && AcksInOrder(acks) && Distinct(log)
      // on success: every sequence once, nothing missing at the end, and the two digests
      ensures ok ==> Admissible(o, frameCount, window)
      ensures ok ==> forall q: nat :: Seen(log, q) <==> q < frameCount
      ensures ok ==> Emptied(acks, frameCount)
      ensures ok ==> FirstPassClean(log) && Placed(log, o)
      ensures ok ==> Crc(destination[..]) == expectedCrc
      ensures ok && verifySha ==> Sha256.Sum(destination[..]) == expectedSha
    {
      hide Crc, Sha256.Sum, Replay, Marked, Seen, BitmapIs, AllBelow, ObjectRun, TriesSound, LogOf;
      if frameCount == 0 || o.frameSize < 1024 || o.frameSize > MAX_FRAME || window == 0 || window > WINDOW_MAX {
        return false;
      }
      Fill(if fillFf then 0xff else 0);
      ClearMap();
      ghost var from := Origin(Filled(o, fillFf), port.Stream());
      StartsEmpty(from.fill, o, slotMap[..]);
      NothingTried(from.line, o, window == 1);
      ok := Windows(o, from, frameCount, window, patience);
      if ok {
        ok := CheckObject(expectedCrc, expectedSha, verifySha);
      }
    }
  }
}
