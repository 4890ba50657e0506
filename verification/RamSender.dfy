// The host's side of PMOSRAM v2: send_frame and the frame loop of tools/uart_ramload_send.py.
module RamSender {
  import opened Arithmetic
  import opened Bytes
  import opened Crc32
  import opened Numerals
  import RamHeader
  import opened RamLoader

  datatype Request = Request(payload: seq<byte>, chunk: nat, retries: nat)

  /** What make_header lets through. */
  type Job = j: Request | 0 < |j.payload| <= RamHeader.MAX_SIZE && 64 <= j.chunk <= RamHeader.MAX_CHUNK
    witness Request([0], 64, 0)

  /** Element k of range(0, ..., chunk_size). */
  function Position(j: Job, k: nat): nat {
    if k == 0 then 0 else Position(j, k - 1) + j.chunk
  }

  /** range(0, len(payload), chunk_size) has an element number k. */
  predicate HasChunk(j: Job, k: nat) {
    Position(j, k) < |j.payload|
  }

  /** Where chunk k starts; the payload's length when there is no chunk k. */
  function Offset(j: Job, k: nat): (r: nat)
    ensures r <= |j.payload|
  {
    if HasChunk(j, k) then Position(j, k) else |j.payload|
  }

  function Chunk(j: Job, k: nat): seq<byte> {
    if Offset(j, k) <= Offset(j, k + 1) then j.payload[Offset(j, k)..Offset(j, k + 1)] else []
  }

  /** offset + len(data) == len(payload). */
  predicate Final(j: Job, k: nat) {
    Offset(j, k + 1) == |j.payload|
  }

  function FrameOf(j: Job, k: nat): Frame
    requires HasChunk(j, k)
  {
    ChunkFacts(j, k);
    Frame(FRAME_MAGIC, k, |Chunk(j, k)|, Crc(Chunk(j, k)), Chunk(j, k))
  }

  lemma ChunkFacts(j: Job, k: nat)
    requires HasChunk(j, k)
    ensures k < |j.payload|
    ensures Offset(j, k) + |Chunk(j, k)| == Offset(j, k + 1)
    ensures 1 <= |Chunk(j, k)| <= j.chunk
    ensures Final(j, k) <==> !HasChunk(j, k + 1)
    ensures HasChunk(j, k + 1) ==> |Chunk(j, k)| == j.chunk
  {
    PositionGrows(j, k);
  }

  /** Chunk k is the stretch of the payload from k times the chunk size on, cut at the payload's end. */
  lemma {:induction false} ChunkPlace(j: Job, k: nat)
    ensures Position(j, k) == j.chunk * k
    ensures HasChunk(j, k) ==>
              Chunk(j, k) == j.payload[j.chunk * k..if j.chunk * k + j.chunk <= |j.payload| then j.chunk * k + j.chunk else |j.payload|]
  {
    if k > 0 {
      ChunkPlace(j, k - 1);
      MulNext(j.chunk, k - 1);
    }
  }

  lemma {:induction false} PositionGrows(j: Job, k: nat)
    ensures k <= Position(j, k)
  {
    if k > 0 {
      PositionGrows(j, k - 1);
    }
  }

  lemma OffsetZero(j: Job)
    ensures Offset(j, 0) == 0 && HasChunk(j, 0)
  {}

  lemma ChunkAppends(j: Job, k: nat)
    requires HasChunk(j, k)
    ensures j.payload[..Offset(j, k)] + Chunk(j, k) == j.payload[..Offset(j, k + 1)]
  {
    ChunkFacts(j, k);
  }

  /** send_frame waiting for sequence s with some attempts used, main waiting for the last two lines, and the outcomes. */
  datatype Host = Sending(s: nat, attempt: nat) | AwaitVerified | AwaitExec | Done | Failed

  /** What the serial link gives the host: a line, or the end of a waiting time. */
  datatype Event = Line(reply: Reply) | Timeout

  predicate Waiting(h: Host) {
    h.Sending? || h.AwaitVerified? || h.AwaitExec?
  }

  predicate InStep(j: Job, h: Host) {
    h.Sending? ==> HasChunk(j, h.s) && h.attempt <= j.retries
  }

  /** Another attempt with the same frame, or the error that ends the session. */
  function Retry(j: Job, h: Host): (Host, seq<Frame>)
    requires InStep(j, h) && h.Sending?
  {
    if h.attempt == j.retries then (Failed, []) else (Sending(h.s, h.attempt + 1), [FrameOf(j, h.s)])
  }

  /** send_frame returned: the next frame goes out, or main starts waiting for the end. */
  function Accepted(j: Job, h: Host, verified: bool): (Host, seq<Frame>)
    requires InStep(j, h) && h.Sending?
  {
    if HasChunk(j, h.s + 1) then (Sending(h.s + 1, 0), [FrameOf(j, h.s + 1)])
    else (if verified then AwaitExec else AwaitVerified, [])
  }

  /** One event; lines that match none of the awaited prefixes change nothing. */
  function OnEvent(j: Job, h: Host, e: Event): (Host, seq<Frame>)
    requires InStep(j, h) && Waiting(h)
  {
    match h
    case Sending(s, attempt) =>
      (match e
       case Timeout => Retry(j, h)
       case Line(Abort) => (Failed, [])
       case Line(Ack(k)) => if k == s then Accepted(j, h, false) else (h, [])
       case Line(Nack(k)) => if k == s then Retry(j, h) else (h, [])
       case Line(Verified) => if Final(j, s) then Accepted(j, h, true) else (h, [])
       case Line(Exec) => (h, []))
    case AwaitVerified =>
      (if e == Timeout || e == Line(Abort) then (Failed, []) else if e == Line(Verified) then (AwaitExec, []) else (h, []))
    case AwaitExec =>
      (if e == Timeout || e == Line(Abort) then (Failed, []) else if e == Line(Exec) then (Done, []) else (h, []))
  }

  lemma OnEventInStep(j: Job, h: Host, e: Event)
    requires InStep(j, h) && Waiting(h)
    ensures InStep(j, OnEvent(j, h, e).0)
  {
    hide FrameOf, HasChunk, Final;
  }

  /** The event settles the frame in flight: its own acknowledgement or, for the last frame, the word that all is verified. */
  predicate Confirms(j: Job, h: Host, e: Event) {
    h.Sending? && (e == Line(Ack(h.s)) || (Final(j, h.s) && e == Line(Verified)))
  }

  /** The event asks for the frame in flight again. */
  predicate Spoils(h: Host, e: Event) {
    h.Sending? && (e == Timeout || e == Line(Nack(h.s)))
  }

  /** The event is the line that the end of the session waits for. */
  predicate Concludes(h: Host, e: Event) {
    (h.AwaitVerified? && e == Line(Verified)) || (h.AwaitExec? && e == Line(Exec))
  }

  /** Every event has one of five fates: it ends the session, it brings the next frame or the end of the sending, it brings the
      same frame once more while attempts are left, it concludes, or it changes nothing, such as a reply for another frame. */
  lemma FatesOfEvents(j: Job, h: Host, e: Event)
    requires InStep(j, h) && Waiting(h)
    ensures var r := OnEvent(j, h, e);
            && (e == Line(Abort) || (e == Timeout && !h.Sending?) ==> r == (Failed, []))
            && (Confirms(j, h, e) ==>
                  if Offset(j, h.s + 1) < |j.payload| then HasChunk(j, h.s + 1) && r == (Sending(h.s + 1, 0), [FrameOf(j, h.s + 1)])
                  else r == (if e == Line(Verified) then AwaitExec else AwaitVerified, []))
            && (Spoils(h, e) ==>
                  r == if h.attempt < j.retries then (Sending(h.s, h.attempt + 1), [FrameOf(j, h.s)]) else (Failed, []))
            && (Concludes(h, e) ==> r == (if h.AwaitExec? then Done else AwaitExec, []))
            && (e != Line(Abort) && e != Timeout && !Confirms(j, h, e) && !Spoils(h, e) && !Concludes(h, e) ==> r == (h, []))
  {
    hide FrameOf, Crc;
  }

  // ----- the prefixes the host compares with

  function AckLine(k: u32): string {
    "PMOSRAM ACK " + Hex8(k)
  }

  function NackLine(k: u32): string {
    "PMOSRAM NACK " + Hex8(k)
  }

  /** A reply line starts with the awaited prefix exactly when it is that reply: fixed width makes prefixes unambiguous. */
  lemma PrefixIsReply(s: u32, k: u32)
    ensures AckLine(s) <= AckLine(k) <==> s == k
    ensures NackLine(s) <= NackLine(k) <==> s == k
    ensures !(AckLine(s) <= NackLine(k)) && !(NackLine(s) <= AckLine(k))
  {
    assert |Hex8(s)| == |Hex8(k)|;
    hide Hex8;
    assert AckLine(s)[12..] == Hex8(s) && AckLine(k)[12..] == Hex8(k);
    assert NackLine(s)[13..] == Hex8(s) && NackLine(k)[13..] == Hex8(k);
    assert AckLine(s)[8] == 'A' && NackLine(k)[8] == 'N' && NackLine(s)[8] == 'N' && AckLine(k)[8] == 'A';
    if AckLine(s) <= AckLine(k) || NackLine(s) <= NackLine(k) {
      assert Hex8(s) == Hex8(k);
      Hex8Injective(s, k);
    }
  }

  // ----- the host as it runs: nested loops over attempts and lines

  /** The events of a session: once the recorded ones are used up, only waiting times end. */
  function At(events: seq<Event>, i: nat): Event {
    if i < |events| then events[i] else Timeout
  }

  /** The host after n events. */
  function After(j: Job, h: Host, events: seq<Event>, n: nat): (r: (Host, seq<Frame>))
    requires InStep(j, h)
    ensures InStep(j, r.0)
    decreases n
  {
    if n == 0 then (h, [])
    else
      var before := After(j, h, events, n - 1);
      if !Waiting(before.0) then before
      else
        var r := OnEvent(j, before.0, At(events, n - 1));
        OnEventInStep(j, before.0, At(events, n - 1));
        (r.0, before.1 + r.1)
  }

  /** The frames the host is about to write again or for the first time. */
  function Pending(j: Job, h: Host): seq<Frame>
    requires InStep(j, h)
  {
    if h.Sending? then [FrameOf(j, h.s)] else []
  }

  /** Lines of no interest to the awaited step. */
  predicate Ignored(j: Job, h: Host, e: Event) {
    match e
    case Timeout => false
    case Line(Abort) => false
    case Line(Ack(k)) => !h.Sending? || k != h.s
    case Line(Nack(k)) => !h.Sending? || k != h.s
    case Line(Verified) => h.AwaitExec? || (h.Sending? && !Final(j, h.s))
    case Line(Exec) => !h.AwaitExec?
  }

  class Link {
    const events: seq<Event>
    var used: nat
    var sent: seq<Frame>

    constructor (events: seq<Event>)
      ensures this.events == events && used == 0 && sent == []
    {
      this.events, used, sent := events, 0, [];
    }

    /** The session so far brought the host to h, and every frame that asks for was written except the pending one. */
    ghost predicate Tracks(j: Job, h: Host, pending: seq<Frame>)
      reads this`used, this`sent
    {
      && h == After(j, Sending(0, 0), events, used).0
      && [FrameOf(j, 0)] + After(j, Sending(0, 0), events, used).1 == sent + pending
    }

    /** wait_for: lines that match no awaited prefix are dropped. */
    method WaitFor(j: Job, h: Host) returns (e: Event)
      requires Waiting(h) && Tracks(j, h, []) && InStep(j, h)
      modifies this`used
      ensures !Ignored(j, h, e)
      ensures Tracks(j, OnEvent(j, h, e).0, OnEvent(j, h, e).1)
    {
      hide OnEvent, After, Ignored, FrameOf, HasChunk, Final;
      while true
        invariant Tracks(j, h, [])
        decreases |events| - used
      {
        e := if used < |events| then events[used] else Timeout;
        TrackEvent(j, h, events, used, sent);
        used := used + 1;
        if !Ignored(j, h, e) {
          return;
        }
        IgnoredKeeps(j, h, e);
        assert used - 1 < |events|;
      }
    }

    /** One attempt of send_frame: write the frame, wait for a line that decides. */
    method Attempt(j: Job, s: nat, attempt: nat) returns (h: Host)
      requires HasChunk(j, s) && attempt <= j.retries
      requires Tracks(j, Sending(s, attempt), [FrameOf(j, s)])
      modifies this`used, this`sent
      ensures sent == old(sent) + [FrameOf(j, s)]
      ensures InStep(j, h) && Tracks(j, h, Pending(j, h))
      ensures h == Failed || h == Sending(s, attempt + 1)
           || (if HasChunk(j, s + 1) then h == Sending(s + 1, 0) else h == AwaitVerified || h == AwaitExec)
    {
      hide After, FrameOf;
      sent := sent + [FrameOf(j, s)];
      assert sent + [] == sent;
      var e := WaitFor(j, Sending(s, attempt));
      h := OnEvent(j, Sending(s, attempt), e).0;
    }

    /** send_frame: one frame, at most retries + 1 times, until it is acknowledged. */
    method SendFrame(j: Job, s: nat) returns (h: Host)
      requires HasChunk(j, s) && Tracks(j, Sending(s, 0), [FrameOf(j, s)])
      modifies this`used, this`sent
      ensures InStep(j, h) && Tracks(j, h, Pending(j, h))
      ensures h == Failed || (if HasChunk(j, s + 1) then h == Sending(s + 1, 0) else h == AwaitVerified || h == AwaitExec)
      ensures old(|sent|) < |sent| <= old(|sent|) + j.retries + 1
    {
      hide After, FrameOf, Tracks;
      var attempt := 0;
      h := Sending(s, 0);
      while true
        invariant attempt <= j.retries && h == Sending(s, attempt)
        invariant Tracks(j, h, [FrameOf(j, s)])
        invariant |sent| == old(|sent|) + attempt
        decreases j.retries - attempt
      {
        h := Attempt(j, s, attempt);
        if h != Sending(s, attempt + 1) {
          return;
        }
        attempt := attempt + 1;
      }
    }

    /** The frame loop of main and the two final waits: the session ends done or failed. */
    method Send(j: Job) returns (h: Host)
      requires used == 0 && sent == []
      modifies this`used, this`sent
      ensures h == Done || h == Failed
      ensures After(j, Sending(0, 0), events, used) == (h, if |sent| > 0 then sent[1..] else [])
      ensures 0 < |sent| && sent[0] == FrameOf(j, 0)
    {
      hide FrameOf, HasChunk, Final, Offset, Chunk, Position;
      var s := 0;
      h := Sending(0, 0);
      OffsetZero(j);
      while h == Sending(s, 0)
        invariant InStep(j, h) && Tracks(j, h, Pending(j, h))
        invariant h == Sending(s, 0) || h == Failed || h == AwaitVerified || h == AwaitExec
        invariant h != Sending(0, 0) ==> 0 < |sent|
        decreases |j.payload| - s, h.Sending?
      {
        ChunkFacts(j, s);
        h := SendFrame(j, s);
        s := s + 1;
      }
      if h == AwaitVerified {
        var e := WaitFor(j, h);
        h := OnEvent(j, h, e).0;
      }
      if h == AwaitExec {
        var e := WaitFor(j, h);
        h := OnEvent(j, h, e).0;
      }
      assert sent + [] == sent;
      assert ([FrameOf(j, 0)] + After(j, Sending(0, 0), events, used).1)[1..] == After(j, Sending(0, 0), events, used).1;
    }
  }

  lemma TrackEvent(j: Job, h: Host, events: seq<Event>, used: nat, sent: seq<Frame>)
    requires Waiting(h) && InStep(j, h)
    requires h == After(j, Sending(0, 0), events, used).0
    requires [FrameOf(j, 0)] + After(j, Sending(0, 0), events, used).1 == sent + []
    ensures After(j, Sending(0, 0), events, used + 1).0 == OnEvent(j, h, At(events, used)).0
    ensures [FrameOf(j, 0)] + After(j, Sending(0, 0), events, used + 1).1 == sent + OnEvent(j, h, At(events, used)).1
  {
    hide OnEvent, FrameOf;
    var first, behind, now := [FrameOf(j, 0)], After(j, Sending(0, 0), events, used).1, OnEvent(j, h, At(events, used)).1;
    assert first + (behind + now) == (first + behind) + now;
    assert sent + [] == sent;
  }

  lemma IgnoredKeeps(j: Job, h: Host, e: Event)
    requires Waiting(h) && InStep(j, h) && Ignored(j, h, e)
    ensures OnEvent(j, h, e) == (h, []) && e != Timeout
  {}
}
