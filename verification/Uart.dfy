// The serial input of the recovery payload: recv_exact, draining, and the acknowledged reply of protocol v3.
module Uart {
  import opened Bytes
  import opened Options

  /** What the line brings: a byte, a pause long enough to count as idle, or the passing of the running time limit.
      Behind the last arrival there is silence. */
  datatype Arrival = Data(value: byte) | Pause | Deadline

  datatype Read = Read(ok: bool, data: seq<byte>, rest: seq<Arrival>)

  /** recv_exact: n bytes, or what came before the time limit. */
  function Take(line: seq<Arrival>, n: nat): (r: Read)
    ensures |r.rest| <= |line|
    ensures r.ok <==> |r.data| == n
    decreases |line|
  {
    if n == 0 then Read(true, [], line)
    else if line == [] then Read(false, [], [])
    else match line[0]
      case Pause => Take(line[1..], n)
      case Deadline => Read(false, [], line[1..])
      case Data(b) =>
        var r := Take(line[1..], n - 1);
        Read(r.ok, [b] + r.data, r.rest)
  }

  /** A read that continues behind bytes already taken. */
  function Continued(head: seq<byte>, r: Read): Read {
    Read(r.ok, head + r.data, r.rest)
  }

  lemma TakeStep(head: seq<byte>, line: seq<Arrival>, n: nat)
    requires n > 0 && line != []
    ensures line[0] == Pause ==> Continued(head, Take(line, n)) == Continued(head, Take(line[1..], n))
    ensures line[0] == Deadline ==> Take(line, n) == Read(false, [], line[1..])
    ensures line[0].Data? ==> Continued(head, Take(line, n)) == Continued(head + [line[0].value], Take(line[1..], n - 1))
  {
    if line[0].Data? {
      var b, r := line[0].value, Take(line[1..], n - 1);
      assert head + ([b] + r.data) == (head + [b]) + r.data;
    }
  }

  /** uart_drain_until_idle: everything up to the first pause is thrown away. */
  function Drain(line: seq<Arrival>): seq<Arrival>
    decreases |line|
  {
    if line == [] then [] else if line[0].Data? then Drain(line[1..]) else line[1..]
  }

  // ----- what is left of a line

  /** rest is the end of line: what is left when a stretch has been read. */
  predicate Behind(rest: seq<Arrival>, line: seq<Arrival>) {
    |rest| <= |line| && line[|line| - |rest|..] == rest
  }

  lemma BehindItself(line: seq<Arrival>)
    ensures Behind(line, line)
  {}

  lemma BehindOne(line: seq<Arrival>)
    requires line != []
    ensures Behind(line[1..], line)
  {}

  lemma BehindMore(a: seq<Arrival>, b: seq<Arrival>, c: seq<Arrival>)
    requires Behind(a, b) && Behind(b, c)
    ensures Behind(a, c)
  {
    assert c[|c| - |b|..][|b| - |a|..] == c[|c| - |a|..];
  }

  lemma {:induction false} TakeBehind(line: seq<Arrival>, n: nat)
    ensures Behind(Take(line, n).rest, line)
    decreases |line|
  {
    BehindItself(line);
    if n > 0 && line != [] {
      BehindOne(line);
      if !line[0].Deadline? {
        TakeBehind(line[1..], if line[0].Data? then n - 1 else n);
        BehindMore(Take(line, n).rest, line[1..], line);
      }
    }
  }

  lemma {:induction false} DrainBehind(line: seq<Arrival>)
    ensures Behind(Drain(line), line)
    decreases |line|
  {
    if line != [] {
      BehindOne(line);
      if line[0].Data? {
        DrainBehind(line[1..]);
        BehindMore(Drain(line), line[1..], line);
      }
    }
  }

  /** How many bytes a stretch of line carries. */
  function BytesOn(line: seq<Arrival>): nat {
    if line == [] then 0 else (if line[0].Data? then 1 else 0) + BytesOn(line[1..])
  }

  lemma {:induction false} TakeCounts(line: seq<Arrival>, n: nat)
    ensures var r := Take(line, n); r.ok ==> BytesOn(line) == n + BytesOn(r.rest)
    decreases |line|
  {
    if n > 0 && line != [] && !line[0].Deadline? {
      TakeCounts(line[1..], if line[0].Data? then n - 1 else n);
    }
  }

  const CONFIRM: byte := 0xa5
  /** The low byte of the frame magic. */
  const FRAME_START: byte := 0x50

  /** send_ack_record's wait for the confirmation, with `tries` transmissions left. */
  function Confirmed(line: seq<Arrival>, tries: nat): (bool, seq<Arrival>)
    decreases tries
  {
    if tries == 0 then (false, line)
    else
      var r := Take(line, 1);
      if r.ok && r.data[0] == CONFIRM then (true, r.rest)
      else if r.ok && r.data[0] == FRAME_START then (true, [Data(FRAME_START)] + r.rest)
      else Confirmed(r.rest, tries - 1)
  }

  /** How often the record goes out until it is confirmed, `tries` times at most. */
  function Transmissions(line: seq<Arrival>, tries: nat): nat
    decreases tries
  {
    if tries == 0 then 0
    else
      var r := Take(line, 1);
      if r.ok && (r.data[0] == CONFIRM || r.data[0] == FRAME_START) then 1 else 1 + Transmissions(r.rest, tries - 1)
  }

  /** A byte read is the byte in front of what is left: put back, it restores the line from there. */
  lemma {:induction false} FirstByte(line: seq<Arrival>)
    requires Take(line, 1).ok
    ensures Behind([Data(Take(line, 1).data[0])] + Take(line, 1).rest, line)
    decreases |line|
  {
    if line[0].Data? {
      assert Take(line[1..], 0) == Read(true, [], line[1..]);
      assert [line[0]] + line[1..] == line;
      BehindItself(line);
    } else {
      FirstByte(line[1..]);
      BehindOne(line);
      BehindMore([Data(Take(line, 1).data[0])] + Take(line, 1).rest, line[1..], line);
    }
  }

  /** Waiting for a confirmation reads on along the line; a pushed-back byte is where the next frame starts. */
  lemma {:induction false} ConfirmedBehind(line: seq<Arrival>, tries: nat)
    ensures Behind(Confirmed(line, tries).1, line)
    decreases tries
  {
    hide Behind, Take;
    BehindItself(line);
    if tries > 0 {
      var r := Take(line, 1);
      TakeBehind(line, 1);
      if r.ok && r.data[0] == FRAME_START {
        FirstByte(line);
      } else if !(r.ok && r.data[0] == CONFIRM) {
        ConfirmedBehind(r.rest, tries - 1);
        BehindMore(Confirmed(line, tries).1, r.rest, line);
      }
    }
  }

  /** A confirmation that was lost in front of the next frame costs nothing: the frame is still whole on the line. */
  lemma PushbackKeepsFrame(line: seq<Arrival>, tries: nat)
    requires tries > 0 && line != [] && line[0] == Data(FRAME_START)
    ensures Confirmed(line, tries) == (true, line)
  {
    assert Take(line[1..], 0) == Read(true, [], line[1..]);
    assert line == [line[0]] + line[1..];
  }

  function OnLine(data: seq<byte>): seq<Arrival> {
    seq(|data|, i requires 0 <= i < |data| => Data(data[i]))
  }

  /** Bytes on the line are read in order and nothing else is consumed. */
  lemma {:induction false} TakeBytes(data: seq<byte>, rest: seq<Arrival>)
    ensures Take(OnLine(data) + rest, |data|) == Read(true, data, rest)
    decreases |data|
  {
    if data == [] {
      assert OnLine(data) + rest == rest;
    } else {
      assert (OnLine(data) + rest)[1..] == OnLine(data[1..]) + rest;
      TakeBytes(data[1..], rest);
      assert [data[0]] + data[1..] == data;
    }
  }

  lemma OnLineJoin(a: seq<byte>, b: seq<byte>)
    ensures OnLine(a + b) == OnLine(a) + OnLine(b)
  {}

  /** Bytes that stop in front of the time limit are all there is of a longer read. */
  lemma {:induction false} TakeShort(data: seq<byte>, n: nat, rest: seq<Arrival>)
    requires |data| < n
    ensures Take(OnLine(data) + ([Deadline] + rest), n) == Read(false, data, rest)
    decreases |data|
  {
    var line := OnLine(data) + ([Deadline] + rest);
    if data == [] {
      assert line == [Deadline] + rest;
      assert line[1..] == rest;
    } else {
      assert line[0] == Data(data[0]) && line[1..] == OnLine(data[1..]) + ([Deadline] + rest);
      TakeShort(data[1..], n - 1, rest);
      assert [data[0]] + data[1..] == data;
    }
  }

  /** Draining drops the bytes up to a pause, and the pause. */
  lemma {:induction false} DrainBytes(data: seq<byte>, rest: seq<Arrival>)
    ensures Drain(OnLine(data) + ([Pause] + rest)) == rest
    decreases |data|
  {
    var line := OnLine(data) + ([Pause] + rest);
    if data == [] {
      assert line == [Pause] + rest;
      assert line[1..] == rest;
    } else {
      assert line[0] == Data(data[0]) && line[1..] == OnLine(data[1..]) + ([Pause] + rest);
      DrainBytes(data[1..], rest);
    }
  }

  // ----- the answers to an acknowledgement

  /** What arrives for an acknowledgement: pauses, waits that end without a confirmation, and at last the confirmation
      or, when that is lost, nothing. */
  datatype Answer = Answer(before: seq<Arrival>, confirmed: bool)

  /** A wait ends here without success: at its time limit, or with a byte that means nothing. */
  predicate Misses(a: Arrival) {
    a == Deadline || (a.Data? && a.value != CONFIRM && a.value != FRAME_START)
  }

  function Failures(before: seq<Arrival>): nat {
    if before == [] then 0 else (if before[0] == Pause then 0 else 1) + Failures(before[1..])
  }

  function AnswerLine(a: Answer, rest: seq<Arrival>): seq<Arrival> {
    a.before + (if a.confirmed then [Data(CONFIRM)] + rest else rest)
  }

  /** The answer comes within four transmissions; a lost confirmation needs the next frame to start right behind. */
  predicate Answers(a: Answer, rest: seq<Arrival>) {
    && (forall k :: 0 <= k < |a.before| ==> a.before[k] == Pause || Misses(a.before[k]))
    && Failures(a.before) < 4
    && (a.confirmed || (rest != [] && rest[0] == Data(FRAME_START)))
  }

  lemma TakeOne(line: seq<Arrival>)
    requires line != []
    ensures line[0] == Pause ==> Take(line, 1) == Take(line[1..], 1)
    ensures line[0] == Deadline ==> Take(line, 1) == Read(false, [], line[1..])
    ensures line[0].Data? ==> Take(line, 1) == Read(true, [line[0].value], line[1..])
  {
    if line[0].Data? {
      assert Take(line[1..], 0) == Read(true, [], line[1..]);
    }
  }

  /** An answer in time lets the transfer go on exactly behind it. */
  lemma {:induction false} AnswerTaken(a: Answer, rest: seq<Arrival>, tries: nat)
    requires forall k :: 0 <= k < |a.before| ==> a.before[k] == Pause || Misses(a.before[k])
    requires Failures(a.before) < tries && (a.confirmed || (rest != [] && rest[0] == Data(FRAME_START)))
    ensures Confirmed(AnswerLine(a, rest), tries) == (true, rest)
    decreases |a.before|
  {
    var line := AnswerLine(a, rest);
    if a.before == [] {
      if a.confirmed {
        assert line == [Data(CONFIRM)] + rest && line[1..] == rest;
        TakeOne(line);
      } else {
        assert line == rest;
        PushbackKeepsFrame(line, tries);
      }
    } else {
      var behind := a.(before := a.before[1..]);
      assert line[0] == a.before[0] && line[1..] == AnswerLine(behind, rest);
      TakeOne(line);
      hide Take;
      AnswerTaken(behind, rest, if a.before[0] == Pause then tries else tries - 1);
    }
  }

  /** As many failed waits as there are transmissions end the attempt, whatever comes behind them. */
  lemma {:induction false} NoAnswerInTime(before: seq<Arrival>, rest: seq<Arrival>, tries: nat)
    requires forall k :: 0 <= k < |before| ==> before[k] == Pause || Misses(before[k])
    requires Failures(before) >= tries
    ensures !Confirmed(before + rest, tries).0
    decreases |before|
  {
    if tries > 0 {
      var line := before + rest;
      assert line[0] == before[0] && line[1..] == before[1..] + rest;
      TakeOne(line);
      hide Take;
      NoAnswerInTime(before[1..], rest, if before[0] == Pause then tries else tries - 1);
    }
  }

  lemma {:induction false} TransmissionsBounded(line: seq<Arrival>, tries: nat)
    ensures Transmissions(line, tries) <= tries
    ensures tries > 0 ==> 1 <= Transmissions(line, tries)
    decreases tries
  {
    hide Take;
    if tries > 0 {
      TransmissionsBounded(Take(line, 1).rest, tries - 1);
    }
  }

  lemma TakeNothing(n: nat)
    ensures n > 0 ==> Take([], n) == Read(false, [], [])
  {}

  lemma TakeZero(line: seq<Arrival>)
    ensures Take(line, 0) == Read(true, [], line)
  {}

  class Port {
    var line: seq<Arrival>
    var pushback: Option<byte>

    /** What the next reads will see. */
    function Stream(): seq<Arrival>
      reads this
    {
      match pushback
      case None => line
      case Some(b) => [Data(b)] + line
    }

    constructor (line: seq<Arrival>)
      ensures Stream() == line
    {
      this.line, pushback := line, None;
    }

    /** recv_exact: the pushed-back byte first, then the line, all under one time limit. */
    method RecvExact(destination: array<byte>, n: nat) returns (ok: bool)
      requires n <= destination.Length
      modifies this, destination
      ensures ok == Take(old(Stream()), n).ok
      ensures ok ==> destination[..n] == Take(old(Stream()), n).data
      ensures Stream() == Take(old(Stream()), n).rest
      ensures n > 0 ==> pushback == None
    {
      hide Take;
      ghost var start := Stream();
      var received := 0;
      assert Continued([], Take(start, n)) == Take(start, n);
      if pushback.Some? && received < n {
        TakeStep([], start, n);
        assert start[1..] == line;
        destination[received] := pushback.value;
        received := received + 1;
        pushback := None;
      }
      while received < n
        invariant received <= n
        invariant n > 0 ==> pushback == None
        invariant Take(start, n) == Continued(destination[..received], Take(Stream(), n - received))
        decreases |line|
      {
        if line == [] {
          TakeNothing(n - received);
          return false;
        }
        ghost var head := destination[..received];
        TakeStep(head, line, n - received);
        var next := line[0];
        line := line[1..];
        if next == Deadline {
          return false;
        }
        if next.Data? {
          destination[received] := next.value;
          received := received + 1;
          assert destination[..received] == head + [next.value];
        }
      }
      TakeZero(Stream());
      ok := true;
    }

    /** v3_recover_single_frame_boundary, when a retry is allowed, with the count of uart_drain_until_idle. */
    method DrainUntilIdle() returns (dropped: nat)
      modifies this
      ensures Stream() == Drain(old(line))
      ensures dropped == BytesOn(old(line)) - BytesOn(Drain(old(line)))
    {
      pushback := None;
      dropped := 0;
      ghost var start := line;
      while line != [] && line[0].Data?
        invariant pushback == None && Drain(line) == Drain(start)
        invariant BytesOn(start) == dropped + BytesOn(line)
        decreases |line|
      {
        line := line[1..];
        dropped := dropped + 1;
      }
      if line != [] {
        line := line[1..];
      }
    }

    /** send_ack_record: at most four transmissions, each followed by a wait for one byte. */
    method AwaitConfirmation(scratch: array<byte>) returns (confirmed: bool, sent: nat)
      requires scratch.Length >= 1
      modifies this, scratch
      ensures (confirmed, Stream()) == Confirmed(old(Stream()), 4)
      ensures sent == Transmissions(old(Stream()), 4) && 1 <= sent <= 4
    {
      sent := 0;
      TransmissionsBounded(Stream(), 4);
      while sent < 4
        invariant sent <= 4
        invariant sent + Transmissions(Stream(), 4 - sent) == Transmissions(old(Stream()), 4)
        invariant Confirmed(Stream(), 4 - sent) == Confirmed(old(Stream()), 4)
      {
        ghost var before := Stream();
        sent := sent + 1;
        var ok := RecvExact(scratch, 1);
        if ok {
          assert scratch[..1] == [scratch[0]];
          if scratch[0] == CONFIRM {
            return true, sent;
          }
          if scratch[0] == FRAME_START {
            pushback := Some(scratch[0]);
            return true, sent;
          }
        }
      }
      confirmed := false;
    }
  }
}
