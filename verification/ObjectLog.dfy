// What the v3 object receiver does to a line: the log of accepted frames, its acknowledgements, and the run as a whole.
module ObjectLog {
  import opened Arithmetic
  import opened Bytes
  import opened Options
  import opened Uart
  import opened FrameV3
  import opened RetryBitmap

  const WINDOW_MAX: nat := 16

  /** One accepted frame, in the order of acceptance. */
  datatype Entry = Entry(sequence: nat, offset: nat, payload: seq<byte>, retry: bool)

  /** One acknowledgement, with the number of frames accepted when it was sent. */
  datatype Ack = Ack(base: nat, count: nat, bitmap: nat, accepted: nat)

  datatype Result = Accepted | TryAgain | Fatal

  // ----- the log of accepted frames and what it means

  predicate Seen(log: seq<Entry>, q: nat) {
    exists k :: 0 <= k < |log| && log[k].sequence == q
  }

  predicate Distinct(log: seq<Entry>) {
    forall j, k :: 0 <= j < k < |log| ==> log[j].sequence != log[k].sequence
  }

  /** Every entry lies on a frame boundary and inside the object. */
  predicate Placed(log: seq<Entry>, o: Object)
    requires o.frameSize > 0
  {
    forall k :: 0 <= k < |log| ==>
      log[k].offset % o.frameSize == 0 && 0 < |log[k].payload| <= o.frameSize && log[k].offset + |log[k].payload| <= o.size
  }

  predicate Apart(a: Entry, b: Entry) {
    a.offset + |a.payload| <= b.offset || b.offset + |b.payload| <= a.offset
  }

  /** A frame accepted in a first pass touches no byte an earlier frame wrote. */
  predicate FirstPassClean(log: seq<Entry>) {
    forall j, k :: 0 <= j < k < |log| && !log[k].retry ==> Apart(log[j], log[k])
  }

  /** The fill value overlaid by the payloads in the order of acceptance. */
  function Replay(fill: seq<byte>, log: seq<Entry>): (r: seq<byte>)
    ensures |r| == |fill|
    decreases |log|
  {
    if log == [] then fill
    else
      var before := Replay(fill, log[..|log| - 1]);
      var e := log[|log| - 1];
      if e.offset + |e.payload| <= |fill| then Overlay(before, e.offset, e.payload) else before
  }

  /** The entry writes byte x. */
  predicate Writes(e: Entry, x: nat) {
    e.offset <= x < e.offset + |e.payload|
  }

  /** A byte that no accepted frame writes keeps its fill value; one that the last frame writes has that frame's value. */
  lemma {:induction false} ReplayByte(fill: seq<byte>, log: seq<Entry>, x: nat)
    requires x < |fill| && forall k :: 0 <= k < |log| ==> log[k].offset + |log[k].payload| <= |fill|
    ensures (forall k :: 0 <= k < |log| ==> !Writes(log[k], x)) ==> Replay(fill, log)[x] == fill[x]
    ensures log != [] && Writes(log[|log| - 1], x) ==> Replay(fill, log)[x] == log[|log| - 1].payload[x - log[|log| - 1].offset]
    decreases |log|
  {
    if log != [] {
      ReplayByte(fill, log[..|log| - 1], x);
    }
  }

  /** The bitmap names exactly the window's frames that are not in the log. */
  predicate BitmapIs(bitmap: nat, log: seq<Entry>, base: nat, upto: nat) {
    forall i: nat :: i < WINDOW_MAX ==> (Has(bitmap, i) <==> i < upto && !Seen(log, base + i))
  }

  predicate AllBelow(log: seq<Entry>, base: nat) {
    forall q: nat :: q < base ==> Seen(log, q)
  }

  predicate NoneFrom(log: seq<Entry>, end: nat) {
    forall k :: 0 <= k < |log| ==> log[k].sequence < end
  }

  /** Every acknowledgement reports exactly the frames still missing from its window, and nothing is missing below it. */
  predicate AcksSound(acks: seq<Ack>, log: seq<Entry>) {
    forall a :: 0 <= a < |acks| ==>
      && acks[a].accepted <= |log|
      && BitmapIs(acks[a].bitmap, log[..acks[a].accepted], acks[a].base, acks[a].count)
      && AllBelow(log[..acks[a].accepted], acks[a].base)
      && (a > 0 ==> acks[a - 1].accepted <= acks[a].accepted)
  }

  lemma SeenMore(log: seq<Entry>, e: Entry, q: nat)
    ensures Seen(log + [e], q) <==> Seen(log, q) || e.sequence == q
  {
    assert (log + [e])[|log|] == e;
    if Seen(log, q) {
      var k :| 0 <= k < |log| && log[k].sequence == q;
      assert (log + [e])[k].sequence == q;
    }
  }

  lemma SeenPrefix(log: seq<Entry>, n: nat, m: nat, q: nat)
    requires n <= m <= |log|
    ensures Seen(log[..n], q) ==> Seen(log[..m], q)
  {
    if Seen(log[..n], q) {
      var k :| 0 <= k < n && log[..n][k].sequence == q;
      assert log[..m][k].sequence == q;
    }
  }

  /** Two acknowledgements of one window: the later one misses no more frames. */
  lemma AcksShrink(acks: seq<Ack>, log: seq<Entry>, a: nat, b: nat, i: nat)
    requires AcksSound(acks, log) && a < b < |acks| && i < WINDOW_MAX
    requires acks[a].base == acks[b].base && acks[a].count == acks[b].count
    ensures Has(acks[b].bitmap, i) ==> Has(acks[a].bitmap, i)
  {
    AcceptedGrows(acks, log, a, b);
    SeenPrefix(log, acks[a].accepted, acks[b].accepted, acks[a].base + i);
  }

  lemma {:induction false} AcceptedGrows(acks: seq<Ack>, log: seq<Entry>, a: nat, b: nat)
    requires AcksSound(acks, log) && a <= b < |acks|
    ensures acks[a].accepted <= acks[b].accepted
    decreases b
  {
    if a < b {
      AcceptedGrows(acks, log, a, b - 1);
    }
  }

  lemma NothingSeen()
    ensures AllBelow([], 0) && NoneFrom([], 0)
  {}

  lemma StartsEmpty(fill: seq<byte>, o: Object, slots: seq<byte>)
    requires Sane(o) && |slots| == MAP_BYTES
    requires forall s :: 0 <= s < SLOTS ==> !Marked(slots, s)
    ensures Replay(fill, []) == fill && LogSound([], o, slots) && AcksSound([], []) && AcksInOrder([])
  {
    hide Marked;
  }

  lemma AllSeen(log: seq<Entry>, end: nat)
    requires AllBelow(log, end) && NoneFrom(log, end)
    ensures forall q: nat :: Seen(log, q) <==> q < end
  {}

  // ----- the order of acknowledgements

  /** An acknowledgement follows the ones before it: a retry round of the same window while frames are missing,
      or the next window once none is. */
  predicate AckFollows(acks: seq<Ack>, base: nat, count: nat) {
    if acks == [] then base == 0
    else
      var last := acks[|acks| - 1];
      if last.bitmap == 0 then base == last.base + last.count else base == last.base && count == last.count
  }

  predicate AcksInOrder(acks: seq<Ack>) {
    forall a :: 0 <= a < |acks| ==> AckFollows(acks[..a], acks[a].base, acks[a].count)
  }

  lemma AckAppended(acks: seq<Ack>, ack: Ack)
    requires AcksInOrder(acks) && AckFollows(acks, ack.base, ack.count)
    ensures AcksInOrder(acks + [ack])
  {
    hide AckFollows;
    var more := acks + [ack];
    forall a | 0 <= a < |more|
      ensures AckFollows(more[..a], more[a].base, more[a].count)
    {
      assert a < |acks| ==> more[..a] == acks[..a];
      assert a == |acks| ==> more[..a] == acks;
    }
  }

  /** Nothing is missing below `base`, as last acknowledged. */
  predicate Emptied(acks: seq<Ack>, base: nat) {
    if acks == [] then base == 0 else acks[|acks| - 1].bitmap == 0 && acks[|acks| - 1].base + acks[|acks| - 1].count == base
  }

  lemma EmptiedFollows(acks: seq<Ack>, base: nat, count: nat)
    requires Emptied(acks, base)
    ensures AckFollows(acks, base, count)
  {}

  /** The base moves only behind an acknowledgement in which nothing is missing, and then by that window. */
  lemma BaseMovesOnEmpty(acks: seq<Ack>, a: nat)
    requires AcksInOrder(acks) && 0 < a < |acks|
    ensures acks[a - 1].bitmap == 0 ==> acks[a].base == acks[a - 1].base + acks[a - 1].count
    ensures acks[a - 1].bitmap != 0 ==> acks[a].base == acks[a - 1].base && acks[a].count == acks[a - 1].count
    ensures acks[a].base != acks[a - 1].base ==> acks[a - 1].bitmap == 0
  {
    assert AckFollows(acks[..a], acks[a].base, acks[a].count);
  }

  // ----- where the log comes from: one try for each frame read from the line

  datatype Try = Try(sequence: nat, retry: bool, before: seq<Arrival>, after: seq<Arrival>, result: Result)

  /** The try read one frame from the line as it stood, with this result. */
  predicate TryFits(t: Try, o: Object, allow: bool) {
    var r := ReadFrame(t.before, o, t.sequence);
    && (t.result == Accepted ==> r.Delivered?)
    && (t.result == TryAgain ==> r.BadPayload? || (r.BadHeader? && allow))
    && t.after == (if r.BadHeader? && allow then Drain(r.rest) else r.rest)
  }

  /** The line as the last try left it. */
  function Left(tries: seq<Try>, line: seq<Arrival>): seq<Arrival> {
    if tries == [] then line else tries[|tries| - 1].after
  }

  /** The tries read the line in order, each behind the one before it, and `now` is behind them all. */
  predicate TriesSound(tries: seq<Try>, line: seq<Arrival>, now: seq<Arrival>, o: Object, allow: bool) {
    && (forall k :: 0 <= k < |tries| ==> TryFits(tries[k], o, allow) && Behind(tries[k].before, Left(tries[..k], line)))
    && Behind(now, Left(tries, line))
  }

  /** The log is what the accepted tries delivered. */
  function LogOf(tries: seq<Try>, o: Object): seq<Entry> {
    if tries == [] then []
    else
      var front, t := LogOf(tries[..|tries| - 1], o), tries[|tries| - 1];
      var r := ReadFrame(t.before, o, t.sequence);
      if t.result == Accepted && r.Delivered? then front + [Entry(t.sequence, r.offset, r.payload, t.retry)] else front
  }

  lemma TryMade(tries: seq<Try>, line: seq<Arrival>, t: Try, o: Object, allow: bool)
    requires TriesSound(tries, line, t.before, o, allow) && TryFits(t, o, allow)
    ensures TriesSound(tries + [t], line, t.after, o, allow)
    ensures LogOf(tries + [t], o)
         == (var r := ReadFrame(t.before, o, t.sequence);
             if t.result == Accepted && r.Delivered? then LogOf(tries, o) + [Entry(t.sequence, r.offset, r.payload, t.retry)]
             else LogOf(tries, o))
  {
    hide TryFits, ReadFrame, Behind;
    var more := tries + [t];
    assert more[..|tries|] == tries;
    BehindItself(t.after);
    forall k | 0 <= k < |more|
      ensures TryFits(more[k], o, allow) && Behind(more[k].before, Left(more[..k], line))
    {
      if k < |tries| {
        assert more[..k] == tries[..k];
      }
    }
  }

  lemma LineMovesOn(tries: seq<Try>, line: seq<Arrival>, before: seq<Arrival>, now: seq<Arrival>, o: Object, allow: bool)
    requires TriesSound(tries, line, before, o, allow) && Behind(now, before)
    ensures TriesSound(tries, line, now, o, allow)
  {
    hide TryFits, Behind;
    BehindMore(now, before, Left(tries, line));
  }

  /** Every log entry was delivered by a frame read from some point of the original line on. */
  lemma {:induction false} EntryWasDelivered(tries: seq<Try>, line: seq<Arrival>, now: seq<Arrival>, o: Object, allow: bool, k: nat)
    returns (i: nat)
    requires TriesSound(tries, line, now, o, allow) && k < |LogOf(tries, o)|
    ensures i < |tries| && Behind(tries[i].before, line)
    ensures var e := LogOf(tries, o)[k];
            && e.sequence == tries[i].sequence && e.retry == tries[i].retry
            && ReadFrame(tries[i].before, o, e.sequence) == Delivered(e.offset, e.payload, tries[i].after)
    decreases |tries|
  {
    hide ReadFrame, Behind;
    var n := |tries| - 1;
    var front, t := tries[..n], tries[n];
    FrontSound(tries, line, now, o, allow);
    if k < |LogOf(front, o)| {
      i := EntryWasDelivered(front, line, t.before, o, allow, k);
    } else {
      i := n;
      LineReached(front, line, t.before, o, allow);
    }
  }

  lemma FrontSound(tries: seq<Try>, line: seq<Arrival>, now: seq<Arrival>, o: Object, allow: bool)
    requires TriesSound(tries, line, now, o, allow) && tries != []
    ensures TriesSound(tries[..|tries| - 1], line, tries[|tries| - 1].before, o, allow)
  {
    hide TryFits, Behind;
    var front := tries[..|tries| - 1];
    forall k | 0 <= k < |front|
      ensures TryFits(front[k], o, allow) && Behind(front[k].before, Left(front[..k], line))
    {
      assert front[..k] == tries[..k];
    }
  }

  /** Whatever the tries have reached is behind the original line. */
  lemma {:induction false} LineReached(tries: seq<Try>, line: seq<Arrival>, now: seq<Arrival>, o: Object, allow: bool)
    requires TriesSound(tries, line, now, o, allow)
    ensures Behind(now, line)
    decreases |tries|
  {
    hide TryFits, Behind;
    if tries != [] {
      var t := tries[|tries| - 1];
      FrontSound(tries, line, now, o, allow);
      LineReached(tries[..|tries| - 1], line, t.before, o, allow);
      assert TryFits(tries[|tries| - 1], o, allow);
      TryBehind(t, o, allow);
      BehindMore(now, t.after, t.before);
      BehindMore(now, t.before, line);
    }
  }

  lemma TryBehind(t: Try, o: Object, allow: bool)
    requires TryFits(t, o, allow)
    ensures Behind(t.after, t.before)
  {
    hide Behind, ReadFrame;
    ReadFrameBehind(t.before, o, t.sequence);
    var r := ReadFrame(t.before, o, t.sequence);
    DrainBehind(r.rest);
    BehindMore(Drain(r.rest), r.rest, t.before);
  }

  /** With a window of more than one frame, every try that does not end the transfer takes exactly one whole frame
      from the line: the header and the wire bytes it announces. */
  lemma TriesTakeFrames(tries: seq<Try>, line: seq<Arrival>, now: seq<Arrival>, o: Object, k: nat)
    requires TriesSound(tries, line, now, o, false) && k < |tries| && tries[k].result != Fatal
    ensures var t := tries[k];
            var raw := Take(t.before, HEADER_BYTES).data;
            && |raw| == HEADER_BYTES && HeaderGood(raw, o, t.sequence)
            && BytesOn(t.before) == HEADER_BYTES + Parse(raw).wireLength + BytesOn(t.after)
  {
    hide Behind, ReadFrame, HeaderGood, Parse;
    assert TryFits(tries[k], o, false);
    ConsumesOneFrame(tries[k].before, o, tries[k].sequence);
  }

  // ----- the run as a whole, as a function of the line

  datatype Progress = Progress(line: seq<Arrival>, log: seq<Entry>)

  /** receive_v3_frame. */
  function Attempted(p: Progress, o: Object, sequence: nat, retry: bool, allow: bool): (Result, Progress)
    requires Sane(o)
  {
    Settled(p, ReadFrame(p.line, o, sequence), o, sequence, retry, allow)
  }

  /** What becomes of one reading. */
  function Settled(p: Progress, r: Reading, o: Object, sequence: nat, retry: bool, allow: bool): (Result, Progress)
    requires Sane(o)
  {
    match r
    case BadHeader(rest) => if allow then (TryAgain, p.(line := Drain(rest))) else (Fatal, p.(line := rest))
    case BadPayload(rest) => (TryAgain, p.(line := rest))
    case Delivered(offset, payload, rest) =>
      if offset % o.frameSize == 0 && (retry || !Taken(p.log, o.frameSize, offset / o.frameSize)) then
        (Accepted, Progress(rest, p.log + [Entry(sequence, offset, payload, retry)]))
      else (Fatal, p.(line := rest))
  }

  datatype Sweep = Sweep(ok: bool, progress: Progress, bitmap: nat)

  /** The first pass from frame i of the window on. */
  function FirstSweep(p: Progress, o: Object, base: nat, i: nat, count: nat, bitmap: nat, allow: bool): Sweep
    requires Sane(o)
    decreases count - i
  {
    if i >= count then Sweep(true, p, bitmap)
    else
      var a := Attempted(p, o, base + i, false, allow);
      if a.0 == Fatal then Sweep(false, a.1, bitmap)
      else FirstSweep(a.1, o, base, i + 1, count, if a.0 == Accepted then bitmap else With(bitmap, i), allow)
  }

  /** A retry round from frame i of the window on. */
  function RetrySweep(p: Progress, o: Object, base: nat, i: nat, count: nat, bitmap: nat, allow: bool): Sweep
    requires Sane(o)
    decreases count - i
  {
    if i >= count then Sweep(true, p, bitmap)
    else if !Has(bitmap, i) then RetrySweep(p, o, base, i + 1, count, bitmap, allow)
    else
      var a := Attempted(p, o, base + i, true, allow);
      if a.0 == Fatal then Sweep(false, a.1, bitmap)
      else RetrySweep(a.1, o, base, i + 1, count, if a.0 == Accepted then Dropped(bitmap, i) else bitmap, allow)
  }

  /** The acknowledgement behind a sweep. */
  function Acknowledged(p: Progress): (bool, Progress) {
    var c := Confirmed(p.line, 4);
    (c.0, p.(line := c.1))
  }

  /** The retry rounds of a window, from the acknowledgement in front of the first on. */
  function Rounds(p: Progress, o: Object, base: nat, count: nat, bitmap: nat, round: nat, allow: bool): (bool, Progress)
    requires Sane(o)
    decreases 9 - round, 1
  {
    var a := Acknowledged(p);
    if !a.0 then a
    else if bitmap == 0 then (true, a.1)
    else RoundsBehind(a.1, o, base, count, bitmap, round, allow)
  }

  /** The same from behind that acknowledgement on, while frames are missing. */
  function RoundsBehind(p: Progress, o: Object, base: nat, count: nat, bitmap: nat, round: nat, allow: bool): (bool, Progress)
    requires Sane(o)
    decreases 9 - round, 0
  {
    if round >= 8 then (false, p)
    else
      var s := RetrySweep(p, o, base, 0, count, bitmap, allow);
      if !s.ok then (false, s.progress) else Rounds(s.progress, o, base, count, s.bitmap, round + 1, allow)
  }

  function WindowRun(p: Progress, o: Object, base: nat, count: nat, allow: bool): (bool, Progress)
    requires Sane(o)
  {
    var s := FirstSweep(p, o, base, 0, count, 0, allow);
    if !s.ok then (false, s.progress) else Rounds(s.progress, o, base, count, s.bitmap, 0, allow)
  }

  function CountAt(base: nat, frameCount: nat, window: nat): nat
    requires base < frameCount
  {
    if frameCount - base > window then window else frameCount - base
  }

  /** The windows from `base` on; `patience` windows begin before the transfer limit passes. */
  function ObjectRun(p: Progress, o: Object, base: nat, frameCount: nat, window: nat, patience: nat): (bool, Progress)
    requires Sane(o) && window > 0
    decreases frameCount - base
  {
    if base >= frameCount then (true, p)
    else if patience == 0 then (false, p)
    else
      var w := WindowRun(p, o, base, CountAt(base, frameCount, window), window == 1);
      if !w.0 then w else ObjectRun(w.1, o, base + CountAt(base, frameCount, window), frameCount, window, patience - 1)
  }

  /** What the parameters of receive_v3_object must be. */
  predicate Admissible(o: Object, frameCount: nat, window: nat) {
    frameCount != 0 && Sane(o) && 1 <= window <= WINDOW_MAX
  }

  // ----- what one frame does to a sweep

  /** The reading ends the transfer: a refused header where boundaries are not recovered, or a frame off its boundary or, in
      the first pass, in a slot that is taken. */
  predicate Ends(r: Reading, log: seq<Entry>, o: Object, retry: bool, allow: bool)
    requires Sane(o)
  {
    (r.BadHeader? && !allow)
    || (r.Delivered? && (r.offset % o.frameSize != 0 || (!retry && Taken(log, o.frameSize, r.offset / o.frameSize))))
  }

  /** The line behind a reading that does not deliver. */
  function Resumed(r: Reading): seq<Arrival> {
    if r.BadHeader? then Drain(r.rest) else r.rest
  }

  /** One frame of the first pass: it ends the transfer, it is logged as a first transmission, or it is missing from here on. */
  lemma FirstPassFates(p: Progress, o: Object, base: nat, i: nat, count: nat, bitmap: nat, allow: bool)
    requires Sane(o) && i < count
    ensures var r, sweep := ReadFrame(p.line, o, base + i), FirstSweep(p, o, base, i, count, bitmap, allow);
            if Ends(r, p.log, o, false, allow) then !sweep.ok && sweep.progress.log == p.log
            else if r.Delivered? then
              sweep == FirstSweep(Progress(r.rest, p.log + [Entry(base + i, r.offset, r.payload, false)]), o, base, i + 1, count, bitmap, allow)
            else sweep == FirstSweep(p.(line := Resumed(r)), o, base, i + 1, count, With(bitmap, i), allow)
  {
    hide ReadFrame, Taken, With;
  }

  /** One place of a retry round: a frame that is not missing is not read; a missing one ends the transfer, is logged as a
      retransmission and no longer missing, or stays missing. */
  lemma RetryFates(p: Progress, o: Object, base: nat, i: nat, count: nat, bitmap: nat, allow: bool)
    requires Sane(o) && i < count
    ensures var r, sweep := ReadFrame(p.line, o, base + i), RetrySweep(p, o, base, i, count, bitmap, allow);
            if !Has(bitmap, i) then sweep == RetrySweep(p, o, base, i + 1, count, bitmap, allow)
            else if Ends(r, p.log, o, true, allow) then !sweep.ok && sweep.progress.log == p.log
            else if r.Delivered? then
              sweep == RetrySweep(Progress(r.rest, p.log + [Entry(base + i, r.offset, r.payload, true)]), o, base, i + 1, count,
                                  Dropped(bitmap, i), allow)
            else sweep == RetrySweep(p.(line := Resumed(r)), o, base, i + 1, count, bitmap, allow)
  {
    hide ReadFrame, Taken, Dropped, Has;
  }

  /** Boundaries are recovered in windows of one frame only: elsewhere a refused header at the head of a window is the end. */
  lemma HeaderLossIsFinal(p: Progress, o: Object, base: nat, frameCount: nat, window: nat, patience: nat)
    requires Sane(o) && window > 1 && base < frameCount && ReadFrame(p.line, o, base).BadHeader?
    ensures !ObjectRun(p, o, base, frameCount, window, patience).0
  {
    hide ReadFrame, Taken, With, Rounds, FirstSweep;
    FirstPassFates(p, o, base, 0, CountAt(base, frameCount, window), 0, false);
  }

  // ----- what one more entry changes

  /** Some accepted frame lies in this slot. */
  predicate Taken(log: seq<Entry>, frameSize: nat, slot: nat)
    requires frameSize > 0
  {
    exists k :: 0 <= k < |log| && log[k].offset / frameSize == slot
  }

  /** The log by itself, and the slot map as its record of slots. */
  ghost predicate LogSound(log: seq<Entry>, o: Object, slots: seq<byte>)
    requires |slots| == MAP_BYTES && Sane(o)
  {
    && Distinct(log) && Placed(log, o) && FirstPassClean(log)
    && forall s :: 0 <= s < SLOTS ==> (Marked(slots, s) <==> Taken(log, o.frameSize, s))
  }

  lemma TakenMore(log: seq<Entry>, e: Entry, frameSize: nat, slot: nat)
    requires frameSize > 0
    ensures Taken(log + [e], frameSize, slot) <==> Taken(log, frameSize, slot) || e.offset / frameSize == slot
  {
    assert (log + [e])[|log|] == e;
    if Taken(log, frameSize, slot) {
      var k :| 0 <= k < |log| && log[k].offset / frameSize == slot;
      assert (log + [e])[k] == log[k];
    }
  }

  lemma ReplayMore(fill: seq<byte>, log: seq<Entry>, e: Entry)
    ensures Replay(fill, log + [e])
         == if e.offset + |e.payload| <= |fill| then Overlay(Replay(fill, log), e.offset, e.payload) else Replay(fill, log)
  {
    assert (log + [e])[..|log|] == log;
  }

  lemma LogGrows(log: seq<Entry>, e: Entry, o: Object, slots: seq<byte>, slots': seq<byte>)
    requires Sane(o) && |slots| == MAP_BYTES && |slots'| == MAP_BYTES && LogSound(log, o, slots)
    requires !Seen(log, e.sequence)
    requires Markable(slots, e.offset, o.frameSize, e.retry)
    requires 0 < |e.payload| <= o.frameSize && e.offset + |e.payload| <= o.size
    requires forall s :: 0 <= s < SLOTS ==> (Marked(slots', s) <==> s == e.offset / o.frameSize || Marked(slots, s))
    ensures LogSound(log + [e], o, slots')
  {
    hide Marked, Taken;
    var more := log + [e];
    SlotTaken(log, o.frameSize);
    forall j, k | 0 <= j < k < |more|
      ensures more[j].sequence != more[k].sequence
      ensures !more[k].retry ==> Apart(more[j], more[k])
    {
      if k == |log| && !e.retry {
        SlotInRange(log[j].offset, o.frameSize);
        SlotsDisjoint(log[j].offset, |log[j].payload|, e.offset, |e.payload|, o.frameSize);
      }
    }
    forall s | 0 <= s < SLOTS
      ensures Marked(slots', s) <==> Taken(more, o.frameSize, s)
    {
      TakenMore(log, e, o.frameSize, s);
    }
  }

  lemma SlotTaken(log: seq<Entry>, frameSize: nat)
    requires frameSize > 0
    ensures forall j :: 0 <= j < |log| ==> Taken(log, frameSize, log[j].offset / frameSize)
  {}

  lemma SlotInRange(offset: nat, frameSize: nat)
    requires offset < FULL_IMAGE_SIZE && frameSize >= 1024
    ensures offset / frameSize < SLOTS
  {
    var q := offset / frameSize;
    assert offset == frameSize * q + offset % frameSize;
    if q >= SLOTS {
      MulOrder(frameSize, SLOTS, q);
    }
  }

  lemma AcksKeep(acks: seq<Ack>, log: seq<Entry>, e: Entry)
    requires AcksSound(acks, log)
    ensures AcksSound(acks, log + [e])
  {
    hide BitmapIs, AllBelow;
    forall a | 0 <= a < |acks|
      ensures (log + [e])[..acks[a].accepted] == log[..acks[a].accepted]
    {}
  }

  lemma ZeroHasNoBit(k: nat)
    requires k < 8
    ensures !TestBit(0, k)
  {
    var none := Bits(false, false, false, false, false, false, false, false);
    assert FromBits(none) == 0;
    hide ToBits, FromBits;
    BitsOfByte(none);
  }

  lemma NotSeenFrom(log: seq<Entry>, q: nat)
    requires NoneFrom(log, q)
    ensures !Seen(log, q)
  {}

  lemma NothingMissing(log: seq<Entry>, base: nat)
    requires NoneFrom(log, base)
    ensures BitmapIs(0, log, base, 0)
  {
    forall i: nat | i < WINDOW_MAX
      ensures !Has(0, i)
    {
      EmptyHas(i);
    }
  }

  lemma FirstPassStep(before: seq<Entry>, log: seq<Entry>, base: nat, i: nat, bitmap: nat, accepted: bool)
    requires i < WINDOW_MAX && BitmapIs(bitmap, before, base, i) && AllBelow(before, base) && NoneFrom(before, base + i)
    requires if accepted then |log| == |before| + 1 && log[..|before|] == before && log[|before|].sequence == base + i else log == before
    ensures BitmapIs(if accepted then bitmap else With(bitmap, i), log, base, i + 1)
    ensures AllBelow(log, base) && NoneFrom(log, base + i + 1)
  {
    hide Has, With;
    NotSeenFrom(before, base + i);
    assert accepted ==> log == before + [log[|before|]];
    forall q: nat
      ensures Seen(log, q) <==> Seen(before, q) || (accepted && q == base + i)
    {
      if accepted {
        SeenMore(before, log[|before|], q);
      }
    }
    var now := if accepted then bitmap else With(bitmap, i);
    forall j: nat | j < WINDOW_MAX
      ensures Has(now, j) <==> j < i + 1 && !Seen(log, base + j)
    {
      WithHas(bitmap, i, j);
      if j >= i {
        SeenAbove(before, base + i, base + j);
      }
    }
  }

  lemma SeenAbove(log: seq<Entry>, end: nat, q: nat)
    requires NoneFrom(log, end) && q >= end
    ensures !Seen(log, q)
  {}

  lemma RetryStep(before: seq<Entry>, log: seq<Entry>, base: nat, count: nat, bitmap: nat, bit: nat)
    requires bit < count <= WINDOW_MAX && BitmapIs(bitmap, before, base, count) && AllBelow(before, base) && NoneFrom(before, base + count)
    requires |log| == |before| + 1 && log[..|before|] == before && log[|before|].sequence == base + bit
    ensures BitmapIs(Dropped(bitmap, bit), log, base, count)
    ensures AllBelow(log, base) && NoneFrom(log, base + count)
  {
    hide Has, Dropped;
    assert log == before + [log[|before|]];
    forall q: nat
      ensures Seen(log, q) <==> Seen(before, q) || q == base + bit
    {
      SeenMore(before, log[|before|], q);
    }
    forall j: nat | j < WINDOW_MAX
      ensures Has(Dropped(bitmap, bit), j) <==> j < count && !Seen(log, base + j)
    {
      DroppedHas(bitmap, bit, j);
    }
  }

  /** The base moves on only when the bitmap is empty: then the whole window is in. */
  lemma WindowComplete(log: seq<Entry>, base: nat, count: nat)
    requires count <= WINDOW_MAX && BitmapIs(0, log, base, count) && AllBelow(log, base)
    ensures AllBelow(log, base + count)
  {
    forall q: nat | q < base + count
      ensures Seen(log, q)
    {
      if q >= base {
        EmptyHas(q - base);
        assert Has(0, q - base) <==> q - base < count && !Seen(log, base + (q - base));
      }
    }
  }
}
