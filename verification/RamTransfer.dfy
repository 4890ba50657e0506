// PMOSRAM v2 end to end: host and target joined by a serial line that loses and damages frames and loses replies.
module RamTransfer {
  import opened Bytes
  import opened Crc32
  import Sha256
  import RamHeader
  import opened RamLoader
  import opened RamSender

  /** The session: what is sent, where it is loaded, and the DRAM window before the transfer. */
  datatype Placement = Placement(job: Job, at: nat, ram: seq<byte>)

  type Session = c: Placement | c.at + |c.job.payload| <= |c.ram|
    witness Placement(Request([0], 64, 0), 0, [0])

  datatype System = System(target: Target, host: Host, toTarget: seq<Frame>, toHost: seq<Reply>)

  /** What the target took from the header that make_header built for this payload. */
  function PlanOf(c: Session): Plan
  {
    Plan(c.at, |c.job.payload|, c.job.chunk, Crc(c.job.payload), Sha256.Sum(c.job.payload))
  }

  /** The loop's parameters as the target copies them from an accepted header. */
  function PlanFrom(h: RamHeader.Header): Plan
    requires h.load >= RamHeader.RAM_START
  {
    Plan(h.load - RamHeader.RAM_START, h.total, h.chunk, h.imageCrc, h.imageSha)
  }

  /** The session's plan is what the header the host made for it tells the target. */
  lemma HeaderCarriesPlan(c: Session, entry: int)
    requires RamHeader.Make(c.job.payload, RamHeader.RAM_START + c.at, entry, c.job.chunk).Some?
    ensures var raw := RamHeader.Make(c.job.payload, RamHeader.RAM_START + c.at, entry, c.job.chunk).value;
            && RamHeader.Validate(RamHeader.Parse(raw), raw)
            && RamHeader.Parse(raw).load >= RamHeader.RAM_START
            && PlanFrom(RamHeader.Parse(raw)) == PlanOf(c)
  {
    hide Crc, Sha256.Sum, RamHeader.Parse, RamHeader.Make;
    RamHeader.MadeHeaderIsAccepted(c.job.payload, RamHeader.RAM_START + c.at, entry, c.job.chunk);
  }

  function Initial(c: Session): System
  {
    System(Target(c.ram, 0, 0, 0, 0, INITIAL, [], Receiving, []), Sending(0, 0), [FrameOf(c.job, 0)], [])
  }

  datatype Action =
    | TargetTakes
    | HostReads
    | HostTimesOut
    | LoseFrame(index: nat)
    | LoseReply(index: nat)
    | DamageFrame(index: nat, data: seq<byte>)
    | TargetGivesUp
    | HostGivesUp

  function Without<T>(s: seq<T>, i: nat): seq<T>
    requires i < |s|
  {
    s[..i] + s[i + 1..]
  }

  /** Damage keeps the length and is visible to the frame's CRC; BurstIsDamage gives the bursts that qualify. */
  predicate Damages(f: Frame, data: seq<byte>) {
    |data| == |f.data| && (Crc(data) == f.crc ==> data == f.data)
  }

  predicate Enabled(c: Session, sys: System, a: Action)
  {
    match a
    case TargetTakes => sys.target.phase == Receiving && sys.toTarget != [] && Sane(PlanOf(c), sys.target) && sys.toTarget[0].length == |sys.toTarget[0].data|
    case HostReads => Waiting(sys.host) && InStep(c.job, sys.host) && sys.toHost != []
    case HostTimesOut => Waiting(sys.host) && InStep(c.job, sys.host)
    case LoseFrame(i) => i < |sys.toTarget|
    case LoseReply(i) => i < |sys.toHost|
    case DamageFrame(i, data) => i < |sys.toTarget| && Damages(sys.toTarget[i], data)
    case TargetGivesUp => sys.target.phase == Receiving
    case HostGivesUp => Waiting(sys.host)
  }

  function HostDoes(c: Session, sys: System, e: Event): System
    requires Waiting(sys.host) && InStep(c.job, sys.host)
  {
    var r := OnEvent(c.job, sys.host, e);
    sys.(host := r.0, toTarget := sys.toTarget + r.1)
  }

  function Step(c: Session, sys: System, a: Action): System
    requires Enabled(c, sys, a)
  {
    match a
    case TargetTakes =>
      var r := OnFrame(PlanOf(c), sys.target, sys.toTarget[0]);
      sys.(target := r.0, toTarget := sys.toTarget[1..], toHost := sys.toHost + r.1)
    case HostReads => HostDoes(c, sys.(toHost := sys.toHost[1..]), Line(sys.toHost[0]))
    case HostTimesOut => HostDoes(c, sys, Timeout)
    case LoseFrame(i) => sys.(toTarget := Without(sys.toTarget, i))
    case LoseReply(i) => sys.(toHost := Without(sys.toHost, i))
    case DamageFrame(i, data) => sys.(toTarget := sys.toTarget[i := sys.toTarget[i].(data := data)])
    case TargetGivesUp => sys.(target := sys.target.(phase := Aborted), toHost := sys.toHost + [Abort])
    case HostGivesUp => sys.(host := Failed)
  }

  /** A run: every action is possible where it happens. */
  predicate Runs(c: Session, sys: System, actions: seq<Action>)
    decreases actions
  {
    actions == [] || (Enabled(c, sys, actions[0]) && Runs(c, Step(c, sys, actions[0]), actions[1..]))
  }

  function Run(c: Session, sys: System, actions: seq<Action>): System
    requires Runs(c, sys, actions)
    decreases actions
  {
    if actions == [] then sys else Run(c, Step(c, sys, actions[0]), actions[1..])
  }

  // ----- the invariant

  function Upto(n: nat): seq<nat> {
    seq(n, i => i)
  }

  /** The target holds exactly the first `expected` chunks, each written once and in order. */
  predicate Contents(c: Session, t: Target)
  {
    var got := Offset(c.job, t.expected);
    && t.expected <= t.received == got
    && t.ram == Overlay(c.ram, c.at, c.job.payload[..got])
    && t.imageCrc == Absorb(INITIAL, c.job.payload[..got])
    && t.hashed == c.job.payload[..got]
    && t.written == Upto(t.expected)
    && (t.expected > 0 ==> Latest(c.job, t))
  }

  /** The duplicate check compares with the chunk accepted last. */
  predicate Latest(j: Job, t: Target)
    requires t.expected > 0
  {
    && HasChunk(j, t.expected - 1)
    && t.previousLength == |Chunk(j, t.expected - 1)|
    && t.previousCrc == Crc(Chunk(j, t.expected - 1))
  }

  predicate Loaded(c: Session, t: Target)
  {
    && Contents(c, t)
    && (t.phase == Receiving ==> t.received < |c.job.payload|)
    && (t.phase == Running ==> t.received == |c.job.payload|)
  }

  /** Frames on the line belong to chunks the host has reached, and pass their CRC only if they are intact. */
  predicate FrameSound(j: Job, f: Frame, reached: nat)
  {
    && f.sequence <= reached && HasChunk(j, f.sequence)
    && f.magic == FRAME_MAGIC
    && f.length == |f.data| == |Chunk(j, f.sequence)|
    && f.crc == Crc(Chunk(j, f.sequence))
    && (Crc(f.data) == f.crc ==> f.data == Chunk(j, f.sequence))
  }

  predicate ReplySound(r: Reply, t: Target) {
    match r
    case Ack(k) => k < t.expected
    case Nack(k) => k <= t.expected
    case Verified => t.phase == Running
    case Exec => t.phase == Running
    case Abort => t.phase == Aborted
  }

  /** The highest sequence number the host has sent so far. */
  predicate Reached(c: Session, sys: System, reached: nat) {
    match sys.host
    case Sending(s, _) => reached == s && s <= sys.target.expected <= s + 1
    case AwaitVerified => reached == sys.target.expected - 1
    case AwaitExec => reached == sys.target.expected - 1 && sys.target.phase == Running
    case Done => reached == sys.target.expected - 1 && sys.target.phase == Running
    case Failed => reached <= sys.target.expected <= reached + 1
  }

  ghost predicate InvAt(c: Session, sys: System, reached: nat)
  {
    && Loaded(c, sys.target)
    && InStep(c.job, sys.host)
    && (sys.host == AwaitVerified ==> Offset(c.job, sys.target.expected) == |c.job.payload|)
    && (forall i :: 0 <= i < |sys.toHost| ==> ReplySound(sys.toHost[i], sys.target))
    && Reached(c, sys, reached)
    && (forall i :: 0 <= i < |sys.toTarget| ==> FrameSound(c.job, sys.toTarget[i], reached))
  }

  ghost predicate Inv(c: Session, sys: System)
  {
    exists reached :: InvAt(c, sys, reached)
  }

  // ----- one step keeps it

  /** A sound frame at the target: the chunk is stored once, duplicates and damage change nothing, and the image checks pass. */
  lemma OnFrameKeeps(c: Session, t: Target, f: Frame, reached: nat)
    requires Loaded(c, t) && t.phase == Receiving
    requires FrameSound(c.job, f, reached) && reached <= t.expected <= reached + 1
    ensures var r := OnFrame(PlanOf(c), t, f);
            && Loaded(c, r.0)
            && r.0.phase != Aborted
            && t.expected <= r.0.expected <= reached + 1
            && (forall i :: 0 <= i < |r.1| ==> ReplySound(r.1[i], r.0))
            && (forall i :: 0 <= i < |r.1| && r.1[i].Nack? ==> r.1 == [Nack(t.expected)] && r.0 == t)
  {
    hide Crc, Absorb, Overlay, Sha256.Sum, Chunk, Offset, HasChunk, Contents, Store, Finish;
    ContentsMeans(c, t);
    ChunkFacts(c.job, f.sequence);
    if f.sequence == t.expected && Crc(f.data) == f.crc {
      StoreKeeps(c, t, f);
      FinishKeeps(c, Store(PlanOf(c), t, f));
    }
  }

  lemma RoomForChunk(c: Session, t: Target, f: Frame)
    requires Loaded(c, t) && t.phase == Receiving
    requires HasChunk(c.job, t.expected) && f.data == Chunk(c.job, t.expected) && f.length == |f.data|
    ensures Sane(PlanOf(c), t) && 0 < f.length <= PlanOf(c).total - t.received
    ensures t.received + f.length == Offset(c.job, t.expected + 1)
  {
    hide Crc, Absorb, Sha256.Sum, Chunk, HasChunk, Upto, Overlay, Offset;
    ChunkFacts(c.job, t.expected);
  }

  lemma StoreKeeps(c: Session, t: Target, f: Frame)
    requires Loaded(c, t) && t.phase == Receiving
    requires HasChunk(c.job, t.expected) && f.sequence == t.expected && f.data == Chunk(c.job, t.expected)
    requires f.length == |f.data| && f.crc == Crc(f.data)
    ensures Sane(PlanOf(c), t) && 0 < f.length <= PlanOf(c).total - t.received
    ensures Contents(c, Store(PlanOf(c), t, f))
    ensures Store(PlanOf(c), t, f).phase == Receiving && Store(PlanOf(c), t, f).expected == t.expected + 1
  {
    hide Crc, Absorb, Chunk, Offset, HasChunk, Upto, Overlay, PlanOf, Sane;
    RoomForChunk(c, t, f);
    ChunkFacts(c.job, t.expected);
    PlanNumbers(c);
    var before := c.job.payload[..t.received];
    StoredBytes(c.ram, c.at, before, f.data, t);
    ChunkAppends(c.job, t.expected);
    UptoMore(t.expected);
    var stored := Store(PlanOf(c), t, f);
    assert Latest(c.job, stored);
    assert before + f.data == c.job.payload[..stored.received];
  }

  lemma StoredBytes(ram: seq<byte>, at: nat, before: seq<byte>, data: seq<byte>, t: Target)
    requires at + |before| + |data| <= |ram|
    requires t.ram == Overlay(ram, at, before) && t.imageCrc == Absorb(INITIAL, before) && t.hashed == before
    ensures Overlay(t.ram, at + |before|, data) == Overlay(ram, at, before + data)
    ensures Absorb(t.imageCrc, data) == Absorb(INITIAL, before + data)
    ensures t.hashed + data == before + data
  {
    hide Absorb, Overlay;
    OverlayJoin(ram, at, before, data);
    AbsorbConcat(INITIAL, before, data);
  }

  lemma PlanNumbers(c: Session)
    ensures PlanOf(c).at == c.at && PlanOf(c).total == |c.job.payload|
  {}

  lemma ContentsMeans(c: Session, t: Target)
    requires Contents(c, t)
    ensures t.expected <= t.received <= |c.job.payload|
    ensures t.expected > 0 ==> Latest(c.job, t)
    ensures |t.ram| == |c.ram|
  {}

  lemma UptoMore(n: nat)
    ensures Upto(n) + [n] == Upto(n + 1)
  {}

  /** When the last chunk is in, both whole-image checks succeed. */
  lemma FinishKeeps(c: Session, t: Target)
    requires Contents(c, t) && t.phase == Receiving
    ensures var r := Finish(PlanOf(c), t);
            && Loaded(c, r.0)
            && r == if t.received == |c.job.payload| then (t.(phase := Running), [Verified, Exec]) else (t, [])
  {
    hide Crc, Absorb, Sha256.Sum, Chunk, Offset, HasChunk, Overlay, Upto;
    if t.received == |c.job.payload| {
      assert c.job.payload[..t.received] == c.job.payload;
      CrcIsAbsorb(c.job.payload);
    }
  }

  lemma CrcIsAbsorb(data: seq<byte>)
    ensures Crc(data) == Xor(INITIAL, Absorb(INITIAL, data))
  {}

  lemma NothingLoaded(c: Session)
    ensures Contents(c, Initial(c).target)
  {
    hide Crc, Sha256.Sum, Offset, Chunk, FrameOf, HasChunk;
    OffsetZero(c.job);
    assert c.job.payload[..0] == [];
    assert Overlay(c.ram, c.at, []) == c.ram;
    assert Upto(0) == [];
  }

  lemma InitialInv(c: Session)
    ensures Inv(c, Initial(c))
  {
    hide Crc, Contents, Sha256.Sum, Overlay, Upto, FrameOf, Chunk, FrameSound, Offset;
    SoundFrame(c.job, 0);
    NothingLoaded(c);
    ChunkFacts(c.job, 0);
    OffsetZero(c.job);
    var sys := Initial(c);
    assert Loaded(c, sys.target);
    assert InvAt(c, sys, 0);
  }

  /** Frames sent for chunk k extend a sound line. */
  lemma SendInv(c: Session, sys: System, k: nat, reached: nat)
    requires HasChunk(c.job, k) && reached <= k
    requires forall i :: 0 <= i < |sys.toTarget| ==> FrameSound(c.job, sys.toTarget[i], reached)
    ensures var frames := sys.toTarget + [FrameOf(c.job, k)];
            forall i :: 0 <= i < |frames| ==> FrameSound(c.job, frames[i], k)
  {
    hide FrameOf, Chunk, HasChunk, Crc;
    SoundFrame(c.job, k);
  }

  /** The host never goes back, and leaves a chunk only when the target has it. */
  lemma HostStepInv(c: Session, sys: System, e: Event, reached: nat) returns (next: nat)
    requires InvAt(c, sys, reached) && Waiting(sys.host)
    requires e.Line? ==> ReplySound(e.reply, sys.target)
    ensures InvAt(c, HostDoes(c, sys, e), next)
  {
    hide Crc, Absorb, Overlay, Sha256.Sum, Chunk, PlanOf, FrameOf, FrameSound, Contents, HasChunk, Position, Upto;
    var after := HostDoes(c, sys, e);
    next := if after.host.Sending? then after.host.s else reached;
    assert sys.toTarget + [] == sys.toTarget;
    if sys.host.Sending? {
      HostMoves(c, sys, e, reached);
      if after.host.Sending? && after.toTarget != sys.toTarget {
        SendInv(c, sys, next, reached);
      }
    }
  }

  /** Leaving chunk s means the target expects s + 1, and at the end that it has everything. */
  lemma HostMoves(c: Session, sys: System, e: Event, reached: nat)
    requires InvAt(c, sys, reached) && sys.host.Sending?
    requires e.Line? ==> ReplySound(e.reply, sys.target)
    ensures var after := OnEvent(c.job, sys.host, e).0;
            var s := sys.host.s;
            && (after.Sending? && after.s != s ==> after.s == s + 1 && sys.target.expected == s + 1)
            && (after.AwaitVerified? ==> sys.target.expected == s + 1 && Offset(c.job, s + 1) == |c.job.payload|)
            && (after.AwaitExec? ==> sys.target.expected == s + 1 && sys.target.phase == Running)
            && after != Done
  {
    hide Crc, Absorb, Overlay, Sha256.Sum, Chunk, PlanOf, FrameOf, FrameSound, Position, Upto;
    ChunkFacts(c.job, sys.host.s);
  }

  lemma SoundFrame(j: Job, k: nat)
    requires HasChunk(j, k)
    ensures FrameSound(j, FrameOf(j, k), k)
  {}

  lemma TargetStepInv(c: Session, sys: System, reached: nat)
    requires InvAt(c, sys, reached) && Enabled(c, sys, TargetTakes)
    ensures InvAt(c, Step(c, sys, TargetTakes), reached)
  {
    hide Crc, Absorb, Overlay, Sha256.Sum, Chunk, OnFrame, FrameSound, Loaded, HasChunk;
    assert FrameSound(c.job, sys.toTarget[0], reached);
    TargetIsBehind(c, sys, reached);
    OnFrameKeeps(c, sys.target, sys.toTarget[0], reached);
    RepliesStay(sys.toHost, sys.target, OnFrame(PlanOf(c), sys.target, sys.toTarget[0]).0);
  }

  /** What the target does with the next frame, in every case: a damaged frame, or one of an earlier chunk than the last,
      is answered with a NACK for the chunk it expects; a repetition of the last chunk is acknowledged again; the expected
      chunk is stored and acknowledged, and the last one of all is followed by the two final lines. */
  lemma TargetAnswers(c: Session, sys: System)
    requires Inv(c, sys) && Enabled(c, sys, TargetTakes)
    ensures var t, f, after := sys.target, sys.toTarget[0], Step(c, sys, TargetTakes);
            var damaged := f.data != Chunk(c.job, f.sequence);
            && f.sequence <= t.expected && after.toTarget == sys.toTarget[1..] && after.host == sys.host
            && (damaged || f.sequence + 1 < t.expected ==> after.target == t && after.toHost == sys.toHost + [Nack(t.expected)])
            && (!damaged && f.sequence + 1 == t.expected ==> after.target == t && after.toHost == sys.toHost + [Ack(f.sequence)])
            && (!damaged && f.sequence == t.expected ==>
                  && after.target.expected == t.expected + 1
                  && after.toHost == sys.toHost + ([Ack(f.sequence)]
                                   + (if after.target.received == |c.job.payload| then [Verified, Exec] else [])))
  {
    hide Loaded, FrameSound, OnFrame, ReplySound, Offset, HasChunk, Chunk;
    var reached :| InvAt(c, sys, reached);
    TargetIsBehind(c, sys, reached);
    var f := sys.toTarget[0];
    assert FrameSound(c.job, f, reached);
    FrameAnswered(c, sys.target, f, reached);
  }

  lemma FrameAnswered(c: Session, t: Target, f: Frame, reached: nat)
    requires Loaded(c, t) && t.phase == Receiving && Sane(PlanOf(c), t)
    requires FrameSound(c.job, f, reached) && reached <= t.expected <= reached + 1
    ensures var r := OnFrame(PlanOf(c), t, f);
            var damaged := f.data != Chunk(c.job, f.sequence);
            && f.sequence <= t.expected
            && (damaged || f.sequence + 1 < t.expected ==> r == (t, [Nack(t.expected)]))
            && (!damaged && f.sequence + 1 == t.expected ==> r == (t, [Ack(f.sequence)]))
            && (!damaged && f.sequence == t.expected ==>
                  && r.0.expected == t.expected + 1
                  && r.1 == [Ack(f.sequence)] + (if r.0.received == |c.job.payload| then [Verified, Exec] else []))
  {
    hide Crc, Absorb, Overlay, Sha256.Sum, Chunk, Offset, HasChunk, Contents, Store, Finish;
    ContentsMeans(c, t);
    ChunkFacts(c.job, f.sequence);
    if f.sequence == t.expected && Crc(f.data) == f.crc {
      StoreKeeps(c, t, f);
      FinishKeeps(c, Store(PlanOf(c), t, f));
    }
  }

  /** Retransmission: a frame damaged in its data costs one attempt and no waiting time. The target asks for it by its
      own number, and the host reads that and sends the frame again, intact. */
  lemma DamagedFrameIsRepeated(c: Session, sys: System)
    requires Inv(c, sys) && sys.target.phase == Receiving
    requires sys.host.Sending? && sys.host.attempt < c.job.retries && sys.target.expected == sys.host.s
    requires |sys.toTarget| == 1 && sys.toTarget[0].sequence == sys.host.s && sys.toTarget[0].data != Chunk(c.job, sys.host.s)
    requires sys.toHost == []
    ensures Runs(c, sys, [TargetTakes, HostReads])
    ensures Run(c, sys, [TargetTakes, HostReads])
         == sys.(host := Sending(sys.host.s, sys.host.attempt + 1), toTarget := [FrameOf(c.job, sys.host.s)])
    ensures Intact(c.job, FrameOf(c.job, sys.host.s), sys.host.s)
  {
    hide Inv, OnFrame, FrameOf, HasChunk, Chunk, Intact, Sane, Step, Enabled;
    InvInStep(c, sys);
    FrameCanBeTaken(c, sys);
    TargetAnswers(c, sys);
    One(c, sys, TargetTakes);
    hide Run, Runs;
    var taken := Step(c, sys, TargetTakes);
    assert sys.toTarget[1..] == [] && [] + [Nack(sys.host.s)] == [Nack(sys.host.s)];
    assert taken == sys.(toTarget := [], toHost := [Nack(sys.host.s)]);
    NackRead(c, taken);
    One(c, taken, HostReads);
    Then(c, sys, [TargetTakes], [HostReads]);
    assert [TargetTakes] + [HostReads] == [TargetTakes, HostReads];
    FrameIsIntact(c.job, sys.host.s);
  }

  lemma FrameCanBeTaken(c: Session, sys: System)
    requires Inv(c, sys) && sys.target.phase == Receiving && sys.toTarget != []
    ensures Enabled(c, sys, TargetTakes)
  {
    hide Crc, Absorb, Overlay, Sha256.Sum, Chunk, HasChunk, Upto, ReplySound, InStep;
    var reached :| InvAt(c, sys, reached);
    assert FrameSound(c.job, sys.toTarget[0], reached);
  }

  lemma NackRead(c: Session, sys: System)
    requires sys.host.Sending? && InStep(c.job, sys.host) && sys.host.attempt < c.job.retries
    requires sys.toHost == [Nack(sys.host.s)] && sys.toTarget == []
    ensures Enabled(c, sys, HostReads)
    ensures Step(c, sys, HostReads)
         == sys.(host := Sending(sys.host.s, sys.host.attempt + 1), toTarget := [FrameOf(c.job, sys.host.s)], toHost := [])
  {
    hide FrameOf, HasChunk;
    assert [] + [FrameOf(c.job, sys.host.s)] == [FrameOf(c.job, sys.host.s)];
  }

  lemma TargetIsBehind(c: Session, sys: System, reached: nat)
    requires InvAt(c, sys, reached) && sys.target.phase == Receiving
    ensures sys.host.Sending? || sys.host == Failed
    ensures reached <= sys.target.expected <= reached + 1
  {}

  lemma RepliesStay(replies: seq<Reply>, t: Target, u: Target)
    requires t.phase == Receiving && t.expected <= u.expected
    requires forall i :: 0 <= i < |replies| ==> ReplySound(replies[i], t)
    ensures forall i :: 0 <= i < |replies| ==> ReplySound(replies[i], u)
  {}

  lemma LineStepInv(c: Session, sys: System, a: Action, reached: nat)
    requires InvAt(c, sys, reached) && Enabled(c, sys, a)
    requires a.LoseFrame? || a.LoseReply? || a.DamageFrame?
    ensures InvAt(c, Step(c, sys, a), reached)
  {
    hide Crc, Chunk, Loaded, InStep, HasChunk, Offset, ReplySound;
  }

  lemma GiveUpInv(c: Session, sys: System, a: Action, reached: nat)
    requires InvAt(c, sys, reached) && Enabled(c, sys, a)
    requires a.TargetGivesUp? || a.HostGivesUp?
    ensures InvAt(c, Step(c, sys, a), reached)
  {
    hide Crc, Chunk, HasChunk, Offset, FrameSound, Overlay, Absorb;
    if a.TargetGivesUp? {
      RepliesStay(sys.toHost, sys.target, sys.target.(phase := Aborted));
    }
  }

  /** Every action of either side and of the line keeps the invariant. */
  lemma StepInv(c: Session, sys: System, a: Action)
    requires Inv(c, sys) && Enabled(c, sys, a)
    ensures Inv(c, Step(c, sys, a))
  {
    hide InvAt, OnFrame, OnEvent, HostDoes;
    var reached :| InvAt(c, sys, reached);
    if a.TargetTakes? {
      TargetStepInv(c, sys, reached);
    } else if a.HostReads? {
      HostReadInv(c, sys, reached);
    } else if a.HostTimesOut? {
      var next := HostStepInv(c, sys, Timeout, reached);
      hide InvAt, HostDoes;
    } else if a.TargetGivesUp? || a.HostGivesUp? {
      GiveUpInv(c, sys, a, reached);
    } else {
      LineStepInv(c, sys, a, reached);
    }
  }

  lemma HostReadInv(c: Session, sys: System, reached: nat)
    requires InvAt(c, sys, reached) && Enabled(c, sys, HostReads)
    ensures Inv(c, Step(c, sys, HostReads))
  {
    hide Loaded, FrameSound, OnEvent, HasChunk, Offset;
    var next := HostStepInv(c, sys.(toHost := sys.toHost[1..]), Line(sys.toHost[0]), reached);
  }

  lemma {:induction false} RunInv(c: Session, sys: System, actions: seq<Action>)
    requires Inv(c, sys) && Runs(c, sys, actions)
    ensures Inv(c, Run(c, sys, actions))
    decreases actions
  {
    hide Inv, Step, Enabled;
    if actions != [] {
      StepInv(c, sys, actions[0]);
      RunInv(c, Step(c, sys, actions[0]), actions[1..]);
    }
  }

  // ----- what holds over all runs

  /** In every reachable state the target holds exactly the first `expected` chunks, each written once and in order;
      nothing else in the DRAM window has changed, and the host is at the same chunk or one behind. */
  lemma EveryReachableState(c: Session, actions: seq<Action>)
    requires Runs(c, Initial(c), actions)
    ensures var sys := Run(c, Initial(c), actions);
            var t := sys.target;
            && t.received == Offset(c.job, t.expected)
            && t.ram == Overlay(c.ram, c.at, c.job.payload[..t.received])
            && t.written == Upto(t.expected)
            && (sys.host.Sending? ==> t.expected == sys.host.s || t.expected == sys.host.s + 1)
  {
    InitialInv(c);
    RunInv(c, Initial(c), actions);
  }

  /** The session can only end well for the host when the target runs the whole payload, with both checksums right. */
  lemma DoneMeansLoaded(c: Session, actions: seq<Action>)
    requires Runs(c, Initial(c), actions)
    ensures var sys := Run(c, Initial(c), actions);
            sys.host == Done || sys.target.phase == Running ==>
              && sys.target.phase == Running
              && sys.target.ram == Overlay(c.ram, c.at, c.job.payload)
              && Xor(INITIAL, sys.target.imageCrc) == Crc(c.job.payload)
              && Sha256.Sum(sys.target.hashed) == Sha256.Sum(c.job.payload)
  {
    hide Run, Runs, Initial, Crc, Absorb, Overlay, Sha256.Sum, Offset, Upto, FrameSound;
    InitialInv(c);
    RunInv(c, Initial(c), actions);
    var sys := Run(c, Initial(c), actions);
    var reached :| InvAt(c, sys, reached);
    if sys.target.phase == Running {
      assert c.job.payload[..|c.job.payload|] == c.job.payload;
      CrcIsAbsorb(c.job.payload);
    }
  }

  /** Only the time-outs abort a session: no frame that travelled this line, damaged or repeated, makes the target give up. */
  lemma NoFrameAborts(c: Session, actions: seq<Action>)
    requires Runs(c, Initial(c), actions) && Enabled(c, Run(c, Initial(c), actions), TargetTakes)
    ensures Step(c, Run(c, Initial(c), actions), TargetTakes).target.phase != Aborted
  {
    InitialInv(c);
    RunInv(c, Initial(c), actions);
    var sys := Run(c, Initial(c), actions);
    var reached :| InvAt(c, sys, reached);
    TargetIsBehind(c, sys, reached);
    OnFrameKeeps(c, sys.target, sys.toTarget[0], reached);
  }

  // ----- no reachable state is a dead end while an attempt is left

  lemma {:induction false} Then(c: Session, sys: System, a: seq<Action>, b: seq<Action>)
    requires Runs(c, sys, a) && Runs(c, Run(c, sys, a), b)
    ensures Runs(c, sys, a + b) && Run(c, sys, a + b) == Run(c, Run(c, sys, a), b)
    decreases a
  {
    hide Step, Enabled;
    if a == [] {
      assert a + b == b;
    } else {
      assert (a + b)[0] == a[0] && (a + b)[1..] == a[1..] + b;
      Then(c, Step(c, sys, a[0]), a[1..], b);
    }
  }

  lemma One(c: Session, sys: System, a: Action)
    requires Enabled(c, sys, a)
    ensures Runs(c, sys, [a]) && Run(c, sys, [a]) == Step(c, sys, a)
  {
    hide Step, Enabled;
    assert [a][1..] == [];
  }

  /** s without n elements from position at on. */
  function Cut<T>(s: seq<T>, at: nat, n: nat): seq<T>
    requires at + n <= |s|
  {
    s[..at] + s[at + n..]
  }

  lemma CutOne<T>(s: seq<T>, at: nat, n: nat)
    requires 0 < n && at + n <= |s|
    ensures |Without(s, at)| == |s| - 1
    ensures Cut(Without(s, at), at, n - 1) == Cut(s, at, n)
  {
    var w := Without(s, at);
    assert w[..at] == s[..at];
    assert w[at + n - 1..] == s[at + n..];
  }

  lemma CutNothing<T>(s: seq<T>, at: nat)
    requires at <= |s|
    ensures Cut(s, at, 0) == s
  {}

  /** The line may lose any stretch of the frames it carries. */
  lemma {:induction false} LoseFrames(c: Session, sys: System, at: nat, n: nat) returns (actions: seq<Action>)
    requires at + n <= |sys.toTarget|
    ensures Runs(c, sys, actions) && Run(c, sys, actions) == sys.(toTarget := Cut(sys.toTarget, at, n))
    decreases n
  {
    hide Cut, Without;
    if n == 0 {
      actions := [];
      CutNothing(sys.toTarget, at);
    } else {
      One(c, sys, LoseFrame(at));
      CutOne(sys.toTarget, at, n);
      var rest := LoseFrames(c, Step(c, sys, LoseFrame(at)), at, n - 1);
      Then(c, sys, [LoseFrame(at)], rest);
      actions := [LoseFrame(at)] + rest;
    }
  }

  /** And any number of replies, from the front. */
  lemma {:induction false} LoseReplies(c: Session, sys: System, n: nat) returns (actions: seq<Action>)
    requires n <= |sys.toHost|
    ensures Runs(c, sys, actions) && Run(c, sys, actions) == sys.(toHost := sys.toHost[n..])
    decreases n
  {
    if n == 0 {
      actions := [];
    } else {
      One(c, sys, LoseReply(0));
      FrontGone(sys.toHost, n);
      hide Without;
      var rest := LoseReplies(c, Step(c, sys, LoseReply(0)), n - 1);
      Then(c, sys, [LoseReply(0)], rest);
      actions := [LoseReply(0)] + rest;
    }
  }

  lemma FrontGone(s: seq<Reply>, n: nat)
    requires 0 < n <= |s|
    ensures |Without(s, 0)| == |s| - 1 && Without(s, 0)[n - 1..] == s[n..]
  {}

  lemma Middle<T>(s: seq<T>, at: nat, n: nat)
    requires at + n <= |s|
    ensures |Cut(s, at + n, |s| - (at + n))| == at + n
    ensures Cut(Cut(s, at + n, |s| - (at + n)), 0, at) == s[at..at + n]
  {}

  /** Everything on the line is lost but one stretch of frames. */
  lemma Quiet(c: Session, sys: System, at: nat, n: nat) returns (actions: seq<Action>)
    requires at + n <= |sys.toTarget|
    ensures Runs(c, sys, actions) && Run(c, sys, actions) == sys.(toTarget := sys.toTarget[at..at + n], toHost := [])
  {
    hide Cut, Run, Runs;
    Middle(sys.toTarget, at, n);
    var behind := LoseFrames(c, sys, at + n, |sys.toTarget| - (at + n));
    var sys1 := Run(c, sys, behind);
    var front := LoseFrames(c, sys1, 0, at);
    Then(c, sys, behind, front);
    var sys2 := Run(c, sys, behind + front);
    var replies := LoseReplies(c, sys2, |sys2.toHost|);
    Then(c, sys, behind + front, replies);
    actions := behind + front + replies;
  }

  /** The frame is alone on the line and the target has the chunk already or is waiting for it. */
  predicate Poised(c: Session, sys: System) {
    && sys.host.Sending? && InStep(c.job, sys.host)
    && Loaded(c, sys.target) && sys.target.phase == Receiving
    && (sys.target.expected == sys.host.s || sys.target.expected == sys.host.s + 1)
    && sys.toTarget == [FrameOf(c.job, sys.host.s)] && sys.toHost == []
  }

  /** The target acknowledges the frame, whether it is new or a repetition. */
  lemma TakesIt(c: Session, t: Target, s: nat)
    requires HasChunk(c.job, s) && Loaded(c, t) && t.phase == Receiving && (t.expected == s || t.expected == s + 1)
    ensures Sane(PlanOf(c), t)
    ensures var r := OnFrame(PlanOf(c), t, FrameOf(c.job, s));
            && Loaded(c, r.0) && r.0.expected == s + 1
            && (HasChunk(c.job, s + 1) ==> r.0.phase == Receiving && r.1 == [Ack(s)])
            && (!HasChunk(c.job, s + 1) ==> r.0.phase == Running && r.1 == [Ack(s), Verified, Exec])
  {
    hide Crc, Absorb, Overlay, Sha256.Sum, Chunk, Offset, HasChunk, Contents, Store, Finish, Upto;
    ContentsMeans(c, t);
    ChunkFacts(c.job, s);
    PlanNumbers(c);
    var f := FrameOf(c.job, s);
    if t.expected == s {
      StoreKeeps(c, t, f);
      var stored := Store(PlanOf(c), t, f);
      FinishKeeps(c, stored);
      WholeIsLast(c, stored, s);
    } else {
      WholeIsLast(c, t, s);
    }
  }

  lemma WholeIsLast(c: Session, t: Target, s: nat)
    requires HasChunk(c.job, s) && Contents(c, t) && t.expected == s + 1
    ensures t.received == |c.job.payload| <==> !HasChunk(c.job, s + 1)
  {
    hide Crc, Absorb, Overlay, Chunk, Upto;
    ChunkFacts(c.job, s);
  }

  /** The last chunk is in, and its acknowledgement and the two final lines are on their way. */
  predicate Concluding(c: Session, sys: System) {
    && sys.host.Sending? && InStep(c.job, sys.host) && !HasChunk(c.job, sys.host.s + 1)
    && sys.target.phase == Running && sys.toHost == [Ack(sys.host.s), Verified, Exec]
  }

  /** From a poised state the transfer can run to its conclusion without another repetition. */
  lemma {:induction false} RunsToConclusion(c: Session, sys: System) returns (actions: seq<Action>)
    requires Poised(c, sys)
    ensures Runs(c, sys, actions) && Concluding(c, Run(c, sys, actions))
    ensures Run(c, sys, actions).host.attempt <= sys.host.attempt
    decreases |c.job.payload| - sys.host.s
  {
    hide Crc, OnFrame, FrameOf, HasChunk, Contents, PlanOf, Position, Offset, Chunk;
    var s := sys.host.s;
    TakesIt(c, sys.target, s);
    FrameWhole(c.job, s);
    ChunkFacts(c.job, s);
    One(c, sys, TargetTakes);
    var taken := Step(c, sys, TargetTakes);
    if HasChunk(c.job, s + 1) {
      One(c, taken, HostReads);
      var read := Step(c, taken, HostReads);
      Then(c, sys, [TargetTakes], [HostReads]);
      var first := [TargetTakes] + [HostReads];
      assert Poised(c, read);
      var rest := RunsToConclusion(c, read);
      Then(c, sys, first, rest);
      actions := first + rest;
    } else {
      actions := [TargetTakes];
    }
  }

  /** From a poised state the transfer can run to its end. */
  lemma RunsToTheEnd(c: Session, sys: System) returns (actions: seq<Action>)
    requires Poised(c, sys)
    ensures Runs(c, sys, actions) && Run(c, sys, actions).host == Done
  {
    hide OnFrame, FrameOf, HasChunk, Loaded, Run, Runs, Step, Enabled, Poised;
    var first := RunsToConclusion(c, sys);
    var last := Run(c, sys, first);
    LastAckRead(c, last);
    One(c, last, HostReads);
    var rest := ReadsFinalLines(c, Step(c, last, HostReads), 0, 1);
    Then(c, last, [HostReads], rest);
    Then(c, sys, first, [HostReads] + rest);
    actions := first + ([HostReads] + rest);
  }

  lemma LastAckRead(c: Session, sys: System)
    requires Concluding(c, sys)
    ensures Enabled(c, sys, HostReads)
    ensures Step(c, sys, HostReads).host == AwaitVerified && Step(c, sys, HostReads).toHost == [Verified, Exec]
  {
    hide FrameOf, HasChunk;
  }

  /** The host reads on past lost lines to the two it is waiting for. */
  lemma ReadsFinalLines(c: Session, sys: System, i: nat, k: nat) returns (actions: seq<Action>)
    requires InStep(c.job, sys.host)
    requires sys.host == AwaitVerified || (sys.host.Sending? && Final(c.job, sys.host.s))
    requires i < k < |sys.toHost| && sys.toHost[i] == Verified && sys.toHost[k] == Exec
    ensures Runs(c, sys, actions) && Run(c, sys, actions).host == Done
  {
    hide FrameOf, Final, Run, Runs, Position, HasChunk;
    var lost := LoseReplies(c, sys, i);
    var front := Run(c, sys, lost);
    VerifiedRead(c, front);
    One(c, front, HostReads);
    var read := Step(c, front, HostReads);
    assert read.toHost == sys.toHost[i + 1..];
    assert read.toHost[k - (i + 1)] == sys.toHost[k];
    var rest := ReadsExec(c, read, k - (i + 1));
    Then(c, front, [HostReads], rest);
    Then(c, sys, lost, [HostReads] + rest);
    actions := lost + ([HostReads] + rest);
  }

  lemma VerifiedRead(c: Session, sys: System)
    requires InStep(c.job, sys.host) && sys.toHost != [] && sys.toHost[0] == Verified
    requires sys.host == AwaitVerified || (sys.host.Sending? && Final(c.job, sys.host.s))
    ensures Enabled(c, sys, HostReads) && Step(c, sys, HostReads).host == AwaitExec
    ensures Step(c, sys, HostReads).toHost == sys.toHost[1..]
  {
    hide FrameOf;
    if sys.host.Sending? {
      ChunkFacts(c.job, sys.host.s);
    }
  }

  lemma ReadsExec(c: Session, sys: System, k: nat) returns (actions: seq<Action>)
    requires sys.host == AwaitExec && k < |sys.toHost| && sys.toHost[k] == Exec
    ensures Runs(c, sys, actions) && Run(c, sys, actions).host == Done
  {
    hide Run, Runs;
    var lost := LoseReplies(c, sys, k);
    var front := Run(c, sys, lost);
    One(c, front, HostReads);
    Then(c, sys, lost, [HostReads]);
    actions := lost + [HostReads];
  }

  lemma FrameWhole(j: Job, s: nat)
    requires HasChunk(j, s)
    ensures FrameOf(j, s).length == |FrameOf(j, s).data|
  {}

  /** Whatever was lost, damaged or repeated before: while the target is receiving and the host has an attempt left,
      the session can still end with the payload loaded and running. */
  lemma CanStillFinish(c: Session, sys: System) returns (actions: seq<Action>)
    requires Inv(c, sys) && sys.target.phase == Receiving && sys.host.Sending? && sys.host.attempt < c.job.retries
    ensures Runs(c, sys, actions) && Run(c, sys, actions).host == Done
  {
    hide OnFrame, FrameOf, HasChunk, Loaded, FrameSound, ReplySound, Run, Runs, Poised, Inv, Step, Enabled;
    InvInStep(c, sys);
    var flush := Quiet(c, sys, 0, 0);
    var quiet := Run(c, sys, flush);
    assert quiet == sys.(toTarget := [], toHost := []);
    AnotherAttempt(c, sys, quiet);
    One(c, quiet, HostTimesOut);
    Then(c, sys, flush, [HostTimesOut]);
    var again := Step(c, quiet, HostTimesOut);
    var rest := RunsToTheEnd(c, again);
    Then(c, sys, flush + [HostTimesOut], rest);
    actions := flush + [HostTimesOut] + rest;
  }

  lemma AnotherAttempt(c: Session, sys: System, quiet: System)
    requires Inv(c, sys) && sys.target.phase == Receiving && sys.host.Sending? && sys.host.attempt < c.job.retries
    requires quiet == sys.(toTarget := [], toHost := [])
    ensures Enabled(c, quiet, HostTimesOut) && Poised(c, Step(c, quiet, HostTimesOut))
  {
    hide FrameOf, HasChunk, Loaded, FrameSound, ReplySound;
    var reached :| InvAt(c, sys, reached);
    assert [] + [FrameOf(c.job, sys.host.s)] == [FrameOf(c.job, sys.host.s)];
  }

  // ----- exactly when a session can still end well

  /** VERIFIED is still on its way to the host, with EXEC behind it. */
  predicate FinalLinesAhead(replies: seq<Reply>) {
    exists i, k :: 0 <= i < k < |replies| && replies[i] == Verified && replies[k] == Exec
  }

  predicate Intact(j: Job, f: Frame, s: nat) {
    f.sequence == s && f.data == Chunk(j, s)
  }

  predicate IntactAhead(j: Job, frames: seq<Frame>, s: nat) {
    exists i :: 0 <= i < |frames| && Intact(j, frames[i], s)
  }

  /** What must hold now for the session to be able to end well: the final lines are sent once, and before them the
      current chunk needs an attempt, an intact copy on the line, or its acknowledgement on the line. */
  predicate CanEnd(c: Session, sys: System) {
    match sys.host
    case Done => true
    case Failed => false
    case AwaitExec => Exec in sys.toHost
    case AwaitVerified => FinalLinesAhead(sys.toHost)
    case Sending(s, attempt) =>
      if sys.target.phase == Receiving then
        attempt < c.job.retries || Ack(s) in sys.toHost || IntactAhead(c.job, sys.toTarget, s)
      else FinalLinesAhead(sys.toHost)
  }

  /** The sender's frame is the only sound one with the chunk's data. */
  lemma IntactIsFrame(j: Job, f: Frame, s: nat, reached: nat)
    requires FrameSound(j, f, reached) && Intact(j, f, s)
    ensures HasChunk(j, s) && f == FrameOf(j, s)
  {}

  lemma EndsFromIntact(c: Session, sys: System, i: nat) returns (actions: seq<Action>)
    requires Inv(c, sys) && sys.target.phase == Receiving && sys.host.Sending?
    requires i < |sys.toTarget| && Intact(c.job, sys.toTarget[i], sys.host.s)
    ensures Runs(c, sys, actions) && Run(c, sys, actions).host == Done
  {
    hide OnFrame, FrameOf, HasChunk, Loaded, FrameSound, ReplySound, Intact, Run, Runs, Poised;
    IntactIsFrameOf(c, sys, i);
    var quiet := Quiet(c, sys, i, 1);
    var alone := Run(c, sys, quiet);
    assert alone.toTarget == [sys.toTarget[i]];
    PoisedAlone(c, sys, alone);
    var rest := RunsToTheEnd(c, alone);
    Then(c, sys, quiet, rest);
    actions := quiet + rest;
  }

  lemma IntactIsFrameOf(c: Session, sys: System, i: nat)
    requires Inv(c, sys) && sys.host.Sending? && i < |sys.toTarget| && Intact(c.job, sys.toTarget[i], sys.host.s)
    ensures HasChunk(c.job, sys.host.s) && sys.toTarget[i] == FrameOf(c.job, sys.host.s)
  {
    hide FrameOf, HasChunk, Loaded, FrameSound, ReplySound, Intact;
    var reached :| InvAt(c, sys, reached);
    IntactIsFrame(c.job, sys.toTarget[i], sys.host.s, reached);
  }

  lemma PoisedAlone(c: Session, sys: System, alone: System)
    requires Inv(c, sys) && sys.target.phase == Receiving && sys.host.Sending? && HasChunk(c.job, sys.host.s)
    requires alone == sys.(toTarget := [FrameOf(c.job, sys.host.s)], toHost := [])
    ensures Poised(c, alone)
  {
    hide FrameOf, HasChunk, Loaded, FrameSound, ReplySound;
    var reached :| InvAt(c, sys, reached);
  }

  lemma EndsFromAck(c: Session, sys: System, i: nat) returns (actions: seq<Action>)
    requires Inv(c, sys) && sys.target.phase == Receiving && sys.host.Sending?
    requires i < |sys.toHost| && sys.toHost[i] == Ack(sys.host.s)
    ensures Runs(c, sys, actions) && Run(c, sys, actions).host == Done
  {
    hide OnFrame, FrameOf, HasChunk, Inv, Run, Runs, Intact, Step, Enabled;
    MoreToSend(c, sys, i);
    InvInStep(c, sys);
    var lost := LoseReplies(c, sys, i);
    RunInv(c, sys, lost);
    var front := Run(c, sys, lost);
    AckRead(c, front);
    One(c, front, HostReads);
    StepInv(c, front, HostReads);
    var read := Step(c, front, HostReads);
    FrameIsIntact(c.job, sys.host.s + 1);
    var rest := EndsFromIntact(c, read, |sys.toTarget|);
    Then(c, front, [HostReads], rest);
    Then(c, sys, lost, [HostReads] + rest);
    actions := lost + ([HostReads] + rest);
  }

  lemma AckRead(c: Session, sys: System)
    requires InStep(c.job, sys.host) && sys.host.Sending? && sys.toHost != [] && sys.toHost[0] == Ack(sys.host.s)
    requires HasChunk(c.job, sys.host.s + 1)
    ensures Enabled(c, sys, HostReads)
    ensures Step(c, sys, HostReads) == sys.(host := Sending(sys.host.s + 1, 0), toHost := sys.toHost[1..],
                                           toTarget := sys.toTarget + [FrameOf(c.job, sys.host.s + 1)])
  {
    hide FrameOf, HasChunk;
  }

  lemma FrameIsIntact(j: Job, s: nat)
    requires HasChunk(j, s)
    ensures Intact(j, FrameOf(j, s), s)
  {}

  lemma InvInStep(c: Session, sys: System)
    requires Inv(c, sys)
    ensures InStep(c.job, sys.host)
  {}

  /** An acknowledged chunk that leaves the target receiving has a successor. */
  lemma MoreToSend(c: Session, sys: System, i: nat)
    requires Inv(c, sys) && sys.target.phase == Receiving && sys.host.Sending?
    requires i < |sys.toHost| && sys.toHost[i] == Ack(sys.host.s)
    ensures HasChunk(c.job, sys.host.s + 1)
  {
    hide FrameSound, Overlay, Absorb, Crc, Upto;
    var reached :| InvAt(c, sys, reached);
    assert ReplySound(sys.toHost[i], sys.target);
    WholeIsLast(c, sys.target, sys.host.s);
  }

  /** Outside the receiving phase the host is at the last chunk, unless the target gave up. */
  lemma RunningIsFinal(c: Session, sys: System)
    requires Inv(c, sys) && sys.target.phase == Running && sys.host.Sending?
    ensures Final(c.job, sys.host.s)
  {
    hide FrameSound, Overlay, Absorb, Crc, Upto, Chunk, ReplySound;
    var reached :| InvAt(c, sys, reached);
    WholePayload(c, sys.target, sys.host.s);
  }

  lemma WholePayload(c: Session, t: Target, s: nat)
    requires HasChunk(c.job, s) && Contents(c, t) && t.received == |c.job.payload| && s <= t.expected <= s + 1
    ensures Final(c.job, s)
  {
    hide Overlay, Absorb, Crc, Upto, Chunk;
  }

  lemma VerifiedMeansRunning(c: Session, sys: System, i: nat)
    requires Inv(c, sys) && i < |sys.toHost| && sys.toHost[i] == Verified
    ensures sys.target.phase == Running
  {
    hide FrameSound, Loaded, InStep;
    var reached :| InvAt(c, sys, reached);
    assert ReplySound(sys.toHost[i], sys.target);
  }

  /** Whenever the condition holds, some run ends well. */
  lemma EndsIfItCan(c: Session, sys: System) returns (actions: seq<Action>)
    requires Inv(c, sys) && CanEnd(c, sys)
    ensures Runs(c, sys, actions) && Run(c, sys, actions).host == Done
  {
    hide Inv, Step, Enabled, Intact, Final;
    InvInStep(c, sys);
    match sys.host {
      case Done =>
        actions := [];
      case AwaitExec =>
        var k :| 0 <= k < |sys.toHost| && sys.toHost[k] == Exec;
        actions := ReadsExec(c, sys, k);
      case AwaitVerified =>
        var i, k :| 0 <= i < k < |sys.toHost| && sys.toHost[i] == Verified && sys.toHost[k] == Exec;
        actions := ReadsFinalLines(c, sys, i, k);
      case Sending(s, attempt) =>
        if sys.target.phase != Receiving {
          var i, k :| 0 <= i < k < |sys.toHost| && sys.toHost[i] == Verified && sys.toHost[k] == Exec;
          VerifiedMeansRunning(c, sys, i);
          RunningIsFinal(c, sys);
          actions := ReadsFinalLines(c, sys, i, k);
        } else if attempt < c.job.retries {
          actions := CanStillFinish(c, sys);
        } else if Ack(s) in sys.toHost {
          var i :| 0 <= i < |sys.toHost| && sys.toHost[i] == Ack(s);
          actions := EndsFromAck(c, sys, i);
        } else {
          var i :| 0 <= i < |sys.toTarget| && Intact(c.job, sys.toTarget[i], s);
          actions := EndsFromIntact(c, sys, i);
        }
    }
  }

  // A state in which the condition fails stays that way.

  /** A frame that is not the current chunk intact is not acknowledged with the current sequence and changes nothing. */
  lemma NotAcknowledged(c: Session, t: Target, f: Frame, s: nat)
    requires Loaded(c, t) && t.phase == Receiving && (t.expected == s || t.expected == s + 1)
    requires FrameSound(c.job, f, s) && !Intact(c.job, f, s)
    ensures Sane(PlanOf(c), t)
    ensures OnFrame(PlanOf(c), t, f).0 == t && Ack(s) !in OnFrame(PlanOf(c), t, f).1
  {
    hide Crc, Absorb, Overlay, Sha256.Sum, Chunk, Offset, HasChunk, Contents, Store, Finish;
    ContentsMeans(c, t);
    ChunkFacts(c.job, f.sequence);
  }

  lemma FewerFinalLines(replies: seq<Reply>, i: nat)
    requires i < |replies| && FinalLinesAhead(Without(replies, i))
    ensures FinalLinesAhead(replies)
  {
    var w := Without(replies, i);
    var a, b :| 0 <= a < b < |w| && w[a] == Verified && w[b] == Exec;
    var a', b' := if a < i then a else a + 1, if b < i then b else b + 1;
    assert replies[a'] == Verified && replies[b'] == Exec;
  }

  lemma LaterFinalLines(replies: seq<Reply>)
    requires replies != [] && FinalLinesAhead(replies[1..])
    ensures FinalLinesAhead(replies)
  {
    var a, b :| 0 <= a < b < |replies[1..]| && replies[1..][a] == Verified && replies[1..][b] == Exec;
    assert replies[a + 1] == Verified && replies[b + 1] == Exec;
  }

  lemma FirstThenExec(replies: seq<Reply>)
    requires replies != [] && replies[0] == Verified && Exec in replies[1..]
    ensures FinalLinesAhead(replies)
  {
    var b :| 0 <= b < |replies[1..]| && replies[1..][b] == Exec;
    assert replies[b + 1] == Exec;
  }

  lemma AbortAddsNothing(replies: seq<Reply>)
    requires FinalLinesAhead(replies + [Abort])
    ensures FinalLinesAhead(replies)
  {
    var more := replies + [Abort];
    var a, b :| 0 <= a < b < |more| && more[a] == Verified && more[b] == Exec;
    assert replies[a] == Verified && replies[b] == Exec;
  }

  /** The target has left its loop: what the final lines have lost stays lost. */
  lemma StaysLost(c: Session, sys: System, a: Action)
    requires Enabled(c, sys, a) && sys.target.phase != Receiving && !CanEnd(c, sys)
    ensures Step(c, sys, a).target.phase != Receiving && !CanEnd(c, Step(c, sys, a))
  {
    hide OnFrame, FrameOf, HasChunk, Final, FinalLinesAhead, IntactAhead, Position;
    var after := Step(c, sys, a);
    match a {
      case LoseReply(i) =>
        if FinalLinesAhead(after.toHost) { FewerFinalLines(sys.toHost, i); }
      case HostReads =>
        assert sys.toHost[0] in sys.toHost;
        if FinalLinesAhead(after.toHost) { LaterFinalLines(sys.toHost); }
        if sys.toHost[0] == Verified && Exec in sys.toHost[1..] { FirstThenExec(sys.toHost); }
      case _ =>
    }
  }

  /** The final lines are sent once: when the target has left its loop and they can no longer both reach the host
      in their order, no number of retries ends the session well. */
  lemma {:induction false} FinalLinesAreNotRepeated(c: Session, sys: System, actions: seq<Action>)
    requires Runs(c, sys, actions)
    requires sys.target.phase != Receiving && !CanEnd(c, sys)
    ensures !CanEnd(c, Run(c, sys, actions)) && Run(c, sys, actions).host != Done
    decreases actions
  {
    hide Step, Enabled;
    if actions != [] {
      StaysLost(c, sys, actions[0]);
      FinalLinesAreNotRepeated(c, Step(c, sys, actions[0]), actions[1..]);
    }
  }

  /** The host has no attempt left for a chunk of which the line carries neither an intact copy nor the acknowledgement. */
  predicate Starved(c: Session, sys: System) {
    && sys.target.phase == Receiving && sys.host.Sending? && InStep(c.job, sys.host)
    && sys.host.attempt == c.job.retries
    && Ack(sys.host.s) !in sys.toHost && !IntactAhead(c.job, sys.toTarget, sys.host.s)
  }

  lemma ChunkExpected(c: Session, sys: System)
    requires Inv(c, sys) && Starved(c, sys)
    ensures Loaded(c, sys.target)
    ensures sys.target.expected == sys.host.s || sys.target.expected == sys.host.s + 1
    ensures forall i :: 0 <= i < |sys.toTarget| ==> FrameSound(c.job, sys.toTarget[i], sys.host.s)
  {
    hide FrameSound, Loaded, ReplySound, InStep;
    var reached :| InvAt(c, sys, reached);
  }

  lemma StarvedTarget(c: Session, sys: System)
    requires Inv(c, sys) && Starved(c, sys) && Enabled(c, sys, TargetTakes)
    ensures !CanEnd(c, Step(c, sys, TargetTakes))
  {
    hide OnFrame, FrameSound, Loaded, ReplySound, Intact, Inv, FinalLinesAhead, IntactAhead, Final, HasChunk, Sane, PlanOf;
    ChunkExpected(c, sys);
    NoneBehind(c.job, sys.toTarget, sys.host.s);
    NotAcknowledged(c, sys.target, sys.toTarget[0], sys.host.s);
  }

  lemma NoneBehind(j: Job, frames: seq<Frame>, s: nat)
    requires frames != [] && !IntactAhead(j, frames, s)
    ensures !Intact(j, frames[0], s) && !IntactAhead(j, frames[1..], s)
  {
    hide Intact;
    assert forall i :: 0 <= i < |frames[1..]| ==> frames[1..][i] == frames[i + 1];
  }

  lemma StarvedHost(c: Session, sys: System)
    requires Inv(c, sys) && Starved(c, sys) && Enabled(c, sys, HostReads)
    ensures !CanEnd(c, Step(c, sys, HostReads))
  {
    hide OnFrame, FrameSound, Loaded, FrameOf, HasChunk, IntactAhead, Final;
    var reached :| InvAt(c, sys, reached);
    assert ReplySound(sys.toHost[0], sys.target);
    var after := Step(c, sys, HostReads);
    assert sys.toTarget + [] == sys.toTarget;
  }

  lemma StarvedLine(c: Session, sys: System, a: Action)
    requires Inv(c, sys) && Starved(c, sys) && Enabled(c, sys, a)
    requires a.LoseFrame? || a.LoseReply? || a.DamageFrame?
    ensures !CanEnd(c, Step(c, sys, a))
  {
    hide FrameSound, Loaded, ReplySound, Crc, Chunk;
    var after, s := Step(c, sys, a), sys.host.s;
    var reached :| InvAt(c, sys, reached);
    match a {
      case LoseFrame(i) =>
        assert forall k :: 0 <= k < |after.toTarget| ==> after.toTarget[k] == sys.toTarget[if k < i then k else k + 1];
      case LoseReply(i) =>
      case DamageFrame(i, data) =>
        assert FrameSound(c.job, sys.toTarget[i], reached);
        DamagedStays(c.job, sys.toTarget[i], data, s, reached);
        assert forall k :: 0 <= k < |after.toTarget| && k != i ==> after.toTarget[k] == sys.toTarget[k];
    }
  }

  /** Damage does not repair a frame. */
  lemma DamagedStays(j: Job, f: Frame, data: seq<byte>, s: nat, reached: nat)
    requires FrameSound(j, f, reached) && Damages(f, data) && !Intact(j, f, s)
    ensures !Intact(j, f.(data := data), s)
  {}

  /** What a state cannot reach, no step makes reachable. */
  lemma StepKeepsHopeless(c: Session, sys: System, a: Action)
    requires Inv(c, sys) && Enabled(c, sys, a) && !CanEnd(c, sys)
    ensures !CanEnd(c, Step(c, sys, a))
  {
    hide Step, Enabled, Inv, OnFrame, HasChunk;
    if sys.target.phase != Receiving {
      StaysLost(c, sys, a);
    } else if sys.host == Failed {
      FailedStays(c, sys, a);
    } else {
      ReceivingIsSending(c, sys);
      InvInStep(c, sys);
      match a {
        case TargetTakes => StarvedTarget(c, sys);
        case HostReads => StarvedHost(c, sys);
        case LoseFrame(_) => StarvedLine(c, sys, a);
        case LoseReply(_) => StarvedLine(c, sys, a);
        case DamageFrame(_, _) => StarvedLine(c, sys, a);
        case TargetGivesUp => GivenUp(c, sys);
        case HostTimesOut => LastTimeout(c, sys);
        case HostGivesUp => HostGone(c, sys);
      }
    }
  }

  lemma FailedStays(c: Session, sys: System, a: Action)
    requires Enabled(c, sys, a) && sys.host == Failed
    ensures Step(c, sys, a).host == Failed
  {
    hide OnFrame;
  }

  lemma ReceivingIsSending(c: Session, sys: System)
    requires Inv(c, sys) && sys.target.phase == Receiving
    ensures sys.host.Sending? || sys.host == Failed
  {
    hide FrameSound, ReplySound, InStep;
    var reached :| InvAt(c, sys, reached);
    TargetIsBehind(c, sys, reached);
  }

  lemma LastTimeout(c: Session, sys: System)
    requires Starved(c, sys) && Enabled(c, sys, HostTimesOut)
    ensures !CanEnd(c, Step(c, sys, HostTimesOut))
  {}

  lemma HostGone(c: Session, sys: System)
    requires Enabled(c, sys, HostGivesUp)
    ensures !CanEnd(c, Step(c, sys, HostGivesUp))
  {}

  lemma GivenUp(c: Session, sys: System)
    requires Inv(c, sys) && Starved(c, sys) && Enabled(c, sys, TargetGivesUp)
    ensures !CanEnd(c, Step(c, sys, TargetGivesUp))
  {
    hide Inv, FinalLinesAhead;
    if FinalLinesAhead(sys.toHost + [Abort]) {
      AbortAddsNothing(sys.toHost);
      FinalLinesMeanRunning(c, sys);
    }
  }

  lemma FinalLinesMeanRunning(c: Session, sys: System)
    requires Inv(c, sys) && FinalLinesAhead(sys.toHost)
    ensures sys.target.phase == Running
  {
    hide Inv;
    var i, k :| 0 <= i < k < |sys.toHost| && sys.toHost[i] == Verified && sys.toHost[k] == Exec;
    VerifiedMeansRunning(c, sys, i);
  }

  lemma {:induction false} EndsOnlyIfItCan(c: Session, sys: System, actions: seq<Action>)
    requires Inv(c, sys) && Runs(c, sys, actions) && Run(c, sys, actions).host == Done
    ensures CanEnd(c, sys)
    decreases actions
  {
    hide Step, Enabled, Inv;
    if actions != [] {
      StepInv(c, sys, actions[0]);
      EndsOnlyIfItCan(c, Step(c, sys, actions[0]), actions[1..]);
      if !CanEnd(c, sys) {
        StepKeepsHopeless(c, sys, actions[0]);
      }
    }
  }

  /** From a reachable state a session can end well exactly when the present state meets the condition. */
  lemma CanEndExactly(c: Session, sys: System)
    requires Inv(c, sys)
    ensures (exists actions :: Runs(c, sys, actions) && Run(c, sys, actions).host == Done) <==> CanEnd(c, sys)
  {
    hide Inv, CanEnd, Run, Runs;
    if CanEnd(c, sys) {
      var actions := EndsIfItCan(c, sys);
    }
    if actions :| Runs(c, sys, actions) && Run(c, sys, actions).host == Done {
      EndsOnlyIfItCan(c, sys, actions);
    }
  }

  /** Every session can get stuck: with every chunk delivered, no attempt used on the last one and EXEC still on the line,
      the loss of the VERIFIED line alone is final. */
  lemma LostVerifiedIsFinal(c: Session) returns (actions: seq<Action>)
    ensures Runs(c, Initial(c), actions)
    ensures var sys := Run(c, Initial(c), actions);
            && sys.target.phase == Running && sys.host.Sending? && sys.host.attempt == 0 && Exec in sys.toHost
            && !CanEnd(c, sys)
  {
    hide Run, Runs, Inv, FrameOf, HasChunk;
    InitiallyPoised(c);
    var first := RunsToConclusion(c, Initial(c));
    var last := Run(c, Initial(c), first);
    One(c, last, LoseReply(1));
    Then(c, Initial(c), first, [LoseReply(1)]);
    actions := first + [LoseReply(1)];
    var after := Step(c, last, LoseReply(1));
    assert after.toHost == [Ack(last.host.s), Exec];
    assert after.toHost[1] == Exec;
  }

  lemma InitiallyPoised(c: Session)
    ensures Poised(c, Initial(c))
  {
    hide Crc, Contents, Sha256.Sum, Overlay, Upto, FrameOf, Chunk, Offset;
    NothingLoaded(c);
    ChunkFacts(c.job, 0);
    OffsetZero(c.job);
  }

  /** A burst within four consecutive data bytes of an intact frame is damage this fault model covers. */
  lemma BurstIsDamage(j: Job, k: nat, data: seq<byte>, at: nat)
    requires HasChunk(j, k)
    requires |data| == |Chunk(j, k)|
    requires forall i :: 0 <= i < |data| && !(at <= i < at + 4) ==> data[i] == Chunk(j, k)[i]
    ensures Damages(FrameOf(j, k), data)
  {
    hide Crc;
    if data != Chunk(j, k) {
      BurstDetected(data, Chunk(j, k), at);
    }
  }
}
