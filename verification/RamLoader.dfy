// The target's receive loop of PMOSRAM v2: uart_ramloader_wait_and_run in src/uart_ramloader.c.
module RamLoader {
  import opened Bytes
  import opened Crc32
  import Sha256
  import RamHeader

  const FRAME_MAGIC: u32 := 0x32464d52

  /** A frame as it arrives: the header fields, and as many data bytes as the length field says. */
  datatype Frame = Frame(magic: u32, sequence: nat, length: nat, crc: bv32, data: seq<byte>)

  /** The lines the host reacts to. */
  datatype Reply = Ack(sequence: nat) | Nack(sequence: nat) | Verified | Exec | Abort

  datatype Phase = Receiving | Running | Aborted

  /** What the accepted header fixes for the session; `at` is the load address inside the DRAM window. */
  datatype Plan = Plan(at: nat, total: nat, chunk: nat, imageCrc: bv32, imageSha: seq<byte>)

  /** The loop's variables, the DRAM window, the bytes hashed so far, and the sequence numbers written so far. */
  datatype Target = Target(ram: seq<byte>, received: nat, expected: nat, previousLength: nat, previousCrc: bv32,
                           imageCrc: bv32, hashed: seq<byte>, phase: Phase, written: seq<nat>)

  predicate Sane(p: Plan, t: Target) {
    && p.at + p.total <= |t.ram| && p.total <= RamHeader.MAX_SIZE
    && t.expected <= t.received <= p.total
    && (t.phase == Receiving ==> t.received < p.total)
  }

  /** One round of the loop. */
  function OnFrame(p: Plan, t: Target, f: Frame): (r: (Target, seq<Reply>))
    requires Sane(p, t) && t.phase == Receiving && f.length == |f.data|
    ensures Sane(p, r.0)
  {
    hide Crc, Absorb, Overlay, Sha256.Sum;
    if f.magic != FRAME_MAGIC then (t.(phase := Aborted), [Abort])
    else if f.length == 0 || f.length > p.chunk || f.length > RamHeader.MAX_CHUNK then (t.(phase := Aborted), [Abort])
    else if t.expected != 0 && f.sequence == t.expected - 1 then
      if f.length == t.previousLength && f.crc == t.previousCrc && Crc(f.data) == f.crc then (t, [Ack(f.sequence)])
      else (t, [Nack(t.expected)])
    else if f.sequence != t.expected then (t, [Nack(t.expected)])
    else if Crc(f.data) != f.crc then (t, [Nack(t.expected)])
    else if f.length > p.total - t.received then (t, [Nack(t.expected)])
    else
      var stored := Store(p, t, f);
      var done := Finish(p, stored);
      (done.0, [Ack(t.expected)] + done.1)
  }

  function Store(p: Plan, t: Target, f: Frame): Target
    requires Sane(p, t) && t.phase == Receiving && f.length == |f.data| && 0 < f.length <= p.total - t.received
  {
    Target(Overlay(t.ram, p.at + t.received, f.data), t.received + f.length, t.expected + 1, f.length, f.crc,
           Absorb(t.imageCrc, f.data), t.hashed + f.data, t.phase, t.written + [t.expected])
  }

  /** Behind the loop: both whole-image checks, then the jump. */
  function Finish(p: Plan, t: Target): (Target, seq<Reply>) {
    if t.received < p.total then (t, [])
    else if Xor(INITIAL, t.imageCrc) != p.imageCrc || Sha256.Sum(t.hashed) != p.imageSha then (t.(phase := Aborted), [Abort])
    else (t.(phase := Running), [Verified, Exec])
  }

  /** The loop over a list of frames, until the session leaves the receiving phase. */
  function OnFrames(p: Plan, t: Target, frames: seq<Frame>): (Target, seq<Reply>)
    requires Sane(p, t) && forall i :: 0 <= i < |frames| ==> frames[i].length == |frames[i].data|
    decreases frames
  {
    if frames == [] || t.phase != Receiving then (t, [])
    else
      var r := OnFrame(p, t, frames[0]);
      var rest := OnFrames(p, r.0, frames[1..]);
      (rest.0, r.1 + rest.1)
  }

  // ----- what any stream of frames can do, whoever sends it

  /** A frame is malformed by its magic or its length. */
  predicate Malformed(p: Plan, f: Frame) {
    f.magic != 0x32464d52 || f.length == 0 || p.chunk < f.length || 4096 < f.length
  }

  /** Only the next chunk, intact and with room for it, is stored. */
  predicate Storable(p: Plan, t: Target, f: Frame) {
    !Malformed(p, f) && f.sequence == t.expected && Crc(f.data) == f.crc && t.received + f.length <= p.total
  }

  /** The same bytes as were accepted last. */
  predicate Repeated(p: Plan, t: Target, f: Frame) {
    !Malformed(p, f) && f.sequence + 1 == t.expected && f.length == t.previousLength && f.crc == t.previousCrc && Crc(f.data) == f.crc
  }

  /** Every frame has one of four fates: the session is given up, the frame is stored, it is acknowledged again, or the
      expected chunk is asked for and nothing changes. */
  lemma FatesOfFrames(p: Plan, t: Target, f: Frame)
    requires Sane(p, t) && t.phase == Receiving && f.length == |f.data|
    ensures var r := OnFrame(p, t, f);
            && (Malformed(p, f) ==> r == (t.(phase := Aborted), [Abort]))
            && (Repeated(p, t, f) ==> r == (t, [Ack(f.sequence)]))
            && (Storable(p, t, f) ==>
                  && r.1 != [] && r.1[0] == Ack(f.sequence)
                  && r.0.received == t.received + f.length && r.0.expected == t.expected + 1
                  && r.0.ram == Overlay(t.ram, p.at + t.received, f.data)
                  && r.0.previousLength == f.length && r.0.previousCrc == f.crc)
            && (!Malformed(p, f) && !Repeated(p, t, f) && !Storable(p, t, f) ==> r == (t, [Nack(t.expected)]))
  {
    hide Crc, Absorb, Overlay, Sha256.Sum;
  }

  /** The checksums and memory follow the bytes stored. */
  ghost predicate Follows(p: Plan, ram: seq<byte>, t: Target) {
    && |t.hashed| == t.received && p.at + t.received <= |ram|
    && t.ram == Overlay(ram, p.at, t.hashed)
    && t.imageCrc == Absorb(INITIAL, t.hashed)
    && (t.phase == Running ==> t.received == p.total && Crc(t.hashed) == p.imageCrc && Sha256.Sum(t.hashed) == p.imageSha)
  }

  lemma StoreFollows(p: Plan, ram: seq<byte>, t: Target, f: Frame)
    requires Sane(p, t) && Follows(p, ram, t) && t.phase == Receiving && f.length == |f.data| && 0 < f.length <= p.total - t.received
    requires p.at + p.total <= |ram|
    ensures Follows(p, ram, Store(p, t, f))
  {
    hide Absorb, Crc, Sha256.Sum, Overlay;
    OverlayJoin(ram, p.at, t.hashed, f.data);
    AbsorbConcat(INITIAL, t.hashed, f.data);
  }

  lemma FinishFollows(p: Plan, ram: seq<byte>, t: Target)
    requires Follows(p, ram, t) && t.phase == Receiving && t.received <= p.total
    ensures var u := Finish(p, t).0;
            && Follows(p, ram, u)
            && (t.received == p.total ==>
                  u.hashed == t.hashed
                  && (u.phase == Running <==> Crc(u.hashed) == p.imageCrc && Sha256.Sum(u.hashed) == p.imageSha)
                  && (u.phase != Running ==> u.phase == Aborted))
  {
    hide Absorb, Crc, Sha256.Sum, Overlay;
    CrcIsComplement(t.hashed);
  }

  lemma ShapeOfFrame(p: Plan, t: Target, f: Frame)
    requires Sane(p, t) && t.phase == Receiving && f.length == |f.data|
    ensures Storable(p, t, f) ==> 0 < f.length <= p.total - t.received && OnFrame(p, t, f).0 == Finish(p, Store(p, t, f)).0
    ensures !Storable(p, t, f) ==> OnFrame(p, t, f).0 == t || OnFrame(p, t, f).0 == t.(phase := Aborted)
  {
    hide Crc, Absorb, Overlay, Sha256.Sum, Finish, Store;
  }

  lemma FrameFollows(p: Plan, ram: seq<byte>, t: Target, f: Frame)
    requires Sane(p, t) && Follows(p, ram, t) && t.phase == Receiving && f.length == |f.data| && p.at + p.total <= |ram|
    ensures Follows(p, ram, OnFrame(p, t, f).0)
    ensures var u := OnFrame(p, t, f).0;
            Storable(p, t, f) && t.received + f.length == p.total ==>
              (u.phase == Running <==> Crc(u.hashed) == p.imageCrc && Sha256.Sum(u.hashed) == p.imageSha)
              && (u.phase != Running ==> u.phase == Aborted)
  {
    hide Absorb, Crc, Sha256.Sum, Overlay, OnFrame, Finish, Malformed;
    ShapeOfFrame(p, t, f);
    if Storable(p, t, f) {
      StoreFollows(p, ram, t, f);
      FinishFollows(p, ram, Store(p, t, f));
    }
  }

  lemma CrcIsComplement(data: seq<byte>)
    ensures Crc(data) == Xor(INITIAL, Absorb(INITIAL, data))
  {}

  /** Whatever frames arrive, from the host or not: an image is only ever run when memory holds, at its load address and
      nowhere else changed, bytes of the announced length with the announced CRC and SHA-256. */
  lemma {:induction false} OnlyVerifiedImagesRun(p: Plan, ram: seq<byte>, t: Target, frames: seq<Frame>)
    requires Sane(p, t) && Follows(p, ram, t) && p.at + p.total <= |ram|
    requires forall i :: 0 <= i < |frames| ==> frames[i].length == |frames[i].data|
    ensures Follows(p, ram, OnFrames(p, t, frames).0)
    decreases frames
  {
    hide OnFrame, Follows, Sane;
    if frames != [] && t.phase == Receiving {
      FrameFollows(p, ram, t, frames[0]);
      OnlyVerifiedImagesRun(p, ram, OnFrame(p, t, frames[0]).0, frames[1..]);
    }
  }

  class Loader {
    const plan: Plan
    const ram: array<byte>
    const sha: Sha256.Context
    var received: u32
    var expected: u32
    var previousLength: u32
    var previousCrc: bv32
    var imageCrc: bv32
    var phase: Phase
    ghost var hashed: seq<byte>
    ghost var written: seq<nat>

    ghost predicate Valid()
      reads this, ram, sha, sha.block
    {
      && Sane(plan, View())
      && ram != sha.block
      && (phase == Receiving ==> sha.Valid() && sha.message == hashed)
    }

    ghost function View(): Target
      reads this, ram
    {
      Target(ram[..], received, expected, previousLength, previousCrc, imageCrc, hashed, phase, written)
    }

    constructor (plan: Plan, ram: array<byte>)
      requires plan.at + plan.total <= ram.Length && 0 < plan.total <= RamHeader.MAX_SIZE
      ensures this.plan == plan && this.ram == ram && fresh(sha) && fresh(sha.block)
      ensures Valid()
      ensures View() == Target(old(ram[..]), 0, 0, 0, 0, INITIAL, [], Receiving, [])
    {
      hide Sha256.Context.Valid, RamHeader.MAX_SIZE;
      this.plan, this.ram := plan, ram;
      received, expected, previousLength, previousCrc, imageCrc := 0, 0, 0, 0, INITIAL;
      sha := new Sha256.Context();
      phase, hashed, written := Receiving, [], [];
    }

    /** The stores of an accepted frame, byte by byte. */
    method StoreData(data: seq<byte>)
      requires plan.at + received + |data| <= ram.Length
      modifies ram
      ensures ram[..] == Overlay(old(ram[..]), plan.at + received, data)
    {
      hide Overlay;
      var to := plan.at + received;
      ghost var was := ram[..];
      OverlayNothing(was, to);
      assert data[..0] == [];
      for i := 0 to |data|
        invariant ram[..] == Overlay(was, to, data[..i])
      {
        ghost var now := ram[..];
        ram[to + i] := data[i];
        assert ram[..] == now[to + i := data[i]];
        OverlayPut(was, to, data[..i], data[i]);
        assert data[..i] + [data[i]] == data[..i + 1];
      }
      assert data[..|data|] == data;
    }

    /** The loop body, from the parsed frame header on. */
    method Receive(f: Frame) returns (replies: seq<Reply>)
      requires Valid() && phase == Receiving && f.length == |f.data|
      modifies this, ram, sha, sha.block
      ensures Valid()
      ensures View() == OnFrame(plan, old(View()), f).0
      ensures replies == OnFrame(plan, old(View()), f).1
    {
      hide Crc, Absorb, Overlay, Sha256.Sum, Sha256.Context.Valid;
      if f.magic != FRAME_MAGIC {
        phase := Aborted;
        return [Abort];
      }
      if f.length == 0 || f.length > plan.chunk || f.length > RamHeader.MAX_CHUNK {
        phase := Aborted;
        return [Abort];
      }
      var frameCrc := Compute(f.data);
      if expected != 0 && f.sequence == expected - 1 {
        if f.length == previousLength && f.crc == previousCrc && frameCrc == f.crc {
          return [Ack(f.sequence)];
        } else {
          return [Nack(expected)];
        }
      }
      if f.sequence != expected {
        return [Nack(expected)];
      }
      if frameCrc != f.crc {
        return [Nack(expected)];
      }
      if f.length > plan.total - received {
        return [Nack(expected)];
      }
      Accept(f);
      replies := [Ack(expected - 1)];
      if received < plan.total {
        assert replies + [] == replies;
      } else {
        var conclusion := Conclude();
        replies := replies + conclusion;
      }
    }

    /** The accepting path: store the data and run both checksums over it. */
    method Accept(f: Frame)
      requires Valid() && phase == Receiving && f.length == |f.data| && 0 < f.length <= plan.total - received
      modifies this, ram, sha, sha.block
      ensures View() == Store(plan, old(View()), f)
      ensures ram != sha.block && sha.Valid() && sha.message == hashed
    {
      hide Crc, Absorb, Overlay, Sha256.Sum, Sha256.Context.Valid;
      StoreData(f.data);
      imageCrc := Update(imageCrc, f.data);
      sha.Update(f.data);
      hashed := hashed + f.data;
      received := received + f.length;
      previousLength := f.length;
      previousCrc := f.crc;
      written := written + [expected];
      expected := expected + 1;
    }

    /** Behind the loop: the whole-image checks decide between running the image and aborting. */
    method Conclude() returns (replies: seq<Reply>)
      requires sha.Valid() && sha.message == hashed && ram != sha.block && received >= plan.total
      modifies this`phase, sha, sha.block
      ensures View() == Finish(plan, old(View())).0
      ensures replies == Finish(plan, old(View())).1
    {
      hide Crc, Absorb, Sha256.Sum, Sha256.Context.Valid;
      var digest := sha.Final();
      if Xor(INITIAL, imageCrc) != plan.imageCrc || digest != plan.imageSha {
        phase := Aborted;
        replies := [Abort];
      } else {
        phase := Running;
        replies := [Verified, Exec];
      }
    }

    /** The whole loop over the frames that arrive. */
    method ReceiveLoop(frames: seq<Frame>) returns (replies: seq<Reply>)
      requires Valid() && forall i :: 0 <= i < |frames| ==> frames[i].length == |frames[i].data|
      modifies this, ram, sha, sha.block
      ensures Valid()
      ensures View() == OnFrames(plan, old(View()), frames).0
      ensures replies == OnFrames(plan, old(View()), frames).1
    {
      hide OnFrame, Crc, Absorb, Sha256.Sum, Sha256.Context.Valid, Sane;
      var next := 0;
      replies := [];
      ghost var start := View();
      while next < |frames| && phase == Receiving
        invariant next <= |frames| && Valid()
        invariant OnFrames(plan, View(), frames[next..]).0 == OnFrames(plan, start, frames).0
        invariant replies + OnFrames(plan, View(), frames[next..]).1 == OnFrames(plan, start, frames).1
      {
        var answers := Receive(frames[next]);
        replies := replies + answers;
        next := next + 1;
      }
    }
  }
}
