// A whole object of protocol v3 from its sender's side: what a line must carry for the receiver to end with the object.
module ObjectTransfer {
  import opened Bytes
  import opened Options
  import opened Crc32
  import opened Uart
  import opened FrameV3
  import opened RetryBitmap
  import opened ObjectLog
  import opened ObjectReceiver
  import Lz4
  import Sha256

  /** One transmission of a frame as it arrives: with these wire bytes behind its header, as bytes whose header is refused
      and then a pause, or as bytes that stop short and then a pause. */
  datatype Sent =
    | Framed(sequence: nat, wire: seq<byte>)
    | Garbled(sequence: nat, bytes: seq<byte>)
    | Cut(sequence: nat, bytes: seq<byte>)

  /** A round of transmissions, and what arrives for its acknowledgement. */
  datatype Round = Round(sent: seq<Sent>, answer: Answer)

  /** What a sender has to deliver: the object's frames, each in a slot of its own. */
  datatype Shipment = Shipment(o: Object, parcels: seq<Parcel>)

  predicate Sound(s: Shipment) {
    && Sane(s.o) && |s.parcels| <= 0x1_0000_0000
    && (forall q :: 0 <= q < |s.parcels| ==> Carries(s.parcels[q], s.o) && s.parcels[q].offset % s.o.frameSize == 0)
    && (forall p, q :: 0 <= p < q < |s.parcels| ==> s.parcels[p].offset / s.o.frameSize != s.parcels[q].offset / s.o.frameSize)
  }

  type Cargo = s: Shipment | Sound(s) witness Shipment(Object(0, 1024, 0), [])

  lemma CargoSane(c: Cargo)
    ensures Sane(c.o)
  {}

  lemma CargoCarries(c: Cargo, q: nat)
    requires q < |c.parcels|
    ensures Carries(c.parcels[q], c.o) && Sane(c.o) && q < 0x1_0000_0000
  {}

  predicate Whole(c: Cargo, x: Sent) {
    x.sequence < |c.parcels| && x.Framed? && x.wire == Wire(c.parcels[x.sequence])
  }

  /** The frame arrives whole, or with wire bytes that the receiver's checks refuse, or, where the receiver recovers frame
      boundaries, with its header lost. */
  predicate Arrives(c: Cargo, x: Sent, allow: bool) {
    && x.sequence < |c.parcels|
    && match x
       case Framed(q, wire) =>
         && |wire| == |Wire(c.parcels[q])|
         && (Whole(c, x) || Payload(HeaderFor(c.parcels[q], c.o, q), wire, c.o.frameSize) == None)
       case Garbled(q, bytes) => allow && |bytes| >= HEADER_BYTES && !HeaderUsable(bytes[..HEADER_BYTES], c.o, q)
       case Cut(q, bytes) => allow && StopsShort(bytes, c.o, q)
  }

  predicate AllArrive(c: Cargo, xs: seq<Sent>, allow: bool) {
    forall k :: 0 <= k < |xs| ==> Arrives(c, xs[k], allow)
  }

  /** One transmission on the line. */
  function FrameLine(c: Cargo, x: Sent, rest: seq<Arrival>): seq<Arrival> {
    match x
    case Framed(q, wire) => if q < |c.parcels| then OnLine(Raw(c.parcels[q], c.o, q)) + (OnLine(wire) + rest) else rest
    case Garbled(_, bytes) => OnLine(bytes) + ([Pause] + rest)
    case Cut(_, bytes) => OnLine(bytes) + ([Deadline] + ([Pause] + rest))
  }

  /** Transmissions on the line. */
  function RoundLine(c: Cargo, xs: seq<Sent>, rest: seq<Arrival>): seq<Arrival>
    decreases xs
  {
    if xs == [] then rest else FrameLine(c, xs[0], RoundLine(c, xs[1..], rest))
  }

  function Sequences(xs: seq<Sent>): seq<nat> {
    seq(|xs|, k requires 0 <= k < |xs| => xs[k].sequence)
  }

  /** The frames still missing behind a round, in order. */
  function Damaged(c: Cargo, xs: seq<Sent>): seq<nat> {
    if xs == [] then []
    else if Whole(c, xs[0]) then Damaged(c, xs[1..])
    else [xs[0].sequence] + Damaged(c, xs[1..])
  }

  /** The rounds of a window on the line, each with what arrives for its acknowledgement. */
  function WindowLine(c: Cargo, rounds: seq<Round>, rest: seq<Arrival>): seq<Arrival>
    decreases |rounds|
  {
    if rounds == [] then rest
    else RoundLine(c, rounds[0].sent, AnswerLine(rounds[0].answer, WindowLine(c, rounds[1..], rest)))
  }

  /** Rounds that send what is missing, and again what was lost of that, until nothing is missing. */
  predicate Schedule(c: Cargo, rounds: seq<Round>, missing: seq<nat>, allow: bool, rest: seq<Arrival>)
    decreases |rounds|
  {
    if rounds == [] then missing == []
    else
      && missing != [] && Sequences(rounds[0].sent) == missing
      && AllArrive(c, rounds[0].sent, allow)
      && Answers(rounds[0].answer, WindowLine(c, rounds[1..], rest))
      && Schedule(c, rounds[1..], Damaged(c, rounds[0].sent), allow, rest)
  }

  function Range(from: nat, n: nat): seq<nat>
  {
    seq(n, k requires 0 <= k < n => from + k)
  }

  /** The window from `base` on gets a first pass and at most eight retry rounds; a window of one frame recovers boundaries. */
  predicate Planned(c: Cargo, rounds: seq<Round>, base: nat, window: nat, rest: seq<Arrival>) {
    && base < |c.parcels| && |rounds| <= 9
    && Schedule(c, rounds, Range(base, CountAt(base, |c.parcels|, window)), window == 1, rest)
  }

  /** The first frame of the next window. */
  function Next(c: Cargo, base: nat, window: nat): nat {
    if base < |c.parcels| then base + CountAt(base, |c.parcels|, window) else base
  }

  function ObjectLine(c: Cargo, windows: seq<seq<Round>>, rest: seq<Arrival>): seq<Arrival>
    decreases |windows|
  {
    if windows == [] then rest else WindowLine(c, windows[0], ObjectLine(c, windows[1..], rest))
  }

  /** A plan for every window from `base` on. */
  predicate Plan(c: Cargo, windows: seq<seq<Round>>, base: nat, window: nat, rest: seq<Arrival>)
    decreases |windows|
  {
    if base >= |c.parcels| then windows == []
    else
      && windows != [] && Planned(c, windows[0], base, window, ObjectLine(c, windows[1..], rest))
      && Plan(c, windows[1..], Next(c, base, window), window, rest)
  }

  // ----- one transmission

  function EntryFor(c: Cargo, q: nat, retry: bool): Entry
    requires q < |c.parcels|
  {
    Entry(q, c.parcels[q].offset, c.parcels[q].payload, retry)
  }

  /** Every entry is the cargo's own frame. */
  predicate FromCargo(c: Cargo, log: seq<Entry>) {
    forall k :: 0 <= k < |log| ==> log[k].sequence < |c.parcels| && log[k] == EntryFor(c, log[k].sequence, log[k].retry)
  }

  lemma OwnSlotFree(c: Cargo, log: seq<Entry>, q: nat)
    requires FromCargo(c, log) && q < |c.parcels| && !Seen(log, q)
    ensures !Taken(log, c.o.frameSize, c.parcels[q].offset / c.o.frameSize)
  {
    forall k | 0 <= k < |log|
      ensures log[k].offset / c.o.frameSize != c.parcels[q].offset / c.o.frameSize
    {
      var p := log[k].sequence;
      assert p != q;
    }
  }

  /** What a transmission does to the receiver. */
  function Landed(c: Cargo, log: seq<Entry>, x: Sent, retry: bool): seq<Entry> {
    if Whole(c, x) then log + [EntryFor(c, x.sequence, retry)] else log
  }

  lemma SentIsRead(c: Cargo, x: Sent, rest: seq<Arrival>, log: seq<Entry>, retry: bool, allow: bool)
    requires Arrives(c, x, allow) && FromCargo(c, log) && !Seen(log, x.sequence)
    ensures Attempted(Progress(FrameLine(c, x, rest), log), c.o, x.sequence, retry, allow)
            == (if Whole(c, x) then Accepted else TryAgain, Progress(rest, Landed(c, log, x, retry)))
  {
    hide ReadFrame, Raw, Payload, Wire, Carries, Taken, Seen, HeaderUsable, StopsShort, Drain, HeaderFor;
    var p := c.parcels[x.sequence];
    match x {
      case Framed(q, wire) =>
        OwnSlotFree(c, log, q);
        if Whole(c, x) {
          SentFrameIsDelivered(p, c.o, q, rest);
        } else {
          DamagedFrameIsRetryable(p, c.o, q, wire, rest);
        }
      case Garbled(q, bytes) =>
        GarbledIsDrained(bytes, rest, c.o, q);
      case Cut(q, bytes) =>
        CutIsDrained(bytes, rest, c.o, q);
    }
  }

  lemma LandedIsCargo(c: Cargo, log: seq<Entry>, x: Sent, retry: bool, allow: bool)
    requires Arrives(c, x, allow) && FromCargo(c, log)
    ensures FromCargo(c, Landed(c, log, x, retry))
    ensures forall q: nat :: Seen(Landed(c, log, x, retry), q) <==> Seen(log, q) || (Whole(c, x) && q == x.sequence)
  {
    hide Seen, Wire, Payload;
    forall q: nat
      ensures Seen(Landed(c, log, x, retry), q) <==> Seen(log, q) || (Whole(c, x) && q == x.sequence)
    {
      SeenMore(log, EntryFor(c, x.sequence, retry), q);
    }
  }

  // ----- one sweep over a list of transmissions

  function LandedAll(c: Cargo, log: seq<Entry>, xs: seq<Sent>, retry: bool): seq<Entry>
    decreases xs
  {
    if xs == [] then log else LandedAll(c, Landed(c, log, xs[0], retry), xs[1..], retry)
  }

  predicate Ascending(xs: seq<Sent>) {
    forall j, k :: 0 <= j < k < |xs| ==> xs[j].sequence < xs[k].sequence
  }

  predicate NoneSeen(log: seq<Entry>, xs: seq<Sent>) {
    forall k :: 0 <= k < |xs| ==> !Seen(log, xs[k].sequence)
  }

  lemma {:induction false} DamagedAreSent(c: Cargo, xs: seq<Sent>, q: nat)
    requires q in Damaged(c, xs)
    ensures exists k :: 0 <= k < |xs| && xs[k].sequence == q
    decreases xs
  {
    hide Whole;
    if Whole(c, xs[0]) || q != xs[0].sequence {
      DamagedAreSent(c, xs[1..], q);
      var k :| 0 <= k < |xs[1..]| && xs[1..][k].sequence == q;
      assert xs[k + 1].sequence == q;
    }
  }

  /** Exactly the transmissions that arrive whole end in the log. */
  lemma {:induction false} LandedAreSeen(c: Cargo, log: seq<Entry>, xs: seq<Sent>, retry: bool, allow: bool, q: nat)
    requires AllArrive(c, xs, allow) && FromCargo(c, log) && Ascending(xs)
    ensures FromCargo(c, LandedAll(c, log, xs, retry))
    ensures Seen(LandedAll(c, log, xs, retry), q)
       <==> Seen(log, q) || ((exists k :: 0 <= k < |xs| && xs[k].sequence == q) && q !in Damaged(c, xs))
    decreases xs
  {
    hide Seen, Whole, Arrives, FromCargo;
    if xs != [] {
      var x, others := xs[0], xs[1..];
      LandedIsCargo(c, log, x, retry, allow);
      LandedAreSeen(c, Landed(c, log, x, retry), others, retry, allow, q);
      if q in Damaged(c, others) {
        DamagedAreSent(c, others, q);
      }
      assert forall k :: 0 < k < |xs| ==> xs[k] == others[k - 1];
      assert forall k :: 0 <= k < |others| ==> others[k] == xs[k + 1];
    }
  }

  /** The frames of a window that a bitmap names, from frame i on. */
  function Listing(bitmap: nat, base: nat, i: nat, count: nat): seq<nat>
    decreases count - i
  {
    if i >= count then []
    else if Has(bitmap, i) then [base + i] + Listing(bitmap, base, i + 1, count)
    else Listing(bitmap, base, i + 1, count)
  }

  ghost predicate SameFrom(m: nat, n: nat, i: nat) {
    forall j: nat :: j >= i ==> (Has(m, j) <==> Has(n, j))
  }

  ghost predicate SameBelow(m: nat, n: nat, i: nat) {
    forall j: nat :: j < i ==> (Has(m, j) <==> Has(n, j))
  }

  ghost predicate NoneAt(m: nat, i: nat) {
    forall j: nat :: j >= i ==> !Has(m, j)
  }

  lemma {:induction false} ListingSame(m: nat, n: nat, base: nat, i: nat, count: nat)
    requires SameFrom(m, n, i)
    ensures Listing(m, base, i, count) == Listing(n, base, i, count)
    decreases count - i
  {
    hide Has;
    if i < count {
      ListingSame(m, n, base, i + 1, count);
    }
  }

  lemma {:induction false} ListingAbove(m: nat, base: nat, i: nat, count: nat)
    ensures forall k :: 0 <= k < |Listing(m, base, i, count)| ==> base + i <= Listing(m, base, i, count)[k] < base + count
    ensures forall j, k :: 0 <= j < k < |Listing(m, base, i, count)| ==> Listing(m, base, i, count)[j] < Listing(m, base, i, count)[k]
    decreases count - i
  {
    hide Has;
    if i < count {
      ListingAbove(m, base, i + 1, count);
    }
  }

  /** A bitmap with no bit at all is zero. */
  lemma {:induction false} NoBitIsZero(m: nat)
    requires NoneAt(m, 0)
    ensures m == 0
    decreases m
  {
    if m > 0 {
      assert !Has(m, 0);
      forall j: nat
        ensures !Has(m / 2, j)
      {
        assert !Has(m, j + 1);
      }
      NoBitIsZero(m / 2);
    }
  }

  /** The list of missing frames is empty exactly for the empty bitmap. */
  lemma ListingEmpty(m: nat, base: nat, count: nat)
    requires NoneAt(m, count)
    ensures Listing(m, base, 0, count) == [] <==> m == 0
  {
    hide Has;
    if m == 0 {
      ListingNone(base, 0, count);
    }
    if Listing(m, base, 0, count) == [] {
      ListingCovers(m, base, 0, count);
      NoBitIsZero(m);
    }
  }

  lemma {:induction false} ListingNone(base: nat, i: nat, count: nat)
    ensures Listing(0, base, i, count) == []
    decreases count - i
  {
    hide Has;
    EmptyHas(i);
    if i < count {
      ListingNone(base, i + 1, count);
    }
  }

  lemma {:induction false} ListingCovers(m: nat, base: nat, i: nat, count: nat)
    requires Listing(m, base, i, count) == []
    ensures forall j: nat :: i <= j < count ==> !Has(m, j)
    decreases count - i
  {
    hide Has;
    if i < count {
      ListingCovers(m, base, i + 1, count);
    }
  }

  /** Where a sweep over these transmissions ends. */
  ghost predicate Swept(c: Cargo, r: Sweep, xs: seq<Sent>, rest: seq<Arrival>, log: seq<Entry>, retry: bool,
                  bitmap: nat, base: nat, i: nat, count: nat)
  {
    && r.ok && r.progress == Progress(rest, LandedAll(c, log, xs, retry))
    && Listing(r.bitmap, base, i, count) == Damaged(c, xs)
    && SameBelow(r.bitmap, bitmap, i) && NoneAt(r.bitmap, count)
  }

  /** The bitmap behind one transmission of the first pass. */
  lemma FirstBit(bitmap: nat, i: nat, whole: bool) returns (next: nat)
    requires NoneAt(bitmap, i)
    ensures next == if whole then bitmap else With(bitmap, i)
    ensures NoneAt(next, i + 1) && SameBelow(next, bitmap, i) && (Has(next, i) <==> !whole)
  {
    hide Has, With;
    next := if whole then bitmap else With(bitmap, i);
    forall j: nat
      ensures Has(next, j) <==> Has(bitmap, j) || (!whole && i == j)
    {
      WithHas(bitmap, i, j);
    }
  }

  /** And behind one of a retry round. */
  lemma RetryBit(bitmap: nat, i: nat, count: nat, whole: bool) returns (next: nat)
    requires NoneAt(bitmap, count) && Has(bitmap, i)
    ensures next == if whole then Dropped(bitmap, i) else bitmap
    ensures NoneAt(next, count) && SameBelow(next, bitmap, i) && SameFrom(next, bitmap, i + 1) && (Has(next, i) <==> !whole)
  {
    hide Has, Dropped;
    next := if whole then Dropped(bitmap, i) else bitmap;
    forall j: nat
      ensures Has(next, j) <==> Has(bitmap, j) && !(whole && i == j)
    {
      DroppedHas(bitmap, i, j);
    }
  }

  lemma BelowChain(a: nat, b: nat, c: nat, i: nat)
    requires SameBelow(a, b, i + 1) && SameBelow(b, c, i)
    ensures SameBelow(a, c, i) && (Has(a, i) <==> Has(b, i))
  {
    hide Has;
  }

  /** A sweep over x and the others, seen from its first transmission. */
  lemma SweptFirst(c: Cargo, r: Sweep, xs: seq<Sent>, rest: seq<Arrival>, log: seq<Entry>, retry: bool,
                   bitmap: nat, next: nat, base: nat, i: nat, count: nat)
    requires xs != [] && i < count && xs[0].sequence == base + i
    requires Swept(c, r, xs[1..], rest, Landed(c, log, xs[0], retry), retry, next, base, i + 1, count)
    requires SameBelow(next, bitmap, i) && (Has(next, i) <==> !Whole(c, xs[0]))
    ensures Swept(c, r, xs, rest, log, retry, bitmap, base, i, count)
  {
    hide Has, Whole, SameBelow, NoneAt, Landed;
    BelowChain(r.bitmap, next, bitmap, i);
  }

  lemma SweptNothing(c: Cargo, rest: seq<Arrival>, log: seq<Entry>, retry: bool, bitmap: nat, base: nat, count: nat)
    requires NoneAt(bitmap, count)
    ensures Swept(c, Sweep(true, Progress(RoundLine(c, [], rest), log), bitmap), [], rest, log, retry, bitmap, base, count, count)
  {
    hide Has;
  }

  lemma OthersUnseen(c: Cargo, log: seq<Entry>, xs: seq<Sent>, retry: bool, allow: bool)
    requires AllArrive(c, xs, allow) && FromCargo(c, log) && NoneSeen(log, xs) && xs != []
    requires forall k :: 0 < k < |xs| ==> xs[k].sequence != xs[0].sequence
    ensures AllArrive(c, xs[1..], allow) && FromCargo(c, Landed(c, log, xs[0], retry)) && NoneSeen(Landed(c, log, xs[0], retry), xs[1..])
  {
    hide Seen, Whole, Arrives, FromCargo, Landed;
    LandedIsCargo(c, log, xs[0], retry, allow);
    assert forall k :: 0 <= k < |xs[1..]| ==> xs[1..][k] == xs[k + 1];
  }

  lemma {:induction false} FirstSweepFollows(c: Cargo, xs: seq<Sent>, rest: seq<Arrival>, log: seq<Entry>,
                                             base: nat, i: nat, count: nat, bitmap: nat, allow: bool)
    requires AllArrive(c, xs, allow) && i <= count && |xs| == count - i && forall k :: 0 <= k < |xs| ==> xs[k].sequence == base + i + k
    requires FromCargo(c, log) && NoneSeen(log, xs) && NoneAt(bitmap, i)
    ensures Swept(c, FirstSweep(Progress(RoundLine(c, xs, rest), log), c.o, base, i, count, bitmap, allow),
                  xs, rest, log, false, bitmap, base, i, count)
    decreases xs
  {
    hide Seen, Whole, Arrives, FromCargo, Has, With, Attempted, FrameLine, Landed, Swept, SameBelow, NoneAt, Sound;
    CargoSane(c);
    if xs == [] {
      SweptNothing(c, rest, log, false, bitmap, base, count);
    } else {
      var x, others := xs[0], xs[1..];
      SentIsRead(c, x, RoundLine(c, others, rest), log, false, allow);
      OthersUnseen(c, log, xs, false, allow);
      var next := FirstBit(bitmap, i, Whole(c, x));
      FirstSweepFollows(c, others, rest, Landed(c, log, x, false), base, i + 1, count, next, allow);
      var r := FirstSweep(Progress(RoundLine(c, xs, rest), log), c.o, base, i, count, bitmap, allow);
      SweptFirst(c, r, xs, rest, log, false, bitmap, next, base, i, count);
    }
  }

  /** The first frame a bitmap names from i on. */
  lemma ListingStarts(xs: seq<Sent>, bitmap: nat, base: nat, i: nat, count: nat)
    requires Sequences(xs) == Listing(bitmap, base, i, count) && i < count
    ensures !Has(bitmap, i) ==> Sequences(xs) == Listing(bitmap, base, i + 1, count)
    ensures Has(bitmap, i) ==> && xs != [] && xs[0].sequence == base + i
                               && Sequences(xs[1..]) == Listing(bitmap, base, i + 1, count)
                               && forall k :: 0 < k < |xs| ==> xs[k].sequence != xs[0].sequence
  {
    hide Has;
    ListingAbove(bitmap, base, i, count);
    assert forall k :: 0 <= k < |xs| ==> Sequences(xs)[k] == xs[k].sequence;
    if Has(bitmap, i) {
      assert Sequences(xs)[0] == base + i;
      assert Sequences(xs[1..]) == Sequences(xs)[1..];
    }
  }

  lemma SweptSkip(c: Cargo, r: Sweep, xs: seq<Sent>, rest: seq<Arrival>, log: seq<Entry>, bitmap: nat, base: nat, i: nat, count: nat)
    requires i < count && !Has(bitmap, i) && Swept(c, r, xs, rest, log, true, bitmap, base, i + 1, count)
    ensures Swept(c, r, xs, rest, log, true, bitmap, base, i, count)
  {
    hide Has, NoneAt, LandedAll;
    assert Has(r.bitmap, i) <==> Has(bitmap, i);
  }

  lemma {:induction false} RetrySweepFollows(c: Cargo, xs: seq<Sent>, rest: seq<Arrival>, log: seq<Entry>,
                                             base: nat, i: nat, count: nat, bitmap: nat, allow: bool)
    requires AllArrive(c, xs, allow) && i <= count && Sequences(xs) == Listing(bitmap, base, i, count)
    requires FromCargo(c, log) && NoneSeen(log, xs) && NoneAt(bitmap, count)
    ensures Swept(c, RetrySweep(Progress(RoundLine(c, xs, rest), log), c.o, base, i, count, bitmap, allow),
                  xs, rest, log, true, bitmap, base, i, count)
    decreases count - i
  {
    hide Seen, Whole, Arrives, FromCargo, Has, Dropped, Attempted, FrameLine, Landed, Swept, SameBelow, SameFrom, NoneAt,
      Listing, AllArrive, NoneSeen, RetrySweep, RoundLine, LandedAll, Sequences, Sound;
    CargoSane(c);
    var r := RetrySweep(Progress(RoundLine(c, xs, rest), log), c.o, base, i, count, bitmap, allow);
    RetrySweepSteps(Progress(RoundLine(c, xs, rest), log), c.o, base, i, count, bitmap, allow);
    if i == count {
      EmptyListing(xs, bitmap, base, count);
      SweptNothing(c, rest, log, true, bitmap, base, count);
    } else {
      ListingStarts(xs, bitmap, base, i, count);
      if !Has(bitmap, i) {
        RetrySweepFollows(c, xs, rest, log, base, i + 1, count, bitmap, allow);
        SweptSkip(c, r, xs, rest, log, bitmap, base, i, count);
      } else {
        var x, others := xs[0], xs[1..];
        FirstOfAll(c, log, xs, allow);
        RoundLineStarts(c, xs, rest, allow);
        OthersUnseen(c, log, xs, true, allow);
        SentIsRead(c, x, RoundLine(c, others, rest), log, true, allow);
        var next := RetryBit(bitmap, i, count, Whole(c, x));
        ListingSame(next, bitmap, base, i + 1, count);
        RetrySweepFollows(c, others, rest, Landed(c, log, x, true), base, i + 1, count, next, allow);
        SweptFirst(c, r, xs, rest, log, true, bitmap, next, base, i, count);
      }
    }
  }

  /** RetrySweep, one frame of the window at a time. */
  lemma RetrySweepSteps(p: Progress, o: Object, base: nat, i: nat, count: nat, bitmap: nat, allow: bool)
    requires Sane(o)
    ensures i >= count ==> RetrySweep(p, o, base, i, count, bitmap, allow) == Sweep(true, p, bitmap)
    ensures i < count && !Has(bitmap, i) ==>
              RetrySweep(p, o, base, i, count, bitmap, allow) == RetrySweep(p, o, base, i + 1, count, bitmap, allow)
    ensures i < count && Has(bitmap, i) ==>
              var a := Attempted(p, o, base + i, true, allow);
              a.0 == Fatal || RetrySweep(p, o, base, i, count, bitmap, allow)
                              == RetrySweep(a.1, o, base, i + 1, count, if a.0 == Accepted then Dropped(bitmap, i) else bitmap, allow)
  {
    hide Attempted, Has, Dropped;
  }

  lemma RoundLineStarts(c: Cargo, xs: seq<Sent>, rest: seq<Arrival>, allow: bool)
    requires AllArrive(c, xs, allow) && xs != []
    ensures AllArrive(c, xs[1..], allow) && Arrives(c, xs[0], allow) && RoundLine(c, xs, rest) == FrameLine(c, xs[0], RoundLine(c, xs[1..], rest))
  {
    hide Arrives, FrameLine;
  }

  lemma EmptyListing(xs: seq<Sent>, bitmap: nat, base: nat, count: nat)
    requires Sequences(xs) == Listing(bitmap, base, count, count)
    ensures xs == []
  {}

  lemma FirstOfAll(c: Cargo, log: seq<Entry>, xs: seq<Sent>, allow: bool)
    requires AllArrive(c, xs, allow) && NoneSeen(log, xs) && xs != []
    ensures Arrives(c, xs[0], allow) && !Seen(log, xs[0].sequence)
  {}

  // ----- rounds, windows, the object

  /** The answer is read, and nothing else. */
  lemma AnswerRead(a: Answer, rest: seq<Arrival>, log: seq<Entry>)
    requires Answers(a, rest)
    ensures Acknowledged(Progress(AnswerLine(a, rest), log)) == (true, Progress(rest, log))
  {
    hide Confirmed;
    AnswerTaken(a, rest, 4);
  }

  /** The log behind a run: the cargo's frames, with exactly the missing ones added. */
  ghost predicate Completed(c: Cargo, log: seq<Entry>, missing: seq<nat>, log': seq<Entry>) {
    FromCargo(c, log') && forall q: nat :: Seen(log', q) <==> Seen(log, q) || q in missing
  }

  predicate AllUnseen(log: seq<Entry>, missing: seq<nat>) {
    forall k :: 0 <= k < |missing| ==> !Seen(log, missing[k])
  }

  /** What a sweep leaves open is what it lists as damaged. */
  lemma SweepAdds(c: Cargo, log: seq<Entry>, xs: seq<Sent>, retry: bool, allow: bool)
    requires AllArrive(c, xs, allow) && FromCargo(c, log) && Ascending(xs) && NoneSeen(log, xs)
    ensures var log1 := LandedAll(c, log, xs, retry);
            && FromCargo(c, log1) && AllUnseen(log1, Damaged(c, xs))
            && (forall log2 :: Completed(c, log1, Damaged(c, xs), log2) ==> Completed(c, log, Sequences(xs), log2))
  {
    hide Seen, Arrives, Whole, FromCargo;
    var log1 := LandedAll(c, log, xs, retry);
    LandedAreSeen(c, log, xs, retry, allow, 0);
    assert forall k :: 0 <= k < |xs| ==> Sequences(xs)[k] == xs[k].sequence;
    forall q: nat
      ensures Seen(log1, q) <==> Seen(log, q) || (q in Sequences(xs) && q !in Damaged(c, xs))
      ensures q in Damaged(c, xs) ==> q in Sequences(xs) && !Seen(log1, q)
    {
      LandedAreSeen(c, log, xs, retry, allow, q);
      if q in Damaged(c, xs) {
        DamagedAreSent(c, xs, q);
      }
    }
  }

  lemma {:induction false} RoundsFollow(c: Cargo, answer: Answer, rounds: seq<Round>, missing: seq<nat>, rest: seq<Arrival>, log: seq<Entry>,
                                        base: nat, count: nat, bitmap: nat, round: nat, allow: bool)
    requires Answers(answer, WindowLine(c, rounds, rest))
    requires Schedule(c, rounds, missing, allow, rest) && missing == Listing(bitmap, base, 0, count) && NoneAt(bitmap, count)
    requires |rounds| + round <= 8 && FromCargo(c, log) && AllUnseen(log, missing)
    ensures var line := AnswerLine(answer, WindowLine(c, rounds, rest));
            var r := Rounds(Progress(line, log), c.o, base, count, bitmap, round, allow);
            r.0 && r.1.line == rest && Completed(c, log, missing, r.1.log)
    decreases |rounds|
  {
    hide Seen, Arrives, Whole, FromCargo, Listing, Acknowledged, RetrySweep, NoneAt, AllArrive, Completed, AllUnseen, Schedule,
      WindowLine, Sequences, Damaged, LandedAll, RoundLine, Sound, Answers, AnswerLine;
    CargoSane(c);
    var line := WindowLine(c, rounds, rest);
    AnswerRead(answer, line, log);
    ListingEmpty(bitmap, base, count);
    ScheduleStarts(c, rounds, missing, allow, rest);
    if rounds == [] {
      NothingMissingHere(c, log);
    } else {
      var xs, next := rounds[0].sent, rounds[0].answer;
      var behind := AnswerLine(next, WindowLine(c, rounds[1..], rest));
      ListedAscend(xs, log, bitmap, base, count);
      RetrySweepFollows(c, xs, behind, log, base, 0, count, bitmap, allow);
      SweepAdds(c, log, xs, true, allow);
      var r := RetrySweep(Progress(line, log), c.o, base, 0, count, bitmap, allow);
      RoundsFollow(c, next, rounds[1..], Damaged(c, xs), rest, LandedAll(c, log, xs, true), base, count, r.bitmap, round + 1, allow);
    }
  }

  lemma ScheduleStarts(c: Cargo, rounds: seq<Round>, missing: seq<nat>, allow: bool, rest: seq<Arrival>)
    requires Schedule(c, rounds, missing, allow, rest)
    ensures rounds == [] <==> missing == []
    ensures rounds == [] ==> WindowLine(c, rounds, rest) == rest
    ensures rounds != [] ==>
              && Sequences(rounds[0].sent) == missing && AllArrive(c, rounds[0].sent, allow)
              && Answers(rounds[0].answer, WindowLine(c, rounds[1..], rest))
              && Schedule(c, rounds[1..], Damaged(c, rounds[0].sent), allow, rest)
              && WindowLine(c, rounds, rest)
                 == RoundLine(c, rounds[0].sent, AnswerLine(rounds[0].answer, WindowLine(c, rounds[1..], rest)))
  {
    hide AllArrive, Damaged, Sequences, RoundLine, Answers, AnswerLine;
  }

  lemma NothingMissingHere(c: Cargo, log: seq<Entry>)
    requires FromCargo(c, log)
    ensures Completed(c, log, [], log)
  {}

  lemma ListedAscend(xs: seq<Sent>, log: seq<Entry>, bitmap: nat, base: nat, count: nat)
    requires Sequences(xs) == Listing(bitmap, base, 0, count) && AllUnseen(log, Sequences(xs))
    ensures Ascending(xs) && NoneSeen(log, xs)
  {
    hide Seen;
    ListingAbove(bitmap, base, 0, count);
    assert forall k :: 0 <= k < |xs| ==> Sequences(xs)[k] == xs[k].sequence;
  }

  /** The log holds exactly the frames below n. */
  ghost predicate Upto(log: seq<Entry>, n: nat) {
    forall q: nat :: Seen(log, q) <==> q < n
  }

  /** A planned window is received whole, and the line is left behind it. */
  lemma WindowFollows(c: Cargo, rounds: seq<Round>, base: nat, window: nat, rest: seq<Arrival>, log: seq<Entry>)
    requires window > 0 && Planned(c, rounds, base, window, rest) && FromCargo(c, log) && Upto(log, base)
    ensures var r := WindowRun(Progress(WindowLine(c, rounds, rest), log), c.o, base, CountAt(base, |c.parcels|, window), window == 1);
            r.0 && r.1.line == rest && FromCargo(c, r.1.log) && Upto(r.1.log, Next(c, base, window))
  {
    hide Seen, Arrives, Whole, FromCargo, FirstSweep, Rounds, AllArrive, AllUnseen, Schedule, WindowLine, Sequences, Damaged,
      LandedAll, RoundLine, Range, Upto, Completed, NoneAt, NoneSeen, Ascending, Listing, Sound, Answers, AnswerLine;
    CargoSane(c);
    var count, allow := CountAt(base, |c.parcels|, window), window == 1;
    var missing := Range(base, count);
    RangeStarts(base, count);
    ScheduleStarts(c, rounds, missing, allow, rest);
    var xs, answer := rounds[0].sent, rounds[0].answer;
    var behind := AnswerLine(answer, WindowLine(c, rounds[1..], rest));
    RangeAscends(xs, log, base, count);
    NoBits();
    FirstSweepFollows(c, xs, behind, log, base, 0, count, 0, allow);
    SweepAdds(c, log, xs, false, allow);
    var log1 := LandedAll(c, log, xs, false);
    var s := FirstSweep(Progress(RoundLine(c, xs, behind), log), c.o, base, 0, count, 0, allow);
    RoundsFollow(c, answer, rounds[1..], Damaged(c, xs), rest, log1, base, count, s.bitmap, 0, allow);
    var r := Rounds(s.progress, c.o, base, count, s.bitmap, 0, allow);
    RangeCompleted(c, log, base, count, r.1.log);
  }

  lemma RangeStarts(base: nat, count: nat)
    ensures count > 0 ==> Range(base, count) != []
  {}

  lemma RangeCompleted(c: Cargo, log: seq<Entry>, base: nat, count: nat, log': seq<Entry>)
    requires Upto(log, base) && Completed(c, log, Range(base, count), log')
    ensures FromCargo(c, log') && Upto(log', base + count)
  {
    hide Seen, FromCargo;
    forall q: nat
      ensures q in Range(base, count) <==> base <= q < base + count
    {
      if base <= q < base + count {
        assert Range(base, count)[q - base] == q;
      }
    }
  }

  lemma NoBits()
    ensures NoneAt(0, 0)
  {
    forall j: nat
      ensures !Has(0, j)
    {
      EmptyHas(j);
    }
  }

  lemma RangeAscends(xs: seq<Sent>, log: seq<Entry>, base: nat, count: nat)
    requires Sequences(xs) == Range(base, count) && Upto(log, base)
    ensures |xs| == count && (forall k :: 0 <= k < |xs| ==> xs[k].sequence == base + k)
    ensures Ascending(xs) && NoneSeen(log, xs)
  {
    hide Seen;
    assert forall k :: 0 <= k < |xs| ==> Sequences(xs)[k] == xs[k].sequence;
    assert forall k :: 0 <= k < count ==> Range(base, count)[k] == base + k;
  }

  /** On a planned line the whole object runs to success: every frame is in the log, and nothing else. */
  lemma {:induction false} ObjectFollows(c: Cargo, windows: seq<seq<Round>>, base: nat, window: nat, rest: seq<Arrival>,
                                         log: seq<Entry>, patience: nat)
    requires window > 0 && Plan(c, windows, base, window, rest) && |windows| <= patience && base <= |c.parcels|
    requires FromCargo(c, log) && Upto(log, base)
    ensures var r := ObjectRun(Progress(ObjectLine(c, windows, rest), log), c.o, base, |c.parcels|, window, patience);
            r.0 && r.1.line == rest && FromCargo(c, r.1.log) && Upto(r.1.log, |c.parcels|)
    decreases |windows|
  {
    hide Upto, FromCargo, Planned, WindowRun, WindowLine, Sound;
    CargoSane(c);
    if base < |c.parcels| {
      var behind := ObjectLine(c, windows[1..], rest);
      WindowFollows(c, windows[0], base, window, behind, log);
      var w := WindowRun(Progress(WindowLine(c, windows[0], behind), log), c.o, base, CountAt(base, |c.parcels|, window), window == 1);
      ObjectFollows(c, windows[1..], Next(c, base, window), window, rest, w.1.log, patience - 1);
    }
  }

  // ----- the image

  /** The cargo's payloads in their places, and the fill everywhere else. */
  ghost predicate IsImage(image: seq<byte>, fill: seq<byte>, c: Cargo) {
    && |image| == |fill| == c.o.size
    && (forall q :: 0 <= q < |c.parcels| ==>
          c.parcels[q].offset + |c.parcels[q].payload| <= |image|
          && image[c.parcels[q].offset..c.parcels[q].offset + |c.parcels[q].payload|] == c.parcels[q].payload)
    && (forall x :: 0 <= x < |image| && (forall q :: 0 <= q < |c.parcels| ==> !Covers(c.parcels[q], x)) ==> image[x] == fill[x])
  }

  predicate Covers(p: Parcel, x: nat) {
    p.offset <= x < p.offset + |p.payload|
  }

  predicate Covered(log: seq<Entry>, x: nat) {
    exists k :: 0 <= k < |log| && Writes(log[k], x)
  }

  lemma CoveredMore(log: seq<Entry>, x: nat)
    requires log != []
    ensures Covered(log, x) <==> Covered(log[..|log| - 1], x) || Writes(log[|log| - 1], x)
  {
    hide Writes;
    var n := |log| - 1;
    var front := log[..n];
    if Covered(front, x) {
      var k :| 0 <= k < |front| && Writes(front[k], x);
      assert log[k] == front[k];
    }
    if Covered(log, x) {
      var k :| 0 <= k < |log| && Writes(log[k], x);
      if k < n {
        assert front[k] == log[k];
      }
    }
  }

  lemma CargoFront(c: Cargo, log: seq<Entry>)
    requires FromCargo(c, log) && log != []
    ensures FromCargo(c, log[..|log| - 1])
    ensures var e := log[|log| - 1]; e.sequence < |c.parcels| && e == EntryFor(c, e.sequence, e.retry)
  {
    hide EntryFor;
  }

  lemma ImageAt(c: Cargo, image: seq<byte>, fill: seq<byte>, q: nat, x: nat)
    requires IsImage(image, fill, c) && q < |c.parcels|
    ensures c.parcels[q].offset + |c.parcels[q].payload| <= |image| == |fill|
    ensures Covers(c.parcels[q], x) ==> x < |image| && image[x] == c.parcels[q].payload[x - c.parcels[q].offset]
  {
    var p := c.parcels[q];
    if Covers(p, x) {
      SliceAt(image, p.offset, p.payload, x);
    }
  }

  /** In whatever order the frames of the cargo were accepted, they replay to the same image, cell by cell. */
  lemma {:induction false} ReplayAt(c: Cargo, image: seq<byte>, fill: seq<byte>, log: seq<Entry>, x: nat)
    requires IsImage(image, fill, c) && FromCargo(c, log) && x < |image| == |fill|
    ensures Replay(fill, log)[x] == if Covered(log, x) then image[x] else fill[x]
    decreases |log|
  {
    hide IsImage, Covered, Overlay, FromCargo;
    if log != [] {
      var front, e := log[..|log| - 1], log[|log| - 1];
      CargoFront(c, log);
      CoveredMore(log, x);
      ReplayAt(c, image, fill, front, x);
      ImageAt(c, image, fill, e.sequence, x);
      OverlayAt(Replay(fill, front), e.offset, e.payload, x);
    } else {
      NothingCovered(x);
    }
  }

  lemma NothingCovered(x: nat)
    ensures !Covered([], x)
  {}

  lemma OverlayAt(mem: seq<byte>, at: nat, data: seq<byte>, x: nat)
    requires at + |data| <= |mem| && x < |mem|
    ensures Overlay(mem, at, data)[x] == if at <= x < at + |data| then data[x - at] else mem[x]
  {}

  lemma SliceAt(s: seq<byte>, at: nat, data: seq<byte>, x: nat)
    requires at + |data| <= |s| && s[at..at + |data|] == data && at <= x < at + |data|
    ensures s[x] == data[x - at]
  {
    assert s[at..at + |data|][x - at] == s[x];
  }

  lemma ReplayIsImage(c: Cargo, image: seq<byte>, fill: seq<byte>, log: seq<Entry>)
    requires IsImage(image, fill, c) && FromCargo(c, log) && Upto(log, |c.parcels|)
    ensures Replay(fill, log) == image
  {
    hide FromCargo;
    assert |image| == |fill|;
    forall x | 0 <= x < |image|
      ensures Replay(fill, log)[x] == image[x]
    {
      ReplayAt(c, image, fill, log, x);
      if !Covered(log, x) {
        NotCovered(c, log, x);
      }
    }
  }

  lemma NotCovered(c: Cargo, log: seq<Entry>, x: nat)
    requires FromCargo(c, log) && Upto(log, |c.parcels|) && !Covered(log, x)
    ensures forall q :: 0 <= q < |c.parcels| ==> !Covers(c.parcels[q], x)
  {
    forall q | 0 <= q < |c.parcels|
      ensures !Covers(c.parcels[q], x)
    {
      assert Seen(log, q);
      var k :| 0 <= k < |log| && log[k].sequence == q;
      assert log[k] == EntryFor(c, q, log[k].retry) && !Writes(log[k], x);
    }
  }

  /** Progress: on a line that carries every frame whole within the retry rounds, with every acknowledgement answered in
      time or its confirmation lost right in front of the next frame, and inside the transfer limit, receive_v3_object
      succeeds, the destination is the sender's image, and the line is left behind it. */
  lemma ObjectArrives(c: Cargo, windows: seq<seq<Round>>, window: nat, rest: seq<Arrival>, fillFf: bool, image: seq<byte>, patience: nat)
    requires 1 <= window <= WINDOW_MAX && |c.parcels| > 0 && Plan(c, windows, 0, window, rest) && |windows| <= patience
    requires IsImage(image, Filled(c.o, fillFf), c)
    ensures var line := ObjectLine(c, windows, rest);
            var run := ObjectRun(Progress(line, []), c.o, 0, |c.parcels|, window, patience);
            && run.1.line == rest && Replay(Filled(c.o, fillFf), run.1.log) == image
            && Received(line, c.o, |c.parcels|, window, fillFf, Crc(image), Sha256.Sum(image), true, patience)
  {
    hide Crc, Sha256.Sum, Plan, ObjectLine, ObjectRun, Replay, FromCargo, IsImage, Upto;
    EmptyLog(c);
    ObjectFollows(c, windows, 0, window, rest, [], patience);
    var run := ObjectRun(Progress(ObjectLine(c, windows, rest), []), c.o, 0, |c.parcels|, window, patience);
    ReplayIsImage(c, image, Filled(c.o, fillFf), run.1.log);
  }

  /** A frame on the line always starts with the byte that stands in for a lost confirmation. */
  lemma FramesStandIn(c: Cargo, x: Sent, rest: seq<Arrival>)
    requires x.Framed? && x.sequence < |c.parcels|
    ensures FrameLine(c, x, rest) != [] && FrameLine(c, x, rest)[0] == Data(FRAME_START)
  {
    hide Wire, Sound, Raw, Crc;
    CargoCarries(c, x.sequence);
    hide Carries;
    var raw := Raw(c.parcels[x.sequence], c.o, x.sequence);
    RawStarts(c.parcels[x.sequence], c.o, x.sequence);
    assert FrameLine(c, x, rest) == OnLine(raw) + (OnLine(x.wire) + rest);
  }

  lemma RawStarts(p: Parcel, o: Object, sequence: u32)
    requires Carries(p, o) && Sane(o)
    ensures Raw(p, o, sequence)[0] == FRAME_START
  {
    hide Crc, Carries, PutWord, Wire;
    var h := HeaderFor(p, o, sequence);
    FrontStarts(h);
  }

  lemma FrontStarts(h: Header)
    requires h.magic == FRAME_MAGIC
    ensures Front(h)[0] == FRAME_START
  {
    hide PutWord;
    assert Put32(h.magic)[0] == FRAME_START;
    assert Front(h)[0] == Put32(h.magic)[0] by {
      hide Put32;
    }
  }

  lemma EmptyLog(c: Cargo)
    ensures FromCargo(c, []) && Upto([], 0)
  {}

  /** Damage within four consecutive wire bytes is always of the refused kind. */
  lemma BurstIsRefused(c: Cargo, x: Sent, at: nat, allow: bool)
    requires x.Framed? && x.sequence < |c.parcels| && |x.wire| == |Wire(c.parcels[x.sequence])|
    requires forall k :: 0 <= k < |x.wire| && !(at <= k < at + 4) ==> x.wire[k] == Wire(c.parcels[x.sequence])[k]
    ensures Arrives(c, x, allow)
  {
    hide Crc, Wire, Lz4.Decode, Front;
    var p := c.parcels[x.sequence];
    if x.wire != Wire(p) {
      BurstDetected(x.wire, Wire(p), at);
    }
  }
}
