// pmos_crc32 of include/postmerkos_uart_crypto.h: the reflected CRC-32 register, one bit at a time.
module Crc32 {
  import opened Bytes
  import opened Words

  function Xor(a: bv32, b: bv32): bv32 {
    a ^ b
  }

  const POLYNOMIAL: bv32 := 0xedb88320
  const INITIAL: bv32 := 0xffff_ffff

  function BitStep(c: bv32): bv32 {
    if c & 1 == 1 then (c >> 1) ^ POLYNOMIAL else c >> 1
  }

  function Steps(c: bv32, n: nat): bv32
    decreases n, c
  {
    if n == 0 then c else Steps(BitStep(c), n - 1)
  }

  function ByteStep(c: bv32, b: byte): bv32 {
    Steps(Xor(c, Word(b)), 8)
  }

  /** The register after absorbing a whole message. */
  function Absorb(c: bv32, data: seq<byte>): bv32
    decreases data
  {
    if data == [] then c else Absorb(ByteStep(c, data[0]), data[1..])
  }

  function Crc(data: seq<byte>): bv32 {
    Xor(INITIAL, Absorb(INITIAL, data))
  }

  /** pmos_crc32_update: both loops of the source. */
  method Update(crc: bv32, data: seq<byte>) returns (r: bv32)
    ensures r == Absorb(crc, data)
  {
    r := crc;
    var next := 0;
    while next < |data|
      invariant next <= |data|
      invariant Absorb(r, data[next..]) == Absorb(crc, data)
    {
      assert data[next..][1..] == data[next + 1..];
      ghost var before := r;
      r := r ^ Word(data[next]);
      for i := 0 to 8
        invariant Steps(r, 8 - i) == ByteStep(before, data[next])
      {
        r := if r & 1 == 1 then (r >> 1) ^ POLYNOMIAL else r >> 1;
      }
      next := next + 1;
    }
  }

  /** pmos_crc32. */
  method Compute(data: seq<byte>) returns (r: bv32)
    ensures r == Crc(data)
  {
    var c := Update(INITIAL, data);
    r := INITIAL ^ c;
  }

  // ----- streaming

  lemma AbsorbNothing(c: bv32)
    ensures Absorb(c, []) == c
  {}

  lemma {:induction false} AbsorbConcat(c: bv32, a: seq<byte>, b: seq<byte>)
    ensures Absorb(Absorb(c, a), b) == Absorb(c, a + b)
    decreases a
  {
    if a == [] {
      assert a + b == b;
    } else {
      assert (a + b)[1..] == a[1..] + b;
      AbsorbConcat(ByteStep(c, a[0]), a[1..], b);
    }
  }

  // ----- the register step is xor-linear and injective

  lemma LowBit(a: bv32)
    ensures a & 1 == 0 || a & 1 == 1
  {}

  lemma LinearEvenEven(a: bv32, b: bv32)
    requires a & 1 == 0 && b & 1 == 0
    ensures BitStep(a ^ b) == BitStep(a) ^ BitStep(b)
  {}

  lemma LinearOddEven(a: bv32, b: bv32)
    requires a & 1 == 1 && b & 1 == 0
    ensures BitStep(a ^ b) == BitStep(a) ^ BitStep(b)
  {}

  lemma LinearOddOdd(a: bv32, b: bv32)
    requires a & 1 == 1 && b & 1 == 1
    ensures BitStep(a ^ b) == BitStep(a) ^ BitStep(b)
  {}

  lemma XorCommutes(a: bv32, b: bv32)
    ensures a ^ b == b ^ a
  {}

  lemma BitStepLinear(a: bv32, b: bv32)
    ensures BitStep(Xor(a, b)) == Xor(BitStep(a), BitStep(b))
  {
    LowBit(a);
    LowBit(b);
    if a & 1 == 0 && b & 1 == 0 {
      LinearEvenEven(a, b);
    } else if b & 1 == 0 {
      LinearOddEven(a, b);
    } else if a & 1 == 0 {
      XorCommutes(a, b);
      XorCommutes(BitStep(a), BitStep(b));
      LinearOddEven(b, a);
    } else {
      LinearOddOdd(a, b);
    }
  }

  lemma BitStepKernel(a: bv32)
    requires BitStep(a) == 0
    ensures a == 0
  {}

  lemma {:induction false} StepsLinear(a: bv32, b: bv32, n: nat)
    ensures Steps(Xor(a, b), n) == Xor(Steps(a, n), Steps(b, n))
    decreases n
  {
    hide BitStep, Xor;
    if n > 0 {
      BitStepLinear(a, b);
      StepsLinear(BitStep(a), BitStep(b), n - 1);
    }
  }

  lemma {:induction false} StepsKernel(a: bv32, n: nat)
    requires Steps(a, n) == 0
    ensures a == 0
    decreases n
  {
    if n > 0 {
      StepsKernel(BitStep(a), n - 1);
      BitStepKernel(a);
    }
  }

  lemma XorZero(a: bv32, b: bv32)
    ensures Xor(a, b) == 0 ==> a == b
    ensures a == b ==> Xor(a, b) == 0
  {}

  lemma StepsInjective(a: bv32, b: bv32, n: nat)
    requires Steps(a, n) == Steps(b, n)
    ensures a == b
  {
    StepsLinear(a, b, n);
    XorZero(Steps(a, n), Steps(b, n));
    StepsKernel(Xor(a, b), n);
    XorZero(a, b);
  }

  lemma XorCancel(a: bv32, b: bv32, w: bv32)
    ensures Xor(a, w) == Xor(b, w) ==> a == b
    ensures Xor(w, a) == Xor(w, b) ==> a == b
  {}

  /** Two different registers stay different whatever common bytes follow. */
  lemma {:induction false} AbsorbInjective(a: bv32, b: bv32, data: seq<byte>)
    requires Absorb(a, data) == Absorb(b, data)
    ensures a == b
    decreases data
  {
    if data != [] {
      AbsorbInjective(ByteStep(a, data[0]), ByteStep(b, data[0]), data[1..]);
      StepsInjective(Xor(a, Word(data[0])), Xor(b, Word(data[0])), 8);
      XorCancel(a, b, Word(data[0]));
    }
  }

  // ----- up to four bytes act on the register as one 32-bit word

  function Up(x: bv32): bv32 {
    x << 8
  }

  function Down(x: bv32): bv32 {
    x >> 8
  }

  /** No bit of x is lost by shifting it up one byte. */
  predicate Fits(x: bv32) {
    x & 0xff00_0000 == 0
  }

  function Half(y: bv32): bv32 {
    y >> 1
  }

  predicate Even(y: bv32) {
    y & 1 == 0
  }

  /** Up to four bytes as one little-endian register word. */
  function Pack(w: seq<byte>): bv32 {
    if w == [] then 0 else Xor(Word(w[0]), Up(Pack(w[1..])))
  }

  lemma {:induction false} StepsAdd(c: bv32, m: nat, n: nat)
    ensures Steps(Steps(c, m), n) == Steps(c, m + n)
    decreases m
  {
    hide BitStep;
    if m > 0 {
      StepsAdd(BitStep(c), m - 1, n);
    }
  }

  lemma EvenStep(y: bv32)
    requires Even(y)
    ensures BitStep(y) == Half(y)
  {}

  lemma EvenLow(y: bv32)
    requires y & 0xff == 0
    ensures y & 1 == 0 && (y >> 1) & 1 == 0 && (y >> 1 >> 1) & 1 == 0
    ensures (y >> 1 >> 1 >> 1) & 1 == 0 && (y >> 1 >> 1 >> 1 >> 1) & 1 == 0
    ensures (y >> 1 >> 1 >> 1 >> 1 >> 1) & 1 == 0 && (y >> 1 >> 1 >> 1 >> 1 >> 1 >> 1) & 1 == 0
    ensures (y >> 1 >> 1 >> 1 >> 1 >> 1 >> 1 >> 1) & 1 == 0
    ensures y >> 1 >> 1 >> 1 >> 1 >> 1 >> 1 >> 1 >> 1 == y >> 8
  {}

  lemma ShiftBack(x: bv32)
    requires x & 0xff00_0000 == 0
    ensures (x << 8) & 0xff == 0 && (x << 8) >> 8 == x
  {}

  lemma EvenChain(x: bv32) returns (y: bv32, y1: bv32, y2: bv32, y3: bv32, y4: bv32, y5: bv32, y6: bv32, y7: bv32)
    requires Fits(x)
    ensures y == Up(x) && Even(y) && y1 == Half(y) && Even(y1) && y2 == Half(y1) && Even(y2) && y3 == Half(y2) && Even(y3)
    ensures y4 == Half(y3) && Even(y4) && y5 == Half(y4) && Even(y5) && y6 == Half(y5) && Even(y6) && y7 == Half(y6) && Even(y7)
    ensures x == Half(y7)
  {
    ShiftBack(x);
    EvenLow(x << 8);
    y := Up(x); y1 := Half(y); y2 := Half(y1); y3 := Half(y2);
    y4 := Half(y3); y5 := Half(y4); y6 := Half(y5); y7 := Half(y6);
  }

  /** Eight steps undo a shift by one byte when no bit was lost. */
  lemma ShiftOut(x: bv32)
    requires Fits(x)
    ensures Steps(Up(x), 8) == x
  {
    hide BitStep, Up, Fits, Half, Even;
    var y, y1, y2, y3, y4, y5, y6, y7 := EvenChain(x);
    EvenStep(y); EvenStep(y1); EvenStep(y2); EvenStep(y3); EvenStep(y4); EvenStep(y5); EvenStep(y6); EvenStep(y7);
    EightSteps(y, y1, y2, y3, y4, y5, y6, y7, x);
  }

  lemma EightSteps(y: bv32, y1: bv32, y2: bv32, y3: bv32, y4: bv32, y5: bv32, y6: bv32, y7: bv32, y8: bv32)
    requires BitStep(y) == y1 && BitStep(y1) == y2 && BitStep(y2) == y3 && BitStep(y3) == y4
    requires BitStep(y4) == y5 && BitStep(y5) == y6 && BitStep(y6) == y7 && BitStep(y7) == y8
    ensures Steps(y, 8) == y8
  {
    hide BitStep;
    assert Steps(y4, 4) == Steps(y5, 3) == Steps(y6, 2) == Steps(y7, 1) == Steps(y8, 0);
    assert Steps(y, 8) == Steps(y1, 7) == Steps(y2, 6) == Steps(y3, 5) == Steps(y4, 4);
  }

  lemma JoinOne(low: bv32)
    requires low & 0xffff_ff00 == 0
    ensures Xor(low, Up(0)) & 0xffff_ff00 == 0
  {}

  lemma JoinTwo(low: bv32, high: bv32)
    requires low & 0xffff_ff00 == 0 && high & 0xffff_ff00 == 0
    ensures Xor(low, Up(high)) & 0xffff_0000 == 0
  {}

  lemma JoinThree(low: bv32, high: bv32)
    requires low & 0xffff_ff00 == 0 && high & 0xffff_0000 == 0
    ensures Fits(Xor(low, Up(high)))
  {}

  lemma FitsMore(x: bv32)
    ensures x == 0 ==> Fits(x)
    ensures x & 0xffff_ff00 == 0 ==> Fits(x)
    ensures x & 0xffff_0000 == 0 ==> Fits(x)
  {}

  lemma PackFits(w: seq<byte>)
    requires |w| <= 3
    ensures Fits(Pack(w))
  {
    hide Xor, Up, Fits, Word, Register;
    FitsMore(Pack(w));
    assert w[0..] == w;
    if |w| >= 1 {
      var last := w[|w| - 1..];
      assert last == [w[|w| - 1]] && last[1..] == [];
      WordHigh(last[0]);
      JoinOne(Word(last[0]));
    }
    if |w| >= 2 {
      var last := w[|w| - 2..];
      assert last[1..] == w[|w| - 1..];
      WordHigh(last[0]);
      JoinTwo(Word(last[0]), Pack(last[1..]));
    }
    if |w| == 3 {
      WordHigh(w[0]);
      JoinThree(Word(w[0]), Pack(w[1..]));
    }
  }

  lemma SplitJoined(low: bv32, high: bv32, low': bv32, high': bv32)
    requires low & 0xffff_ff00 == 0 && Fits(high) && low' & 0xffff_ff00 == 0 && Fits(high')
    requires Xor(low, Up(high)) == Xor(low', Up(high'))
    ensures low == low' && high == high'
  {}

  lemma XorAssociates(a: bv32, b: bv32, c: bv32)
    ensures Xor(Xor(a, b), c) == Xor(a, Xor(b, c))
  {}

  lemma XorIdentity(c: bv32)
    ensures Xor(c, 0) == c
  {}

  /** Absorbing w is one xor with the packed word, then one step per bit. */
  lemma {:induction false} AbsorbPacked(c: bv32, w: seq<byte>)
    requires |w| <= 4
    ensures Absorb(c, w) == Steps(Xor(c, Pack(w)), 8 * |w|)
    decreases w
  {
    hide Xor, Up, Word, BitStep, Fits;
    if w == [] {
      XorIdentity(c);
    } else {
      var low, high := Word(w[0]), Pack(w[1..]);
      PackFits(w[1..]);
      AbsorbPacked(ByteStep(c, w[0]), w[1..]);
      ShiftOut(high);
      XorAssociates(c, low, Up(high));
      StepsLinear(Xor(c, low), Up(high), 8);
      StepsAdd(Xor(c, Pack(w)), 8, 8 * |w[1..]|);
    }
  }

  lemma {:induction false} PackInjective(v: seq<byte>, w: seq<byte>)
    requires |v| == |w| <= 4
    requires Pack(v) == Pack(w)
    ensures v == w
    decreases v
  {
    hide Xor, Up, Word, Register;
    if v != [] {
      PackFits(v[1..]);
      PackFits(w[1..]);
      WordHigh(v[0]);
      WordHigh(w[0]);
      SplitJoined(Word(v[0]), Pack(v[1..]), Word(w[0]), Pack(w[1..]));
      WordInjective(v[0], w[0]);
      PackInjective(v[1..], w[1..]);
      assert v == [v[0]] + v[1..] && w == [w[0]] + w[1..];
    }
  }

  /** A burst of up to four bytes, wherever it falls, leaves a different register. */
  lemma BurstChangesRegister(c: bv32, prefix: seq<byte>, v: seq<byte>, w: seq<byte>, suffix: seq<byte>)
    requires |v| == |w| <= 4 && v != w
    ensures Absorb(c, prefix + v + suffix) != Absorb(c, prefix + w + suffix)
  {
    var d := Absorb(c, prefix);
    AbsorbConcat(c, prefix + v, suffix);
    AbsorbConcat(c, prefix + w, suffix);
    AbsorbConcat(c, prefix, v);
    AbsorbConcat(c, prefix, w);
    if Absorb(c, prefix + v + suffix) == Absorb(c, prefix + w + suffix) {
      AbsorbInjective(Absorb(d, v), Absorb(d, w), suffix);
      AbsorbPacked(d, v);
      AbsorbPacked(d, w);
      StepsInjective(Xor(d, Pack(v)), Xor(d, Pack(w)), 8 * |v|);
      XorCancel(Pack(v), Pack(w), d);
      PackInjective(v, w);
    }
  }

  /** Two different messages of one length that agree outside some four consecutive bytes have different CRCs. */
  lemma BurstDetected(a: seq<byte>, b: seq<byte>, at: nat)
    requires |a| == |b| && a != b
    requires forall k :: 0 <= k < |a| && !(at <= k < at + 4) ==> a[k] == b[k]
    ensures Crc(a) != Crc(b)
  {
    var end := if at + 4 <= |a| then at + 4 else |a|;
    assert at < |a|;
    var v, w := a[at..end], b[at..end];
    assert a == a[..at] + v + a[end..];
    assert b == b[..at] + w + b[end..] == a[..at] + w + a[end..];
    BurstChangesRegister(INITIAL, a[..at], v, w, a[end..]);
    XorCancel(Absorb(INITIAL, a), Absorb(INITIAL, b), INITIAL);
  }

  // ----- the host's table-driven form

  lemma SplitRegister(x: bv32)
    ensures x == Xor(x & 0xff, Up(Down(x))) && Fits(Down(x))
  {}

  /** One table look-up per byte, with Table[i] = Steps(i, 8), is the same register update as eight bit steps. */
  lemma TableForm(c: bv32, b: byte)
    ensures ByteStep(c, b) == Xor(Steps(Xor(c, Word(b)) & 0xff, 8), Down(Xor(c, Word(b))))
  {
    var x := Xor(c, Word(b));
    SplitRegister(x);
    ShiftOut(Down(x));
    StepsLinear(x & 0xff, Up(Down(x)), 8);
    hide Xor, Up, Down, Word, Fits, BitStep;
  }

  // ----- CRC fields in headers

  function PutWord(c: bv32): (r: seq<byte>)
    ensures |r| == 4
  {
    [LowByte(c), LowByte(c >> 8), LowByte(c >> 16), LowByte(c >> 24)]
  }

  lemma Reassemble(c: bv32)
    ensures Xor(c & 0xff, Up(Xor((c >> 8) & 0xff, Up(Xor((c >> 16) & 0xff, Up(Xor((c >> 24) & 0xff, Up(0)))))))) == c
  {}

  /** A CRC stored little-endian in a header reads back as the same CRC. */
  lemma CrcFieldRoundTrip(c: bv32)
    ensures Pack(PutWord(c)) == c
  {
    WordOfLowByte(c);
    WordOfLowByte(c >> 8);
    WordOfLowByte(c >> 16);
    WordOfLowByte(c >> 24);
    Reassemble(c);
    PackFour(LowByte(c), LowByte(c >> 8), LowByte(c >> 16), LowByte(c >> 24));
  }

  lemma PackFour(a: byte, b: byte, c: byte, d: byte)
    ensures Pack([a, b, c, d]) == Xor(Word(a), Up(Xor(Word(b), Up(Xor(Word(c), Up(Xor(Word(d), Up(0))))))))
  {
    hide Xor, Up, Word;
    assert [a, b, c, d][1..] == [b, c, d] && [b, c, d][1..] == [c, d] && [c, d][1..] == [d] && [d][1..] == [];
    assert Pack([d]) == Xor(Word(d), Up(0));
    assert Pack([c, d]) == Xor(Word(c), Up(Pack([d])));
    assert Pack([b, c, d]) == Xor(Word(b), Up(Pack([c, d])));
  }

  // ----- data sealed by the CRC behind it

  /** The last four bytes are the CRC of the ones in front of them. */
  predicate Sealed(raw: seq<byte>)
    requires |raw| >= 4
  {
    Pack(raw[|raw| - 4..]) == Crc(raw[..|raw| - 4])
  }

  lemma XorThrice(c: bv32, w: bv32)
    ensures Xor(c, Xor(INITIAL, c)) == INITIAL
    ensures Xor(c, w) == INITIAL ==> w == Xor(INITIAL, c)
  {}

  /** Sealed data brings the register to one fixed value, and nothing else does. */
  lemma SealedRegister(raw: seq<byte>)
    requires |raw| >= 4
    ensures Sealed(raw) <==> Absorb(INITIAL, raw) == Steps(INITIAL, 32)
  {
    hide Xor, Steps, Pack;
    var front, tail := raw[..|raw| - 4], raw[|raw| - 4..];
    var c := Absorb(INITIAL, front);
    assert raw == front + tail;
    AbsorbConcat(INITIAL, front, tail);
    AbsorbPacked(c, tail);
    XorThrice(c, Pack(tail));
    if Absorb(INITIAL, raw) == Steps(INITIAL, 32) {
      StepsInjective(Xor(c, Pack(tail)), INITIAL, 32);
    }
  }

  /** Damage within four consecutive bytes, wherever it falls, in the data, in the CRC or across both, breaks the seal. */
  lemma SealBroken(raw: seq<byte>, damaged: seq<byte>, at: nat)
    requires |raw| == |damaged| >= 4 && raw != damaged && Sealed(raw)
    requires forall k :: 0 <= k < |raw| && !(at <= k < at + 4) ==> raw[k] == damaged[k]
    ensures !Sealed(damaged)
  {
    hide Sealed, Absorb, Steps, Crc, Xor;
    SealedRegister(raw);
    SealedRegister(damaged);
    BurstChangesAll(raw, damaged, at);
  }

  lemma BurstChangesAll(a: seq<byte>, b: seq<byte>, at: nat)
    requires |a| == |b| && a != b
    requires forall k :: 0 <= k < |a| && !(at <= k < at + 4) ==> a[k] == b[k]
    ensures Absorb(INITIAL, a) != Absorb(INITIAL, b)
  {
    hide Absorb, Crc;
    BurstDetected(a, b, at);
    SameRegister(a, b);
  }

  lemma SameRegister(a: seq<byte>, b: seq<byte>)
    ensures Absorb(INITIAL, a) == Absorb(INITIAL, b) ==> Crc(a) == Crc(b)
  {
    hide Absorb;
  }
}
