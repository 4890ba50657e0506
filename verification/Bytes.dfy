// Bytes, 32-bit unsigned words and the little-endian word codec shared by the loader, the payloads and the host tools.
module Bytes {

  newtype byte = x: int | 0 <= x < 256

  type u32 = x: int | 0 <= x < 0x1_0000_0000

  /** The value a C `unsigned int` holds after an operation whose exact result is x. */
  function Wrap(x: int): (r: u32) {
    x % 0x1_0000_0000
  }

  lemma NoWrap(x: u32)
    ensures Wrap(x) == x
  {}

  /** le32 / get_le32: four bytes, least significant first. */
  function Le32(d: seq<byte>): (r: u32)
    requires |d| == 4
  {
    d[0] as int + 0x100 * d[1] as int + 0x1_0000 * d[2] as int + 0x100_0000 * d[3] as int
  }

  /** put_u32_le, and the `<I` format of the host's struct module. */
  function Put32(x: u32): (r: seq<byte>)
    ensures |r| == 4
  {
    [(x % 0x100) as byte, (x / 0x100 % 0x100) as byte, (x / 0x1_0000 % 0x100) as byte, (x / 0x100_0000) as byte]
  }

  lemma Split(low: int, high: int)
    requires 0 <= low < 0x100
    ensures (low + 0x100 * high) % 0x100 == low && (low + 0x100 * high) / 0x100 == high
  {}

  lemma NestedDivision(x: int)
    requires 0 <= x
    ensures x / 0x1_0000 == x / 0x100 / 0x100 && x / 0x100_0000 == x / 0x1_0000 / 0x100
  {}

  /** The word codec is a bijection between 32-bit words and byte quadruples. */
  lemma WordCodec(x: u32, d: seq<byte>)
    requires |d| == 4
    ensures Le32(Put32(x)) == x
    ensures Put32(Le32(d)) == d
  {
    NestedDivision(x);
    var a, b, c, e := d[0] as int, d[1] as int, d[2] as int, d[3] as int;
    var y := a + 0x100 * (b + 0x100 * (c + 0x100 * e));
    assert y == Le32(d);
    NestedDivision(y);
    Split(a, b + 0x100 * (c + 0x100 * e));
    Split(b, c + 0x100 * e);
    Split(c, e);
  }

  /** A region of memory after `data` has been stored at index `at`; everything else keeps its value. */
  function Overlay<T>(mem: seq<T>, at: nat, data: seq<T>): (r: seq<T>)
    requires at + |data| <= |mem|
    ensures |r| == |mem|
  {
    mem[..at] + data + mem[at + |data|..]
  }

  /** Storing one more element behind the ones already stored. */
  lemma OverlayPut<T>(mem: seq<T>, at: nat, data: seq<T>, x: T)
    requires at + |data| < |mem|
    ensures Overlay(mem, at, data)[at + |data| := x] == Overlay(mem, at, data + [x])
  {}

  /** Outside the stored data the memory keeps its value. */
  lemma OverlayKeeps<T>(mem: seq<T>, at: nat, data: seq<T>, k: nat)
    requires at + |data| <= |mem| && k < |mem| && !(at <= k < at + |data|)
    ensures Overlay(mem, at, data)[k] == mem[k]
  {}

  lemma OverlayKeepsSlice<T>(mem: seq<T>, at: nat, data: seq<T>, a: nat, b: nat)
    requires at + |data| <= |mem| && a <= b <= |mem| && (b <= at || at + |data| <= a)
    ensures Overlay(mem, at, data)[a..b] == mem[a..b]
  {
    var u, v := Overlay(mem, at, data)[a..b], mem[a..b];
    assert |u| == |v| && forall k :: 0 <= k < |u| ==> u[k] == Overlay(mem, at, data)[a + k] == mem[a + k] == v[k];
  }

  lemma OverlayHoldsData<T>(mem: seq<T>, at: nat, data: seq<T>)
    requires at + |data| <= |mem|
    ensures Overlay(mem, at, data)[at..at + |data|] == data
  {}

  lemma OverlayJoin<T>(mem: seq<T>, at: nat, a: seq<T>, b: seq<T>)
    requires at + |a| + |b| <= |mem|
    ensures Overlay(Overlay(mem, at, a), at + |a|, b) == Overlay(mem, at, a + b)
  {}

  lemma SliceOfSlice<T>(s: seq<T>, a: nat, b: nat, c: nat, d: nat)
    requires a <= b <= |s| && c <= d <= b - a
    ensures s[a..b][c..d] == s[a + c..a + d]
  {
    var u, v := s[a..b][c..d], s[a + c..a + d];
    assert |u| == |v| && forall k :: 0 <= k < |u| ==> u[k] == s[a..b][c + k] == s[a + c + k] == v[k];
  }

  lemma SliceJoin<T>(s: seq<T>, a: nat, b: nat, c: nat)
    requires a <= b <= c <= |s|
    ensures s[a..b] + s[b..c] == s[a..c]
  {}

  /** Storing over the last element put down. */
  lemma OverlayReplace<T>(mem: seq<T>, at: nat, data: seq<T>, x: T, y: T)
    requires at + |data| < |mem|
    ensures Overlay(mem, at, data + [x])[at + |data| := y] == Overlay(mem, at, data + [y])
  {}

  lemma OverlayNothing<T>(mem: seq<T>, at: nat)
    requires at <= |mem|
    ensures Overlay(mem, at, []) == mem
  {}

  // ----- the bits of a byte

  /** The byte's binary digits, least significant first, as one value. */
  datatype Bits = Bits(b0: bool, b1: bool, b2: bool, b3: bool, b4: bool, b5: bool, b6: bool, b7: bool)

  function Digit(b: bool): int {
    if b then 1 else 0
  }

  function Half(x: int): int {
    x / 2
  }

  predicate Odd(x: int) {
    x % 2 == 1
  }

  function ToBits(b: byte): Bits {
    var x0 := b as int;
    var x1 := Half(x0);
    var x2 := Half(x1);
    var x3 := Half(x2);
    var x4 := Half(x3);
    var x5 := Half(x4);
    var x6 := Half(x5);
    Bits(Odd(x0), Odd(x1), Odd(x2), Odd(x3), Odd(x4), Odd(x5), Odd(x6), Odd(Half(x6)))
  }

  /** One binary digit put below the digits of y. */
  function Push(b: bool, y: int): int {
    2 * y + Digit(b)
  }

  function FromBits(d: Bits): byte {
    var y7 := Push(d.b7, 0);
    var y6 := Push(d.b6, y7);
    var y5 := Push(d.b5, y6);
    var y4 := Push(d.b4, y5);
    var y3 := Push(d.b3, y4);
    var y2 := Push(d.b2, y3);
    var y1 := Push(d.b1, y2);
    Push(d.b0, y1) as byte
  }

  lemma PushPop(b: bool, y: int)
    ensures Half(Push(b, y)) == y && (Odd(Push(b, y)) <==> b)
  {}

  lemma PopPush(x: int)
    ensures Push(Odd(x), Half(x)) == x
  {}

  lemma HalfBound(x: int, n: int)
    requires 0 <= x < 2 * n
    ensures 0 <= Half(x) < n
  {}

  lemma ByteFromBits(b: byte)
    ensures FromBits(ToBits(b)) == b
  {
    hide Push, Half, Odd;
    var x0 := b as int;
    var x1 := Half(x0);
    var x2 := Half(x1);
    var x3 := Half(x2);
    var x4 := Half(x3);
    var x5 := Half(x4);
    var x6 := Half(x5);
    var x7 := Half(x6);
    HalfBound(x0, 128); HalfBound(x1, 64); HalfBound(x2, 32); HalfBound(x3, 16);
    HalfBound(x4, 8); HalfBound(x5, 4); HalfBound(x6, 2); HalfBound(x7, 1);
    PopPush(x0); PopPush(x1); PopPush(x2); PopPush(x3); PopPush(x4); PopPush(x5); PopPush(x6); PopPush(x7);
  }

  lemma BitsOfByte(d: Bits)
    ensures ToBits(FromBits(d)) == d
  {
    var y7 := Push(d.b7, 0);
    var y6 := Push(d.b6, y7);
    var y5 := Push(d.b5, y6);
    var y4 := Push(d.b4, y5);
    var y3 := Push(d.b3, y4);
    var y2 := Push(d.b2, y3);
    var y1 := Push(d.b1, y2);
    hide Push, Half, Odd;
    PushPop(d.b7, 0); PushPop(d.b6, y7); PushPop(d.b5, y6); PushPop(d.b4, y5);
    PushPop(d.b3, y4); PushPop(d.b2, y3); PushPop(d.b1, y2); PushPop(d.b0, y1);
  }

  /** Bitwise AND of two bytes: what programming leaves in a flash cell. */
  function And(a: byte, b: byte): byte {
    var p, q := ToBits(a), ToBits(b);
    FromBits(Bits(p.b0 && q.b0, p.b1 && q.b1, p.b2 && q.b2, p.b3 && q.b3,
                  p.b4 && q.b4, p.b5 && q.b5, p.b6 && q.b6, p.b7 && q.b7))
  }

  lemma AndErased(b: byte)
    ensures And(0xff, b) == b
  {
    hide ToBits;
    var ones := Bits(true, true, true, true, true, true, true, true);
    BitsOfByte(ones);
    assert FromBits(ones) == 0xff;
    ByteFromBits(b);
  }
}

// The same bytes as 32-bit registers, for the CRC and the hash.
module Words {
  import opened Bytes

  function Flag(b: bool, weight: bv32): bv32 {
    if b then weight else 0
  }

  function Register(d: Bits): bv32 {
    Flag(d.b0, 1) | Flag(d.b1, 2) | Flag(d.b2, 4) | Flag(d.b3, 8)
    | Flag(d.b4, 16) | Flag(d.b5, 32) | Flag(d.b6, 64) | Flag(d.b7, 128)
  }

  /** A byte zero extended to a register. */
  function Word(b: byte): bv32 {
    Register(ToBits(b))
  }

  function RegisterBits(w: bv32): Bits {
    Bits(w & 1 != 0, w & 2 != 0, w & 4 != 0, w & 8 != 0, w & 16 != 0, w & 32 != 0, w & 64 != 0, w & 128 != 0)
  }

  /** The C cast from a 32-bit register to u8. */
  function LowByte(w: bv32): byte {
    FromBits(RegisterBits(w))
  }

  lemma RegisterHasBits(d: Bits)
    ensures RegisterBits(Register(d)) == d
    ensures Register(d) & 0xffff_ff00 == 0
  {}

  lemma RegisterOfBits(w: bv32)
    ensures Register(RegisterBits(w)) == w & 0xff
  {}

  lemma WordInjective(a: byte, b: byte)
    requires Word(a) == Word(b)
    ensures a == b
  {
    RegisterHasBits(ToBits(a));
    RegisterHasBits(ToBits(b));
    ByteFromBits(a);
    ByteFromBits(b);
  }

  lemma WordHigh(a: byte)
    ensures Word(a) & 0xffff_ff00 == 0
  {
    RegisterHasBits(ToBits(a));
  }

  lemma WordOfLowByte(w: bv32)
    ensures Word(LowByte(w)) == w & 0xff
  {
    BitsOfByte(RegisterBits(w));
    RegisterOfBits(w);
  }
}
