// The check value of this CRC: its result for the digits "123456789", byte by byte.
module Crc32Example {
  import opened Bytes
  import opened Words
  import opened Crc32

  lemma FirstDigits()
    ensures Word(0x31) == 0x31 && Word(0x32) == 0x32 && Word(0x33) == 0x33
  {
    assert ToBits(0x31) == Bits(true, false, false, false, true, true, false, false);
    assert ToBits(0x32) == Bits(false, true, false, false, true, true, false, false);
    assert ToBits(0x33) == Bits(true, true, false, false, true, true, false, false);
    hide ToBits;
  }

  lemma MiddleDigits()
    ensures Word(0x34) == 0x34 && Word(0x35) == 0x35 && Word(0x36) == 0x36
  {
    assert ToBits(0x34) == Bits(false, false, true, false, true, true, false, false);
    assert ToBits(0x35) == Bits(true, false, true, false, true, true, false, false);
    assert ToBits(0x36) == Bits(false, true, true, false, true, true, false, false);
    hide ToBits;
  }

  lemma LastDigits()
    ensures Word(0x37) == 0x37 && Word(0x38) == 0x38 && Word(0x39) == 0x39
  {
    assert ToBits(0x37) == Bits(true, true, true, false, true, true, false, false);
    assert ToBits(0x38) == Bits(false, false, false, true, true, true, false, false);
    assert ToBits(0x39) == Bits(true, false, false, true, true, true, false, false);
    hide ToBits;
  }

  lemma Step1()
    ensures Steps(Xor(0xffffffff, 0x31), 8) == 0x7c231048
  {}

  lemma Step2()
    ensures Steps(Xor(0x7c231048, 0x32), 8) == 0xb0acbb32
  {}

  lemma Step3()
    ensures Steps(Xor(0xb0acbb32, 0x33), 8) == 0x77b79c2d
  {}

  lemma Step4()
    ensures Steps(Xor(0x77b79c2d, 0x34), 8) == 0x641c1f5c
  {}

  lemma Step5()
    ensures Steps(Xor(0x641c1f5c, 0x35), 8) == 0x340ac5e3
  {}

  lemma Step6()
    ensures Steps(Xor(0x340ac5e3, 0x36), 8) == 0xf68d2c9e
  {}

  lemma Step7()
    ensures Steps(Xor(0xf68d2c9e, 0x37), 8) == 0xaffc9660
  {}

  lemma Step8()
    ensures Steps(Xor(0xaffc9660, 0x38), 8) == 0x651f2550
  {}

  lemma Step9()
    ensures Steps(Xor(0x651f2550, 0x39), 8) == 0x340bc6d9
  {}

  lemma OneByte(c: bv32, m: seq<byte>, i: nat, x: bv32, r: bv32)
    requires i < |m| && Word(m[i]) == x && Steps(Xor(c, x), 8) == r
    ensures Absorb(c, m[i..]) == Absorb(r, m[i + 1..])
  {
    hide Steps, Word, Xor;
    assert m[i..][1..] == m[i + 1..];
  }

  lemma Inverted()
    ensures Xor(INITIAL, 0x340bc6d9) == 0xcbf43926
  {}

  /** The CRC of the digits "123456789" is the published check value. */
  lemma CheckValue(m: seq<byte>)
    requires m == [0x31, 0x32, 0x33, 0x34, 0x35, 0x36, 0x37, 0x38, 0x39]
    ensures Crc(m) == 0xcbf43926
  {
    hide Word, Absorb, Steps, Xor;
    Step1(); Step2(); Step3(); Step4(); Step5(); Step6(); Step7(); Step8(); Step9();
    FirstDigits();
    MiddleDigits();
    LastDigits();
    OneByte(0xffffffff, m, 0, 0x31, 0x7c231048);
    OneByte(0x7c231048, m, 1, 0x32, 0xb0acbb32);
    OneByte(0xb0acbb32, m, 2, 0x33, 0x77b79c2d);
    OneByte(0x77b79c2d, m, 3, 0x34, 0x641c1f5c);
    OneByte(0x641c1f5c, m, 4, 0x35, 0x340ac5e3);
    OneByte(0x340ac5e3, m, 5, 0x36, 0xf68d2c9e);
    OneByte(0xf68d2c9e, m, 6, 0x37, 0xaffc9660);
    OneByte(0xaffc9660, m, 7, 0x38, 0x651f2550);
    OneByte(0x651f2550, m, 8, 0x39, 0x340bc6d9);
    AbsorbNothing(0x340bc6d9);
    assert m[0..] == m && m[9..] == [];
    Inverted();
  }
}
