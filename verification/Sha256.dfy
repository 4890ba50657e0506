// Streaming SHA-256 of include/postmerkos_uart_crypto.h, against FIPS 180-4 sections 5.1.1 and 6.2.2.
module Sha256 {
  import opened Bytes
  import opened Words

  const BLOCK: int := 64

  datatype Hash = Hash(a: bv32, b: bv32, c: bv32, d: bv32, e: bv32, f: bv32, g: bv32, h: bv32)

  const INITIAL_HASH := Hash(0x6a09e667, 0xbb67ae85, 0x3c6ef372, 0xa54ff53a,
                             0x510e527f, 0x9b05688c, 0x1f83d9ab, 0x5be0cd19)

  const K: seq<bv32> :=
    [0x428a2f98, 0x71374491, 0xb5c0fbcf, 0xe9b5dba5, 0x3956c25b, 0x59f111f1, 0x923f82a4, 0xab1c5ed5]
    + [0xd807aa98, 0x12835b01, 0x243185be, 0x550c7dc3, 0x72be5d74, 0x80deb1fe, 0x9bdc06a7, 0xc19bf174]
    + [0xe49b69c1, 0xefbe4786, 0x0fc19dc6, 0x240ca1cc, 0x2de92c6f, 0x4a7484aa, 0x5cb0a9dc, 0x76f988da]
    + [0x983e5152, 0xa831c66d, 0xb00327c8, 0xbf597fc7, 0xc6e00bf3, 0xd5a79147, 0x06ca6351, 0x14292967]
    + [0x27b70a85, 0x2e1b2138, 0x4d2c6dfc, 0x53380d13, 0x650a7354, 0x766a0abb, 0x81c2c92e, 0x92722c85]
    + [0xa2bfe8a1, 0xa81a664b, 0xc24b8b70, 0xc76c51a3, 0xd192e819, 0xd6990624, 0xf40e3585, 0x106aa070]
    + [0x19a4c116, 0x1e376c08, 0x2748774c, 0x34b0bcb5, 0x391c0cb3, 0x4ed8aa4a, 0x5b9cca4f, 0x682e6ff3]
    + [0x748f82ee, 0x78a5636f, 0x84c87814, 0x8cc70208, 0x90befffa, 0xa4506ceb, 0xbef9a3f7, 0xc67178f2]

  function Constant(t: nat): bv32
    requires t < 64
  {
    K[t]
  }

  // ----- the compression function

  function Rotr(v: bv32, shift: bv6): bv32
    requires 0 < shift < 32
  {
    (v >> shift) | (v << (32 - shift))
  }

  function SmallSigma0(x: bv32): bv32 {
    Rotr(x, 7) ^ Rotr(x, 18) ^ (x >> 3)
  }

  function SmallSigma1(x: bv32): bv32 {
    Rotr(x, 17) ^ Rotr(x, 19) ^ (x >> 10)
  }

  function BigSigma0(x: bv32): bv32 {
    Rotr(x, 2) ^ Rotr(x, 13) ^ Rotr(x, 22)
  }

  function BigSigma1(x: bv32): bv32 {
    Rotr(x, 6) ^ Rotr(x, 11) ^ Rotr(x, 25)
  }

  function Ch(x: bv32, y: bv32, z: bv32): bv32 {
    (x & y) ^ (!x & z)
  }

  function Maj(x: bv32, y: bv32, z: bv32): bv32 {
    (x & y) ^ (x & z) ^ (y & z)
  }

  function BigEndian(a: byte, b: byte, c: byte, d: byte): bv32 {
    (Word(a) << 24) | (Word(b) << 16) | (Word(c) << 8) | Word(d)
  }

  function Extend(w16: bv32, w15: bv32, w7: bv32, w2: bv32): bv32 {
    w16 + SmallSigma0(w15) + w7 + SmallSigma1(w2)
  }

  /** Word t of the message schedule. */
  function Schedule(block: seq<byte>, t: nat): bv32
    requires |block| == BLOCK && t < 64
  {
    if t < 16 then BigEndian(block[4 * t], block[4 * t + 1], block[4 * t + 2], block[4 * t + 3])
    else Extend(Schedule(block, t - 16), Schedule(block, t - 15), Schedule(block, t - 7), Schedule(block, t - 2))
  }

  function Round(s: Hash, k: bv32, w: bv32): Hash {
    var t1 := s.h + BigSigma1(s.e) + Ch(s.e, s.f, s.g) + k + w;
    var t2 := BigSigma0(s.a) + Maj(s.a, s.b, s.c);
    Hash(t1 + t2, s.a, s.b, s.c, s.d + t1, s.e, s.f, s.g)
  }

  function Rounds(s: Hash, block: seq<byte>, n: nat): Hash
    requires |block| == BLOCK && n <= 64
    decreases n, |block|
  {
    if n == 0 then s else Round(Rounds(s, block, n - 1), Constant(n - 1), Schedule(block, n - 1))
  }

  function AddHash(s: Hash, t: Hash): Hash {
    Hash(s.a + t.a, s.b + t.b, s.c + t.c, s.d + t.d, s.e + t.e, s.f + t.f, s.g + t.g, s.h + t.h)
  }

  function Compress(s: Hash, block: seq<byte>): Hash
    requires |block| == BLOCK
  {
    AddHash(s, Rounds(s, block, 64))
  }

  /** pmos_sha256_transform. */
  method Transform(state: Hash, block: array<byte>) returns (next: Hash)
    requires block.Length == BLOCK
    ensures next == Compress(state, block[..])
  {
    hide Round, AddHash, BigEndian, Extend, Constant;
    ghost var data := block[..];
    var w := new bv32[64];
    for i := 0 to 16
      invariant block[..] == data
      invariant forall j :: 0 <= j < i ==> w[j] == Schedule(data, j)
    {
      w[i] := BigEndian(block[4 * i], block[4 * i + 1], block[4 * i + 2], block[4 * i + 3]);
    }
    for i := 16 to 64
      invariant block[..] == data
      invariant forall j :: 0 <= j < i ==> w[j] == Schedule(data, j)
    {
      w[i] := Extend(w[i - 16], w[i - 15], w[i - 7], w[i - 2]);
    }
    var s := state;
    for i := 0 to 64
      invariant s == Rounds(state, data, i)
    {
      s := Round(s, Constant(i), w[i]);
    }
    next := AddHash(state, s);
  }

  // ----- the hash of a whole message

  /** The hash value after every full block of m, in order. */
  function Fold(s: Hash, m: seq<byte>): Hash
    decreases m
  {
    if |m| < BLOCK then s else Fold(Compress(s, m[..BLOCK]), m[BLOCK..])
  }

  function Zeros(n: nat): (z: seq<byte>)
    ensures |z| == n
  {
    seq(n, _ => 0 as byte)
  }

  function Be32(x: u32): (r: seq<byte>)
    ensures |r| == 4
  {
    var l := Put32(x);
    [l[3], l[2], l[1], l[0]]
  }

  /** A 64-bit length, most significant byte first. */
  function Be64(x: nat): (r: seq<byte>)
    ensures |r| == 8
  {
    Be32(Wrap(x / 0x1_0000_0000)) + Be32(Wrap(x))
  }

  /** The padded message: a one bit, the fewest zeros that fill the block, and the bit length. */
  function Pad(m: seq<byte>): (r: seq<byte>)
    ensures |r| == |m| + 9 + (55 - |m|) % BLOCK
  {
    m + [0x80] + Zeros((55 - |m|) % BLOCK) + Be64(8 * |m|)
  }

  function WordBytes(w: bv32): (r: seq<byte>)
    ensures |r| == 4
  {
    [LowByte(w >> 24), LowByte(w >> 16), LowByte(w >> 8), LowByte(w)]
  }

  function Digest(s: Hash): (r: seq<byte>)
    ensures |r| == 32
  {
    WordBytes(s.a) + WordBytes(s.b) + WordBytes(s.c) + WordBytes(s.d)
    + WordBytes(s.e) + WordBytes(s.f) + WordBytes(s.g) + WordBytes(s.h)
  }

  /** Word i of a digest, most significant byte first. */
  function WordAt(digest: seq<byte>, i: nat): bv32
    requires |digest| == 32 && i < 8
  {
    BigEndian(digest[4 * i], digest[4 * i + 1], digest[4 * i + 2], digest[4 * i + 3])
  }

  predicate Spells(digest: seq<byte>, s: Hash)
    requires |digest| == 32
  {
    && WordAt(digest, 0) == s.a && WordAt(digest, 1) == s.b && WordAt(digest, 2) == s.c && WordAt(digest, 3) == s.d
    && WordAt(digest, 4) == s.e && WordAt(digest, 5) == s.f && WordAt(digest, 6) == s.g && WordAt(digest, 7) == s.h
  }

  lemma FourParts(w: bv32, a: byte, b: byte, c: byte, d: byte)
    requires Word(a) == (w >> 24) & 0xff && Word(b) == (w >> 16) & 0xff && Word(c) == (w >> 8) & 0xff && Word(d) == w & 0xff
    ensures BigEndian(a, b, c, d) == w
  {
    hide Word;
  }

  lemma WordRead(w: bv32, d: seq<byte>)
    requires d == WordBytes(w)
    ensures BigEndian(d[0], d[1], d[2], d[3]) == w
  {
    hide Word, LowByte, BigEndian;
    WordOfLowByte(w >> 24);
    WordOfLowByte(w >> 16);
    WordOfLowByte(w >> 8);
    WordOfLowByte(w);
    FourParts(w, d[0], d[1], d[2], d[3]);
  }

  /** The eight words are read back from a digest. */
  lemma DigestReads(s: Hash)
    ensures Spells(Digest(s), s)
  {
    hide WordBytes, BigEndian;
    WordRead(s.a, WordBytes(s.a)); WordRead(s.b, WordBytes(s.b)); WordRead(s.c, WordBytes(s.c)); WordRead(s.d, WordBytes(s.d));
    WordRead(s.e, WordBytes(s.e)); WordRead(s.f, WordBytes(s.f)); WordRead(s.g, WordBytes(s.g)); WordRead(s.h, WordBytes(s.h));
  }

  function Sum(m: seq<byte>): (r: seq<byte>)
    ensures |r| == 32
  {
    Digest(Fold(INITIAL_HASH, Pad(m)))
  }

  lemma {:induction false} FoldConcat(s: Hash, m: seq<byte>, n: seq<byte>)
    requires |m| % BLOCK == 0
    ensures Fold(s, m + n) == Fold(Fold(s, m), n)
    decreases m
  {
    hide Compress;
    if |m| == 0 {
      assert m + n == n;
    } else {
      assert (m + n)[..BLOCK] == m[..BLOCK];
      assert (m + n)[BLOCK..] == m[BLOCK..] + n;
      FoldConcat(Compress(s, m[..BLOCK]), m[BLOCK..], n);
    }
  }

  lemma FoldBlock(s: Hash, m: seq<byte>, block: seq<byte>)
    requires |m| % BLOCK == 0 && |block| == BLOCK
    ensures Fold(s, m + block) == Compress(Fold(s, m), block)
  {
    hide Compress;
    FoldConcat(s, m, block);
    assert block[..BLOCK] == block && block[BLOCK..] == [];
  }

  lemma Be32Injective(x: u32, y: u32)
    requires Be32(x) == Be32(y)
    ensures x == y
  {
    var p, q := Put32(x), Put32(y);
    assert Be32(x)[3] == p[0] && Be32(x)[2] == p[1] && Be32(x)[1] == p[2] && Be32(x)[0] == p[3];
    assert Be32(y)[3] == q[0] && Be32(y)[2] == q[1] && Be32(y)[1] == q[2] && Be32(y)[0] == q[3];
    assert p == q;
    WordCodec(x, p);
    WordCodec(y, q);
  }

  lemma Be64Injective(x: nat, y: nat)
    requires x < 0x1_0000_0000_0000_0000 && y < 0x1_0000_0000_0000_0000
    requires Be64(x) == Be64(y)
    ensures x == y
  {
    hide Be32, Wrap;
    assert Be64(x)[..4] == Be32(Wrap(x / 0x1_0000_0000)) && Be64(x)[4..] == Be32(Wrap(x));
    assert Be64(y)[..4] == Be32(Wrap(y / 0x1_0000_0000)) && Be64(y)[4..] == Be32(Wrap(y));
    Be32Injective(Wrap(x / 0x1_0000_0000), Wrap(y / 0x1_0000_0000));
    Be32Injective(Wrap(x), Wrap(y));
    TwoWords(x);
    TwoWords(y);
  }

  lemma TwoWords(x: nat)
    requires x < 0x1_0000_0000_0000_0000
    ensures x == 0x1_0000_0000 * Wrap(x / 0x1_0000_0000) + Wrap(x)
  {}

  lemma PadParts(m: seq<byte>)
    ensures |Pad(m)| >= |m| + 8
    ensures Pad(m)[..|m|] == m
    ensures Pad(m)[|Pad(m)| - 8..] == Be64(8 * |m|)
  {
    hide Zeros, Be64;
  }

  /** What stands behind the message: a one bit, the fewest zeros that fill the block, and the bit length, most significant byte first. */
  lemma PadLayout(m: seq<byte>)
    requires |m| < 0x2000_0000_0000_0000
    ensures var p := Pad(m);
            && m <= p && p[|m|] == 0x80 && |p| % 64 == 0 && |p| <= |m| + 72
            && (forall k :: |m| < k < |p| - 8 ==> p[k] == 0)
            && (var d := p[|p| - 8..];
                8 * |m| == 0x1_0000_0000 * Le32([d[3], d[2], d[1], d[0]]) + Le32([d[7], d[6], d[5], d[4]]))
  {
    hide Be64, Le32;
    var q, n := (55 - |m|) / 64, (55 - |m|) % 64;
    assert |Pad(m)| == 64 * (1 - q);
    assert Pad(m)[|Pad(m)| - 8..] == Be64(8 * |m|);
    LengthReads(8 * |m|);
  }

  lemma LengthReads(x: nat)
    requires x < 0x1_0000_0000_0000_0000
    ensures var d := Be64(x); x == 0x1_0000_0000 * Le32([d[3], d[2], d[1], d[0]]) + Le32([d[7], d[6], d[5], d[4]])
  {
    hide Le32, Put32, Wrap;
    TwoWords(x);
    var high, low := Put32(Wrap(x / 0x1_0000_0000)), Put32(Wrap(x));
    assert high == [high[0], high[1], high[2], high[3]] && low == [low[0], low[1], low[2], low[3]];
    WordCodec(Wrap(x / 0x1_0000_0000), high);
    WordCodec(Wrap(x), low);
  }

  /** Padding loses nothing: two messages shorter than 2^61 bytes with one padded form are one message. */
  lemma PadInjective(m: seq<byte>, n: seq<byte>)
    requires |m| < 0x2000_0000_0000_0000 && |n| < 0x2000_0000_0000_0000
    requires Pad(m) == Pad(n)
    ensures m == n
  {
    hide Pad, Be64;
    PadParts(m);
    PadParts(n);
    Be64Injective(8 * |m|, 8 * |n|);
  }

  // ----- the streaming context

  /** The bit length of n bytes in 64 bits. */
  function BitLength(n: nat): nat {
    8 * n % 0x1_0000_0000_0000_0000
  }

  lemma AddBitsExact(low: u32, high: u32, bytes: u32, total: nat)
    requires high * 0x1_0000_0000 + low == BitLength(total)
    ensures var low' := Wrap(low + Wrap(8 * bytes));
            var carry := if low' < low then 1 else 0;
            Wrap(Wrap(high + carry) + bytes / 0x2000_0000) * 0x1_0000_0000 + low' == BitLength(total + bytes)
  {
    hide Wrap, BitLength;
    var bits, top := Wrap(8 * bytes), bytes / 0x2000_0000;
    var low' := Wrap(low + bits);
    var carry := if low' < low then 1 else 0;
    ByteBits(bytes);
    LowWord(low, bits);
    var h := high + carry + top;
    HighWord(high + carry, top);
    var q := h / 0x1_0000_0000;
    BitsGrow(total, 8 * bytes, high * 0x1_0000_0000 + low, q, Wrap(h) * 0x1_0000_0000 + low') by {
      TwoParts(h);
    }
  }

  lemma ByteBits(bytes: u32)
    ensures 8 * bytes == bytes / 0x2000_0000 * 0x1_0000_0000 + Wrap(8 * bytes)
  {
    Divide(8 * bytes, bytes / 0x2000_0000, 8 * (bytes % 0x2000_0000));
  }

  /** The sum of two words is the wrapped sum and a carry, seen as a wrapped sum below its first operand. */
  lemma LowWord(a: u32, b: u32)
    ensures a + b == (if Wrap(a + b) < a then 0x1_0000_0000 else 0) + Wrap(a + b)
  {}

  lemma HighWord(a: nat, b: nat)
    ensures Wrap(Wrap(a) + b) == Wrap(a + b)
  {
    var q, r := (Wrap(a) + b) / 0x1_0000_0000, Wrap(Wrap(a) + b);
    Divide(a + b, a / 0x1_0000_0000 + q, r);
  }

  lemma TwoParts(x: nat)
    ensures x == x / 0x1_0000_0000 * 0x1_0000_0000 + Wrap(x)
  {}

  lemma BitsGrow(total: nat, bits: nat, before: nat, q: nat, after: nat)
    requires before == BitLength(total) && bits % 8 == 0
    requires before + bits == q * 0x1_0000_0000_0000_0000 + after && after < 0x1_0000_0000_0000_0000
    ensures after == BitLength(total + bits / 8)
  {
    var p := 8 * total / 0x1_0000_0000_0000_0000;
    Remainder(8 * (total + bits / 8), p + q, after);
  }

  lemma Divide(x: int, q: int, r: u32)
    requires x == q * 0x1_0000_0000 + r
    ensures x / 0x1_0000_0000 == q && Wrap(x) == r
  {}

  lemma Remainder(x: int, q: int, r: int)
    requires x == q * 0x1_0000_0000_0000_0000 + r && 0 <= r < 0x1_0000_0000_0000_0000
    ensures x % 0x1_0000_0000_0000_0000 == r
  {}

  /** st is the fold over the full blocks of m and tail is the rest of m. */
  ghost predicate Represents(st: Hash, tail: seq<byte>, m: seq<byte>) {
    && |tail| == |m| % BLOCK
    && tail == m[|m| - |tail|..]
    && st == Fold(INITIAL_HASH, m[..|m| - |tail|])
  }

  lemma ExtendTail(st: Hash, tail: seq<byte>, m: seq<byte>, chunk: seq<byte>)
    requires Represents(st, tail, m) && |tail| + |chunk| < BLOCK
    ensures Represents(st, tail + chunk, m + chunk)
  {
    hide Compress, Fold;
    var full := m[..|m| - |tail|];
    assert (m + chunk)[..|full|] == full;
    assert m == full + tail;
    assert (m + chunk)[|full|..] == tail + chunk;
  }

  lemma CloseBlock(st: Hash, tail: seq<byte>, m: seq<byte>, chunk: seq<byte>)
    requires Represents(st, tail, m) && |tail| + |chunk| == BLOCK
    ensures Represents(Compress(st, tail + chunk), [], m + chunk)
  {
    hide Compress, Fold;
    var full := m[..|m| - |tail|];
    assert m == full + tail;
    assert m + chunk == full + (tail + chunk);
    FoldBlock(INITIAL_HASH, full, tail + chunk);
    assert (m + chunk)[..|m + chunk|] == m + chunk;
  }

  /** The last one or two blocks of the padded message follow from the represented state. */
  lemma CloseMessage(st: Hash, tail: seq<byte>, m: seq<byte>, padding: seq<byte>)
    requires Represents(st, tail, m) && Pad(m) == m + padding
    ensures Fold(st, tail + padding) == Fold(INITIAL_HASH, Pad(m))
  {
    hide Compress, Fold, Pad;
    var full := m[..|m| - |tail|];
    assert m == full + tail;
    assert Pad(m) == full + (tail + padding);
    Aligned(|m|, |tail|);
    FoldConcat(INITIAL_HASH, full, tail + padding);
  }

  lemma FinishShort(st: Hash, tail: seq<byte>, m: seq<byte>)
    requires Represents(st, tail, m) && |tail| < 56
    ensures Compress(st, tail + [0x80] + Zeros(55 - |tail|) + Be64(8 * |m|)) == Fold(INITIAL_HASH, Pad(m))
  {
    hide Compress, Fold, Zeros, Be64;
    Aligned(|m|, |tail|);
    var padding := [0x80] + Zeros(55 - |tail|) + Be64(8 * |m|);
    assert Pad(m) == m + padding;
    CloseMessage(st, tail, m, padding);
    var last := tail + [0x80] + Zeros(55 - |tail|) + Be64(8 * |m|);
    assert tail + padding == last && [] + last == last;
    FoldShort(st, []);
    FoldBlock(st, [], last);
  }

  lemma FinishLong(st: Hash, tail: seq<byte>, m: seq<byte>)
    requires Represents(st, tail, m) && 56 <= |tail| < 64
    ensures Compress(Compress(st, tail + [0x80] + Zeros(63 - |tail|)), Zeros(56) + Be64(8 * |m|)) == Fold(INITIAL_HASH, Pad(m))
  {
    hide Compress, Fold, Zeros, Be64;
    Aligned(|m|, |tail|);
    ZerosAdd(63 - |tail|, 56);
    var padding := [0x80] + (Zeros(63 - |tail|) + Zeros(56)) + Be64(8 * |m|);
    assert Pad(m) == m + padding;
    CloseMessage(st, tail, m, padding);
    var first, last := tail + [0x80] + Zeros(63 - |tail|), Zeros(56) + Be64(8 * |m|);
    assert tail + padding == first + last && [] + first == first;
    FoldShort(st, []);
    FoldBlock(st, [], first);
    FoldBlock(st, first, last);
  }

  lemma FoldShort(st: Hash, m: seq<byte>)
    requires |m| < BLOCK
    ensures Fold(st, m) == st
  {}

  lemma ZerosAdd(m: nat, n: nat)
    ensures Zeros(m) + Zeros(n) == Zeros(m + n)
  {}

  lemma Aligned(n: nat, t: nat)
    requires t == n % BLOCK
    ensures (n - t) % BLOCK == 0
    ensures t < 56 ==> (55 - n) % BLOCK == 55 - t
    ensures 56 <= t ==> (55 - n) % BLOCK == 119 - t
  {
    var q := n / 64;
    assert n == 64 * q + t;
    Modulo(55 - n, -q, 55 - t);
    Modulo(55 - n, -q - 1, 119 - t);
  }

  lemma Modulo(x: int, q: int, r: int)
    requires x == 64 * q + r
    ensures 0 <= r < 64 ==> x % 64 == r
  {}

  class Context {
    var state: Hash
    var bitLow: u32
    var bitHigh: u32
    const block: array<byte>
    var used: nat
    /** Everything absorbed so far. */
    ghost var message: seq<byte>

    ghost predicate Holds(m: seq<byte>)
      reads this, block
    {
      block.Length == BLOCK && used < BLOCK && Represents(state, block[..used], m)
    }

    /** The two counter words together are the bit length of n bytes, modulo 2^64. */
    ghost predicate Counts(n: nat)
      reads this`bitLow, this`bitHigh
    {
      bitHigh * 0x1_0000_0000 + bitLow == BitLength(n)
    }

    ghost predicate Valid()
      reads this, block
    {
      Holds(message) && Counts(|message|)
    }

    /** pmos_sha256_init. */
    constructor ()
      ensures Valid() && fresh(block)
      ensures message == []
    {
      state := INITIAL_HASH;
      bitLow, bitHigh, used := 0, 0, 0;
      block := new byte[64];
      message := [];
      new;
      hide Compress;
    }

    /** pmos_sha256_add_bits: a 64-bit counter kept in two 32-bit words. */
    method AddBits(bytes: u32, ghost total: nat)
      requires Counts(total)
      modifies this`bitLow, this`bitHigh
      ensures Counts(total + bytes)
    {
      hide Wrap, BitLength;
      NoWrap(bitHigh);
      AddBitsExact(bitLow, bitHigh, bytes, total);
      var before := bitLow;
      var bits := Wrap(8 * bytes);
      bitLow := Wrap(bitLow + bits);
      if bitLow < before {
        bitHigh := Wrap(bitHigh + 1);
      }
      bitHigh := Wrap(bitHigh + bytes / 0x2000_0000);
    }

    /** The copying loop of the update: bytes go behind the ones already buffered. */
    method Store(chunk: seq<byte>)
      requires block.Length == BLOCK && used + |chunk| <= BLOCK
      modifies this`used, block
      ensures used == old(used) + |chunk|
      ensures block[..used] == old(block[..used]) + chunk
    {
      var start := used;
      ghost var tail := block[..start];
      for i := 0 to |chunk|
        invariant used == start
        invariant block[..start + i] == tail + chunk[..i]
      {
        block[start + i] := chunk[i];
      }
      used := used + |chunk|;
      assert chunk[..|chunk|] == chunk;
    }

    /** One round of the update loop: at most the rest of the block, compressed when it is full. */
    method Take(chunk: seq<byte>)
      requires Holds(message) && |chunk| <= BLOCK - used
      modifies this`state, this`used, this`message, block
      ensures Holds(message)
      ensures message == old(message) + chunk
    {
      hide Compress, Fold, Represents;
      ghost var tail := block[..used];
      if used + |chunk| < 64 {
        ExtendTail(state, tail, message, chunk);
      } else {
        CloseBlock(state, tail, message, chunk);
      }
      Store(chunk);
      message := message + chunk;
      if used == 64 {
        assert block[..] == block[..used];
        state := Transform(state, block);
        used := 0;
        assert block[..used] == [];
      }
    }

    /** pmos_sha256_update. */
    method Update(data: seq<byte>)
      requires Valid() && |data| < 0x1_0000_0000
      modifies this, block
      ensures Valid()
      ensures message == old(message) + data
    {
      hide Compress, Fold, Wrap, Counts, Represents;
      ghost var start := message;
      AddBits(|data|, |message|);
      var at := 0;
      while at < |data|
        invariant at <= |data|
        invariant Holds(message) && message == start + data[..at]
        invariant Counts(|start| + |data|)
      {
        var take := 64 - used;
        if take > |data| - at {
          take := |data| - at;
        }
        Take(data[at..at + take]);
        assert data[..at + take] == data[..at] + data[at..at + take];
        at := at + take;
      }
      assert data[..at] == data;
    }

    /** Zero bytes up to a position of the block. */
    method ZeroTo(limit: nat)
      requires block.Length == BLOCK && used <= limit <= BLOCK
      modifies this`used, block
      ensures used == limit
      ensures block[..limit] == old(block[..used]) + Zeros(limit - old(used))
    {
      ghost var start, written := used, block[..used];
      while used < limit
        invariant start <= used <= limit
        invariant block[..used] == written + Zeros(used - start)
      {
        block[used] := 0;
        used := used + 1;
      }
    }

    /** The end of a block: the bit counter, most significant byte first. */
    method StoreCounter(ghost total: nat)
      requires block.Length == BLOCK && Counts(total)
      modifies block
      ensures block[..] == old(block[..56]) + Be64(8 * total)
    {
      CounterWords(bitLow, bitHigh, total);
      var high, low := Be32(bitHigh), Be32(bitLow);
      block[56], block[57], block[58], block[59] := high[0], high[1], high[2], high[3];
      block[60], block[61], block[62], block[63] := low[0], low[1], low[2], low[3];
      hide Be64, Be32, Counts;
      assert high == [high[0], high[1], high[2], high[3]] && low == [low[0], low[1], low[2], low[3]];
    }

    /** The marker leaves no room for the counter: zeros to the end of the block, which is compressed. */
    method CloseMarked()
      requires block.Length == BLOCK && used <= BLOCK
      modifies this`used, this`state, block
      ensures used == 0
      ensures state == Compress(old(state), old(block[..used]) + Zeros(BLOCK - old(used)))
    {
      hide Compress, Zeros;
      ZeroTo(64);
      assert block[..64] == block[..];
      state := Transform(state, block);
      used := 0;
    }

    /** The last block: zeros up to the counter, and the counter. */
    method CloseCounted(ghost total: nat)
      requires block.Length == BLOCK && used <= 56 && Counts(total)
      modifies this`used, this`state, block
      ensures state == Compress(old(state), old(block[..used]) + Zeros(56 - old(used)) + Be64(8 * total))
    {
      hide Compress, Zeros, Counts, Be64;
      ZeroTo(56);
      StoreCounter(total);
      state := Transform(state, block);
    }

    /** pmos_sha256_final. */
    method Final() returns (out: seq<byte>)
      requires Valid()
      modifies this, block
      ensures out == Sum(old(message))
    {
      hide Compress, Fold, Digest, Zeros, Represents, Counts, Be64;
      ghost var m, tail, start := message, block[..used], state;
      if |tail| < 56 {
        FinishShort(start, tail, m);
      } else {
        FinishLong(start, tail, m);
      }
      block[used] := 0x80;
      used := used + 1;
      assert block[..used] == tail + [0x80];
      if used > 56 {
        CloseMarked();
        assert block[..used] == [];
        assert [] + Zeros(56) == Zeros(56);
      }
      CloseCounted(|m|);
      out := Digest(state);
    }
  }

  lemma CounterWords(low: u32, high: u32, total: nat)
    requires high * 0x1_0000_0000 + low == BitLength(total)
    ensures Be64(8 * total) == Be32(high) + Be32(low)
  {
    var q := 8 * total / 0x1_0000_0000_0000_0000;
    Divide(8 * total, q * 0x1_0000_0000 + high, low);
    Divide(q * 0x1_0000_0000 + high, q, high);
  }
}
