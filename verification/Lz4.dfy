// lz4_decompress_block of payloads/uart-firmware-recovery/recovery.c, and the LZ4 block format it reads.
module Lz4 {
  import opened Bytes
  import opened Options

  // ----- the format: a block is a list of sequences, possibly closed by literals only

  datatype Block =
    | End
    | Last(unused: nat, literals: seq<byte>)
    | More(literals: seq<byte>, offset: nat, matchLength: nat, rest: Block)

  /** Every field of b has a place in the encoding. */
  predicate Encodable(b: Block)
    decreases b
  {
    match b
    case End => true
    case Last(unused, _) => unused < 16
    case More(_, offset, matchLength, rest) => 1 <= offset <= 0xffff && 4 <= matchLength && Encodable(rest)
  }

  /** Every match of b starts inside the output, when `produced` bytes are there already. */
  predicate Grounded(b: Block, produced: nat)
    decreases b
  {
    match b
    case End => true
    case Last(_, _) => true
    case More(literals, offset, matchLength, rest) =>
      1 <= offset <= produced + |literals| && Grounded(rest, produced + |literals| + matchLength)
  }

  /** n more bytes, each a copy of the one `offset` places before it: the copy may run into its own output. */
  function CopyMatch(out: seq<byte>, offset: nat, n: nat): (r: seq<byte>)
    requires 1 <= offset <= |out|
    ensures |r| == |out| + n
    decreases n
  {
    if n == 0 then out else CopyMatch(out + [out[|out| - offset]], offset, n - 1)
  }

  function Expand(b: Block, out: seq<byte>): seq<byte>
    requires Grounded(b, |out|)
    decreases b
  {
    match b
    case End => out
    case Last(_, literals) => out + literals
    case More(literals, offset, matchLength, rest) => Expand(rest, CopyMatch(out + literals, offset, matchLength))
  }

  function Nibble(n: nat): nat {
    if n < 15 then n else 15
  }

  /** The bytes behind a nibble of 15: 255 as often as it fits, then the remainder. */
  function Extension(n: nat): (r: seq<byte>)
    ensures |r| > 0
  {
    if n < 255 then [n as byte] else [255] + Extension(n - 255)
  }

  function Extra(n: nat): seq<byte> {
    if n < 15 then [] else Extension(n - 15)
  }

  function Token(high: nat, low: nat): byte
    requires high < 16 && low < 16
  {
    (16 * high + low) as byte
  }

  function Offset(n: nat): seq<byte>
    requires n <= 0xffff
  {
    [(n % 0x100) as byte, (n / 0x100) as byte]
  }

  function Encode(b: Block): seq<byte>
    requires Encodable(b)
    decreases b
  {
    match b
    case End => []
    case Last(unused, literals) => [Token(Nibble(|literals|), unused)] + (Extra(|literals|) + literals)
    case More(literals, offset, matchLength, rest) =>
      [Token(Nibble(|literals|), Nibble(matchLength - 4))]
      + (Extra(|literals|) + (literals + (Offset(offset) + (Extra(matchLength - 4) + Encode(rest)))))
  }

  // ----- the layout, byte by byte

  lemma {:induction false} ExtensionLayout(n: nat)
    ensures Extension(n) == seq(n / 255, _ => 255 as byte) + [(n % 255) as byte]
    decreases n
  {
    if n >= 255 {
      ExtensionLayout(n - 255);
      assert n / 255 == (n - 255) / 255 + 1 && n % 255 == (n - 255) % 255;
      assert seq(n / 255, _ => 255 as byte) == [255] + seq((n - 255) / 255, _ => 255 as byte);
    }
  }

  /** The bytes behind a token for a length of n: none below 15, otherwise 255 for every whole 255 of what exceeds 15, and the remainder. */
  function LengthBytes(n: nat): seq<byte> {
    if n < 15 then [] else seq((n - 15) / 255, _ => 255 as byte) + [((n - 15) % 255) as byte]
  }

  function AtMost15(n: nat): nat {
    if n <= 15 then n else 15
  }

  /** One sequence on the wire: the token with the literals' length in its upper half and the match's, less four, in its lower
      one; the literals' further length; the literals; the offset, least significant byte first; the match's further length. */
  lemma SequenceLayout(literals: seq<byte>, offset: nat, matchLength: nat, rest: Block)
    requires Encodable(More(literals, offset, matchLength, rest))
    ensures Encode(More(literals, offset, matchLength, rest))
         == [(16 * AtMost15(|literals|) + AtMost15(matchLength - 4)) as byte] + LengthBytes(|literals|) + literals
          + [(offset % 256) as byte, (offset / 256) as byte] + LengthBytes(matchLength - 4) + Encode(rest)
  {
    hide Extension, LengthBytes, Extra, Nibble, Token, AtMost15, Encode, Encodable, Offset;
    EncodeMore(literals, offset, matchLength, rest);
    OffsetLayout(offset);
    ExtraLayout(|literals|);
    ExtraLayout(matchLength - 4);
    TokenLayout(|literals|, matchLength - 4);
    Regroup([Token(Nibble(|literals|), Nibble(matchLength - 4))], Extra(|literals|), literals, Offset(offset), Extra(matchLength - 4), Encode(rest));
  }

  lemma EncodeMore(literals: seq<byte>, offset: nat, matchLength: nat, rest: Block)
    requires Encodable(More(literals, offset, matchLength, rest))
    ensures 1 <= offset <= 0xffff && 4 <= matchLength && Encodable(rest) && Nibble(|literals|) < 16 && Nibble(matchLength - 4) < 16
    ensures Encode(More(literals, offset, matchLength, rest))
         == [Token(Nibble(|literals|), Nibble(matchLength - 4))]
          + (Extra(|literals|) + (literals + (Offset(offset) + (Extra(matchLength - 4) + Encode(rest)))))
  {
    hide Extra, Token, Offset;
  }

  lemma OffsetLayout(n: nat)
    requires n <= 0xffff
    ensures Offset(n) == [(n % 256) as byte, (n / 256) as byte]
  {}

  lemma ExtraLayout(n: nat)
    ensures Extra(n) == LengthBytes(n) && Nibble(n) < 16
  {
    if n >= 15 {
      ExtensionLayout(n - 15);
    }
  }

  lemma TokenLayout(high: nat, low: nat)
    ensures Token(Nibble(high), Nibble(low)) == (16 * AtMost15(high) + AtMost15(low)) as byte
  {}

  lemma Regroup(a: seq<byte>, b: seq<byte>, c: seq<byte>, d: seq<byte>, e: seq<byte>, f: seq<byte>)
    ensures a + (b + (c + (d + (e + f)))) == a + b + c + d + e + f
  {}

  // ----- decoding

  datatype Length = Length(value: nat, rest: seq<byte>)

  /** Extension bytes added to n, up to and including the first that is not 255. */
  function ReadExtension(n: nat, src: seq<byte>): (r: Option<Length>)
    ensures r.Some? ==> |r.value.rest| < |src|
    decreases src
  {
    if src == [] then None
    else if src[0] == 255 then ReadExtension(n + 255, src[1..])
    else Some(Length(n + src[0] as nat, src[1..]))
  }

  function ReadLength(nibble: nat, src: seq<byte>): (r: Option<Length>)
    ensures r.Some? ==> |r.value.rest| <= |src|
  {
    if nibble == 15 then ReadExtension(15, src) else Some(Length(nibble, src))
  }

  function High(token: byte): nat {
    token as nat / 16
  }

  function Low(token: byte): nat {
    token as nat % 16
  }

  /** What a match needs: its offset, its length, and the source behind it. */
  function ReadMatch(nibble: nat, src: seq<byte>, produced: nat): (r: Option<(nat, nat, seq<byte>)>)
    ensures r.Some? ==> 1 <= r.value.0 <= produced && 4 <= r.value.1 && |r.value.2| < |src|
  {
    if |src| < 2 then None
    else
      var offset := src[0] as nat + 0x100 * src[1] as nat;
      if offset == 0 || offset > produced then None
      else match ReadLength(nibble, src[2..])
        case None => None
        case Some(length) => Some((offset, length.value + 4, length.rest))
  }

  /** Literals of the given nibble: the source behind them and the literals themselves. */
  function ReadLiterals(nibble: nat, src: seq<byte>): (r: Option<(seq<byte>, seq<byte>)>)
    ensures r.Some? ==> |r.value.1| <= |src|
  {
    match ReadLength(nibble, src)
    case None => None
    case Some(length) =>
      if length.value > |length.rest| then None
      else Some((length.rest[..length.value], length.rest[length.value..]))
  }

  function Decode(src: seq<byte>, out: seq<byte>, capacity: nat): (r: Option<seq<byte>>)
    decreases |src|
  {
    if src == [] then Some(out)
    else
      match ReadLiterals(High(src[0]), src[1..])
      case None => None
      case Some((literals, behind)) =>
        if |out| + |literals| > capacity then None
        else if behind == [] then Some(out + literals)
        else
          match ReadMatch(Low(src[0]), behind, |out + literals|)
          case None => None
          case Some((offset, length, rest)) =>
            if |out + literals| + length > capacity then None
            else Decode(rest, CopyMatch(out + literals, offset, length), capacity)
  }

  // ----- a match is periodic

  /** Byte i of a match is the byte i modulo the offset behind the match's start: overlapping matches repeat. */
  lemma {:induction false} MatchIsPeriodic(out: seq<byte>, offset: nat, n: nat, i: nat)
    requires 1 <= offset <= |out| && i < n
    ensures CopyMatch(out, offset, n)[|out| + i] == out[|out| - offset + i % offset]
    decreases n
  {
    var more := out + [out[|out| - offset]];
    var r := CopyMatch(more, offset, n - 1);
    CopyKeeps(more, offset, n - 1);
    if i == 0 {
      assert r[..|more|][|out|] == r[|out|];
      ModuloUnique(0, offset, 0, 0);
    } else {
      MatchIsPeriodic(more, offset, n - 1, i - 1);
      var before, now := (i - 1) % offset, i % offset;
      PreviousModulo(i, offset);
      assert r[|more| + (i - 1)] == more[|more| - offset + before];
    }
  }

  lemma {:induction false} CopyKeeps(out: seq<byte>, offset: nat, n: nat)
    requires 1 <= offset <= |out|
    ensures CopyMatch(out, offset, n)[..|out|] == out
    decreases n
  {
    if n > 0 {
      var more := out + [out[|out| - offset]];
      CopyKeeps(more, offset, n - 1);
      assert CopyMatch(out, offset, n)[..|more|][..|out|] == more[..|out|] == out;
    }
  }

  lemma PreviousModulo(i: nat, m: nat)
    requires i >= 1 && m >= 1
    ensures i % m == if (i - 1) % m == m - 1 then 0 else (i - 1) % m + 1
  {
    var q, r := (i - 1) / m, (i - 1) % m;
    assert i - 1 == m * q + r;
    if r == m - 1 {
      assert i == m * (q + 1);
      ModuloUnique(i, m, q + 1, 0);
    } else {
      ModuloUnique(i, m, q, r + 1);
    }
  }

  lemma ModuloUnique(x: int, m: nat, q: int, r: nat)
    requires m >= 1 && x == m * q + r && r < m
    ensures x % m == r
  {
    var d := x / m - q;
    assert m * d == m * (x / m) - m * q;
    MultipleSize(m, d);
  }

  lemma MultipleSize(m: nat, d: int)
    ensures d >= 1 ==> m * d >= m
    ensures d <= -1 ==> m * d <= 0 - m
  {}

  // ----- decoding undoes encoding

  lemma {:induction false} ExtensionRead(n: nat, k: nat, post: seq<byte>)
    ensures ReadExtension(n, Extension(k) + post) == Some(Length(n + k, post))
    decreases k
  {
    var src := Extension(k) + post;
    if k < 255 {
      assert src[1..] == post;
    } else {
      assert src[1..] == Extension(k - 255) + post;
      ExtensionRead(n + 255, k - 255, post);
    }
  }

  lemma LengthRead(n: nat, post: seq<byte>)
    ensures ReadLength(Nibble(n), Extra(n) + post) == Some(Length(n, post))
  {
    if n < 15 {
      assert [] + post == post;
    } else {
      ExtensionRead(15, n - 15, post);
    }
  }

  lemma TokenNibbles(high: nat, low: nat)
    requires high < 16 && low < 16
    ensures High(Token(high, low)) == high && Low(Token(high, low)) == low
  {}

  lemma LiteralsRead(literals: seq<byte>, post: seq<byte>)
    ensures ReadLiterals(Nibble(|literals|), Extra(|literals|) + (literals + post)) == Some((literals, post))
  {
    LengthRead(|literals|, literals + post);
    assert (literals + post)[..|literals|] == literals && (literals + post)[|literals|..] == post;
  }

  lemma MatchRead(offset: nat, length: nat, post: seq<byte>, produced: nat)
    requires 1 <= offset <= produced && offset <= 0xffff && 4 <= length
    ensures ReadMatch(Nibble(length - 4), Offset(offset) + (Extra(length - 4) + post), produced) == Some((offset, length, post))
  {
    LengthRead(length - 4, post);
    assert (Offset(offset) + (Extra(length - 4) + post))[2..] == Extra(length - 4) + post;
  }

  /** Every block that makes sense is decoded to its expansion when that fits, and refused when it does not. */
  lemma {:induction false} DecodeEncode(b: Block, out: seq<byte>, capacity: nat)
    requires Encodable(b) && Grounded(b, |out|) && |out| <= capacity
    ensures Decode(Encode(b), out, capacity)
         == if |Expand(b, out)| <= capacity then Some(Expand(b, out)) else None
    decreases b
  {
    hide Nibble, Extra, ReadLiterals, ReadMatch, Token, High, Low;
    match b {
      case End =>
      case Last(unused, literals) =>
        var src := Encode(b);
        TokenNibbles(NibbleBound(|literals|), unused);
        assert literals + [] == literals;
        LiteralsRead(literals, []);
        assert src[1..] == Extra(|literals|) + literals;
      case More(literals, offset, length, rest) =>
        var src := Encode(b);
        var behind := Offset(offset) + (Extra(length - 4) + Encode(rest));
        TokenNibbles(NibbleBound(|literals|), NibbleBound(length - 4));
        assert src[1..] == Extra(|literals|) + (literals + behind);
        LiteralsRead(literals, behind);
        MatchRead(offset, length, Encode(rest), |out + literals|);
        ExpandGrows(rest, CopyMatch(out + literals, offset, length));
        if |out + literals| + length <= capacity {
          DecodeEncode(rest, CopyMatch(out + literals, offset, length), capacity);
        }
    }
  }

  function NibbleBound(n: nat): (r: nat)
    ensures r == Nibble(n) && r < 16
  {
    Nibble(n)
  }

  lemma {:induction false} ExpandGrows(b: Block, out: seq<byte>)
    requires Grounded(b, |out|)
    ensures |out| <= |Expand(b, out)|
    decreases b
  {
    if b.More? {
      ExpandGrows(b.rest, CopyMatch(out + b.literals, b.offset, b.matchLength));
    }
  }

  // ----- and nothing else is accepted

  lemma {:induction false} ExtensionWritten(n: nat, src: seq<byte>)
    requires ReadExtension(n, src).Some?
    ensures var length := ReadExtension(n, src).value;
            n <= length.value && src == Extension(length.value - n) + length.rest
    decreases src
  {
    if src[0] == 255 {
      ExtensionWritten(n + 255, src[1..]);
    }
    assert src == [src[0]] + src[1..];
  }

  lemma LengthWritten(nibble: nat, src: seq<byte>)
    requires nibble < 16 && ReadLength(nibble, src).Some?
    ensures var length := ReadLength(nibble, src).value;
            nibble == Nibble(length.value) && src == Extra(length.value) + length.rest
  {
    if nibble == 15 {
      ExtensionWritten(15, src);
    }
  }

  lemma TokenWritten(token: byte)
    ensures High(token) < 16 && Low(token) < 16 && token == Token(High(token), Low(token))
  {}

  lemma MatchWritten(nibble: nat, src: seq<byte>, produced: nat)
    requires nibble < 16 && ReadMatch(nibble, src, produced).Some?
    ensures var (offset, length, rest) := ReadMatch(nibble, src, produced).value;
            offset <= 0xffff && nibble == Nibble(length - 4) && src == Offset(offset) + (Extra(length - 4) + rest)
  {
    LengthWritten(nibble, src[2..]);
    var offset := src[0] as nat + 0x100 * src[1] as nat;
    assert Offset(offset) == [src[0], src[1]];
  }

  lemma LiteralsWritten(nibble: nat, src: seq<byte>)
    requires nibble < 16 && ReadLiterals(nibble, src).Some?
    ensures var (literals, behind) := ReadLiterals(nibble, src).value;
            nibble == Nibble(|literals|) && src == Extra(|literals|) + (literals + behind)
  {
    LengthWritten(nibble, src);
    var length := ReadLength(nibble, src).value;
    assert length.rest == length.rest[..length.value] + length.rest[length.value..];
  }

  /** The block behind an accepted source. */
  lemma {:induction false} DecodeMeans(src: seq<byte>, out: seq<byte>, capacity: nat) returns (b: Block)
    requires Decode(src, out, capacity).Some?
    ensures Encodable(b) && Grounded(b, |out|)
    ensures Encode(b) == src && Expand(b, out) == Decode(src, out, capacity).value
    decreases |src|
  {
    hide Nibble, Extra, ReadLiterals, ReadMatch, Token, High, Low;
    if src == [] {
      b := End;
    } else {
      var (literals, behind) := ReadLiterals(High(src[0]), src[1..]).value;
      TokenWritten(src[0]);
      LiteralsWritten(High(src[0]), src[1..]);
      assert src == [src[0]] + src[1..];
      if behind == [] {
        assert literals + [] == literals;
        b := Last(Low(src[0]), literals);
      } else {
        var (offset, length, rest) := ReadMatch(Low(src[0]), behind, |out + literals|).value;
        MatchWritten(Low(src[0]), behind, |out + literals|);
        var tail := DecodeMeans(rest, CopyMatch(out + literals, offset, length), capacity);
        b := More(literals, offset, length, tail);
      }
    }
  }

  /** A source is accepted with result r exactly when it encodes a block whose expansion is r and fits. */
  lemma DecodeExactly(src: seq<byte>, capacity: nat, r: seq<byte>)
    ensures Decode(src, [], capacity) == Some(r)
       <==> exists b :: Encodable(b) && Grounded(b, 0) && Encode(b) == src && Expand(b, []) == r && |r| <= capacity
  {
    if Decode(src, [], capacity) == Some(r) {
      var b := DecodeMeans(src, [], capacity);
      DecodeEncode(b, [], capacity);
    }
    if b :| Encodable(b) && Grounded(b, 0) && Encode(b) == src && Expand(b, []) == r && |r| <= capacity {
      DecodeEncode(b, [], capacity);
    }
  }

  // ----- the decompressor: indices into the source and the destination, all of them u32

  /** The extension loop. Every sum stays below 2^32 because the source is short. */
  method ReadExtensionBytes(source: seq<byte>, start: u32) returns (ok: bool, si: u32, length: u32)
    requires start <= |source| <= 8192
    ensures ok <==> ReadExtension(15, source[start..]).Some?
    ensures ok ==> start <= si <= |source| && ReadExtension(15, source[start..]) == Some(Length(length, source[si..]))
    ensures ok ==> length <= 15 + 255 * 8192
  {
    si, length := start, 15;
    var extension: byte := 255;
    while extension == 255
      invariant start <= si <= |source|
      invariant length <= 15 + 255 * (si - start)
      invariant extension == 255 ==> ReadExtension(length, source[si..]) == ReadExtension(15, source[start..])
      invariant extension != 255 ==> ReadExtension(15, source[start..]) == Some(Length(length, source[si..]))
      decreases |source| - si, extension
    {
      if si >= |source| {
        return false, si, length;
      }
      assert source[si..][1..] == source[si + 1..];
      extension := source[si];
      si := si + 1;
      length := length + extension as u32;
    }
    ok := true;
  }

  /** Copies literals from the source. */
  method CopyLiterals(source: seq<byte>, si: u32, destination: array<byte>, di: u32, n: u32)
    requires si + n <= |source| && di + n <= destination.Length
    modifies destination
    ensures destination[..di + n] == old(destination[..di]) + source[si..si + n]
    ensures destination[di + n..] == old(destination[di + n..])
  {
    for i := 0 to n
      invariant destination[..di + i] == old(destination[..di]) + source[si..si + i]
      invariant destination[di + n..] == old(destination[di + n..])
    {
      destination[di + i] := source[si + i];
    }
  }

  /** Copies a match inside the destination, one byte at a time, so that it may overlap itself. */
  method CopyWithin(destination: array<byte>, di: u32, offset: u32, n: u32)
    requires 1 <= offset <= di && di + n <= destination.Length
    modifies destination
    ensures destination[..di + n] == CopyMatch(old(destination[..di]), offset, n)
    ensures destination[di + n..] == old(destination[di + n..])
  {
    for i := 0 to n
      invariant CopyMatch(destination[..di + i], offset, n - i) == CopyMatch(old(destination[..di]), offset, n)
      invariant destination[di + n..] == old(destination[di + n..])
    {
      ghost var out := destination[..di + i];
      destination[di + i] := destination[di + i - offset];
      assert destination[..di + i + 1] == out + [out[|out| - offset]];
    }
  }

  /** The literal half of the loop body, from behind the token. */
  method TakeLiterals(source: seq<byte>, start: u32, nibble: u32, destination: array<byte>, di: u32, capacity: u32)
    returns (ok: bool, si: u32, end: u32)
    requires start <= |source| <= 8192 && nibble < 16
    requires di <= capacity <= destination.Length && capacity <= 0x8000_0000
    modifies destination
    ensures var r := ReadLiterals(nibble, source[start..]);
            && (ok <==> r.Some? && di + |r.value.0| <= capacity)
            && (ok ==> start <= si <= |source| && end <= capacity && source[si..] == r.value.1)
            && (ok ==> destination[..end] == old(destination[..di]) + r.value.0)
    ensures destination[capacity..] == old(destination[capacity..])
  {
    si, end := start, di;
    var literalLength: u32 := nibble;
    if literalLength == 15 {
      ok, si, literalLength := ReadExtensionBytes(source, start);
      if !ok {
        return;
      }
    }
    assert ReadLength(nibble, source[start..]) == Some(Length(literalLength, source[si..]));
    var literalEnd: u32, outEnd: u32 := si + literalLength, di + literalLength;
    if literalEnd > |source| || outEnd > capacity {
      return false, si, end;
    }
    assert source[si..][..literalLength] == source[si..literalEnd] && source[si..][literalLength..] == source[literalEnd..];
    CopyLiterals(source, si, destination, di, literalLength);
    assert destination[capacity..] == destination[outEnd..][capacity - outEnd..];
    ok, si, end := true, literalEnd, outEnd;
  }

  /** The match half of the loop body. */
  method TakeMatch(source: seq<byte>, start: u32, nibble: u32, destination: array<byte>, di: u32, capacity: u32)
    returns (ok: bool, si: u32, end: u32)
    requires start <= |source| <= 8192 && nibble < 16
    requires di <= capacity <= destination.Length && capacity <= 0x8000_0000
    modifies destination
    ensures var r := ReadMatch(nibble, source[start..], di);
            && (ok <==> r.Some? && di + r.value.1 <= capacity)
            && (ok ==> start < si <= |source| && end <= capacity && source[si..] == r.value.2)
            && (ok ==> destination[..end] == CopyMatch(old(destination[..di]), r.value.0, r.value.1))
    ensures destination[capacity..] == old(destination[capacity..])
  {
    si, end := start, di;
    var offsetEnd: u32 := si + 2;
    if offsetEnd > |source| {
      return false, si, end;
    }
    var offset: u32 := source[si] as int + 0x100 * source[si + 1] as int;
    assert source[start..][2..] == source[offsetEnd..];
    si := offsetEnd;
    if offset == 0 || offset > di {
      return false, si, end;
    }
    var matchLength: u32 := nibble;
    if matchLength == 15 {
      ok, si, matchLength := ReadExtensionBytes(source, si);
      if !ok {
        return;
      }
    }
    matchLength := matchLength + 4;
    assert ReadMatch(nibble, source[start..], di) == Some((offset, matchLength, source[si..]));
    var matchEnd: u32 := di + matchLength;
    if matchEnd > capacity {
      return false, si, end;
    }
    CopyWithin(destination, di, offset, matchLength);
    assert destination[capacity..] == destination[matchEnd..][capacity - matchEnd..];
    ok, end := true, matchEnd;
  }

  /** Succeeds exactly when the specification decoder does, with its output; writes below the capacity only. */
  method Decompress(source: seq<byte>, destination: array<byte>, capacity: u32) returns (ok: bool, decodedLength: u32)
    requires |source| <= 8192 && capacity <= destination.Length && capacity <= 0x8000_0000
    modifies destination
    ensures ok <==> Decode(source, [], capacity).Some?
    ensures ok ==> decodedLength <= capacity && Decode(source, [], capacity) == Some(destination[..decodedLength])
    ensures destination[capacity..] == old(destination[capacity..])
  {
    hide Decode, CopyMatch, ReadLiterals, ReadMatch;
    decodedLength := 0;
    var si: u32, di: u32 := 0, 0;
    assert source[0..] == source;
    assert destination[..0] == [];
    while si < |source|
      invariant si <= |source| && di <= capacity
      invariant Decode(source[si..], destination[..di], capacity) == Decode(source, [], capacity)
      invariant destination[capacity..] == old(destination[capacity..])
      decreases |source| - si
    {
      ghost var rest, out := source[si..], destination[..di];
      var token := source[si];
      assert rest[1..] == source[si + 1..];
      var done;
      done, si, di := TakeLiterals(source, si + 1, token as int / 16, destination, di, capacity);
      if !done {
        DecodeRefusesLiterals(rest, out, capacity);
        return false, 0;
      }
      ghost var literals, behind := ReadLiterals(High(token), rest[1..]).value.0, source[si..];
      if si == |source| {
        assert behind == [];
        DecodeEnds(rest, out, capacity, literals);
        return true, di;
      }
      assert destination[..di] == out + literals;
      done, si, di := TakeMatch(source, si, token as int % 16, destination, di, capacity);
      if !done {
        DecodeRefusesMatch(rest, out, capacity, literals, behind);
        return false, 0;
      }
      ghost var m := ReadMatch(Low(token), behind, |out + literals|).value;
      DecodeSteps(rest, out, capacity, literals, behind, m.0, m.1, m.2);
    }
    DecodeNothing(destination[..di], capacity);
    assert source[si..] == [];
    ok, decodedLength := true, di;
  }

  // ----- Decode, one branch at a time

  lemma DecodeNothing(out: seq<byte>, capacity: nat)
    ensures Decode([], out, capacity) == Some(out)
  {}

  lemma DecodeRefusesLiterals(src: seq<byte>, out: seq<byte>, capacity: nat)
    requires src != []
    requires ReadLiterals(High(src[0]), src[1..]).Some? ==> |out| + |ReadLiterals(High(src[0]), src[1..]).value.0| > capacity
    ensures Decode(src, out, capacity) == None
  {}

  lemma DecodeEnds(src: seq<byte>, out: seq<byte>, capacity: nat, literals: seq<byte>)
    requires src != [] && ReadLiterals(High(src[0]), src[1..]) == Some((literals, [])) && |out| + |literals| <= capacity
    ensures Decode(src, out, capacity) == Some(out + literals)
  {}

  lemma DecodeRefusesMatch(src: seq<byte>, out: seq<byte>, capacity: nat, literals: seq<byte>, behind: seq<byte>)
    requires src != [] && ReadLiterals(High(src[0]), src[1..]) == Some((literals, behind)) && behind != []
    requires ReadMatch(Low(src[0]), behind, |out + literals|).Some?
         ==> |out + literals| + ReadMatch(Low(src[0]), behind, |out + literals|).value.1 > capacity
    ensures Decode(src, out, capacity) == None
  {}

  lemma DecodeSteps(src: seq<byte>, out: seq<byte>, capacity: nat, literals: seq<byte>, behind: seq<byte>,
                    offset: nat, length: nat, rest: seq<byte>)
    requires src != [] && ReadLiterals(High(src[0]), src[1..]) == Some((literals, behind)) && behind != []
    requires |out + literals| + length <= capacity
    requires 1 <= offset <= |out + literals|
    requires ReadMatch(Low(src[0]), behind, |out + literals|) == Some((offset, length, rest))
    ensures Decode(src, out, capacity) == Decode(rest, CopyMatch(out + literals, offset, length), capacity)
  {}
}
