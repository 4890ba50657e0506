// The digests a manifest names: the look-ups of validate_manifest_and_image in payloads/uart-firmware-recovery/recovery.c.
module Manifest {
  import opened Bytes
  import opened Options
  import opened Numerals
  import opened JsonText
  import opened JsonScan
  import opened JsonRead
  import opened JsonLookup

  /** The manifest's bytes as text. */
  function AsText(data: seq<byte>): string {
    seq(|data|, i requires 0 <= i < |data| => data[i] as char)
  }

  function HexByte(b: byte): (r: string)
    ensures |r| == 2
  {
    [Numerals.DigitChar(b as nat / 16), Numerals.DigitChar(b as nat % 16)]
  }

  function HexDigest(d: seq<byte>): (r: string)
    ensures |r| == 2 * |d|
  {
    if d == [] then "" else HexByte(d[0]) + HexDigest(d[1..])
  }

  /** digest_to_hex. */
  method DigestToHex(digest: seq<byte>) returns (output: string)
    ensures output == HexDigest(digest)
  {
    output := "";
    var i := 0;
    while i < |digest|
      invariant i <= |digest|
      invariant output + HexDigest(digest[i..]) == HexDigest(digest)
    {
      assert digest[i..][1..] == digest[i + 1..];
      output := output + HexByte(digest[i]);
      i := i + 1;
    }
  }

  /** Each byte is written as two lower-case digits, the more significant one first, so that it reads back as a number. */
  lemma {:induction false} HexDigestReads(d: seq<byte>, i: nat)
    requires i < |d|
    ensures var digits := HexDigest(d)[2 * i..2 * i + 2];
            && digits == Hex(d[i] as nat, 2)
            && ParseDigits(digits, 16, 0) == Some(d[i] as nat)
    decreases |d|
  {
    if i == 0 {
      assert HexDigest(d)[0..2] == HexByte(d[0]);
      TwoDigits(d[0]);
    } else {
      HexDigestReads(d[1..], i - 1);
      assert HexDigest(d)[2..] == HexDigest(d[1..]);
      SliceOfSlice(HexDigest(d), 2, |HexDigest(d)|, 2 * (i - 1), 2 * (i - 1) + 2);
    }
  }

  lemma TwoDigits(b: byte)
    ensures HexByte(b) == Hex(b as nat, 2)
    ensures ParseDigits(HexByte(b), 16, 0) == Some(b as nat)
  {
    var x := b as nat;
    assert Power16(2) == 256;
    ParseHexDigits(x, 2);
    assert Hex(x / 16, 1) == Hex(x / 16 / 16, 0) + [Numerals.DigitChar(x / 16 % 16)];
    assert x / 16 % 16 == x / 16;
    assert Hex(x, 2) == Hex(x / 16, 1) + [Numerals.DigitChar(x % 16)];
  }

  /** Hexadecimal text stands for one digest only. */
  lemma {:induction false} HexDigestInjective(a: seq<byte>, b: seq<byte>)
    requires HexDigest(a) == HexDigest(b)
    ensures a == b
    decreases |a|
  {
    assert |a| == |b|;
    if a != [] {
      assert HexDigest(a)[..2] == HexByte(a[0]) && HexDigest(b)[..2] == HexByte(b[0]);
      assert HexDigest(a)[2..] == HexDigest(a[1..]) && HexDigest(b)[2..] == HexDigest(b[1..]);
      HexByteInjective(a[0], b[0]);
      HexDigestInjective(a[1..], b[1..]);
      assert a == [a[0]] + a[1..] && b == [b[0]] + b[1..];
    }
  }

  lemma HexByteInjective(a: byte, b: byte)
    requires HexByte(a) == HexByte(b)
    ensures a == b
  {
    assert HexByte(a)[0] == HexByte(b)[0] && HexByte(a)[1] == HexByte(b)[1];
    DigitRoundTrip(a as nat / 16); DigitRoundTrip(a as nat % 16);
    DigitRoundTrip(b as nat / 16); DigitRoundTrip(b as nat % 16);
  }

  lemma {:induction false} HexHasNoEscape(d: seq<byte>)
    ensures NoEscape(HexDigest(d))
    decreases |d|
  {
    if d != [] {
      HexHasNoEscape(d[1..]);
    }
  }

  /** The manifest text names this digest: the object at the path has it, in hexadecimal, as its own string member. */
  predicate Names(text: string, path: seq<string>, key: string, digest: seq<byte>) {
    match Chain(text, path)
    case None => false
    case Some(inner) => StringValue(inner, key, 65) == Some(HexDigest(digest))
  }

  /** For any manifest tree in any layout, the digest named is that of the direct member at the path:
      a member of the same name nested further down, before or behind it, is never taken for it. */
  lemma NamesExactly(text: string, v: Value, path: seq<string>, key: string, digest: seq<byte>)
    requires v.Object? && Presents(text, v.blank, v.members) && PlainKey(key) && forall k :: k in path ==> PlainKey(k)
    requires |digest| == 32
    ensures Names(text, path, key, digest)
       <==> var w := Descend(v, path); w.Some? && w.value.Object? && Lookup(w.value.members, key) == Some(Text(HexDigest(digest)))
  {
    hide Chain, Descend, StringValue, HexDigest;
    ChainFollowsTree(text, v, path);
    var w := Descend(v, path);
    if w.Some? {
      StringRead(Chain(text, path).value, w.value.blank, w.value.members, key, 65);
      HexHasNoEscape(digest);
    }
  }

  /** A manifest names one digest at a place. */
  lemma NamesOnlyOne(text: string, path: seq<string>, key: string, a: seq<byte>, b: seq<byte>)
    requires Names(text, path, key, a) && Names(text, path, key, b)
    ensures a == b
  {
    hide Chain, StringValue, HexDigest;
    HexDigestInjective(a, b);
  }

  /** json_object_value, once for each name of a path. */
  method ChainIn(data: string, path: seq<string>) returns (found: bool, inner: string)
    ensures found <==> Chain(data, path).Some?
    ensures found ==> Chain(data, path) == Some(inner)
  {
    hide ObjectValue;
    inner := data;
    var i := 0;
    assert path[0..] == path;
    while i < |path|
      invariant i <= |path|
      invariant Chain(inner, path[i..]) == Chain(data, path)
    {
      assert path[i..][1..] == path[i + 1..];
      var present, start, length := ObjectValueIn(inner, path[i]);
      if !present {
        return false, "";
      }
      inner := inner[start..start + length];
      i := i + 1;
    }
    found := true;
  }

  /** The digest checks of the manifest validation: look up the text, and compare it with the digest's. */
  method NamesDigest(data: string, path: seq<string>, key: string, digest: seq<byte>) returns (ok: bool)
    ensures ok <==> Names(data, path, key, digest)
  {
    hide Chain, StringValue, HexDigest;
    var inner, value, hex;
    ok, inner := ChainIn(data, path);
    if !ok {
      return;
    }
    ok, value := StringValueIn(inner, key, 65);
    if !ok {
      return;
    }
    hex := DigestToHex(digest);
    ok := value == hex;
  }
}
