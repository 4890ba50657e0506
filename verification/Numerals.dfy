// Numbers as text: hex32 / uart_put_hex32, put_u32_dec, and parse_u32_token.
module Numerals {
  import opened Bytes
  import opened Options

  function DigitChar(d: nat): char
    requires d < 16
  {
    if d < 10 then ('0' as int + d) as char else ('a' as int + (d - 10)) as char
  }

  /** The last n hexadecimal digits of x. */
  function Hex(x: nat, n: nat): (r: string)
    ensures |r| == n
    decreases n, x
  {
    if n == 0 then "" else Hex(x / 16, n - 1) + [DigitChar(x % 16)]
  }

  function Hex8(x: u32): string {
    Hex(x, 8)
  }

  function Dec(x: nat): (r: string)
    ensures |r| > 0
  {
    if x < 10 then [DigitChar(x)] else Dec(x / 10) + [DigitChar(x % 10)]
  }

  /** put_u32_dec: the digits are produced backwards into a buffer of eleven characters. */
  method PutDec(value: u32) returns (out: string)
    ensures out == Dec(value)
  {
    if value == 0 {
      return "0";
    }
    var buffer: string, rest: nat := "", value;
    assert Power10(10) == 10000000000;
    while rest != 0 && |buffer| < 11
      invariant |buffer| <= 10
      invariant rest == 0 ==> Reverse(buffer) == Dec(value)
      invariant rest != 0 ==> Dec(rest) + Reverse(buffer) == Dec(value)
      invariant rest < Power10(10 - |buffer|)
      decreases rest
    {
      ghost var before, was := buffer, rest;
      buffer := buffer + [DigitChar(rest % 10)];
      rest := rest / 10;
      ReverseAppend(before, DigitChar(was % 10));
      assert Dec(was) == (if was < 10 then [] else Dec(was / 10)) + [DigitChar(was % 10)];
      PowerStep(was, 10 - |before|);
    }
    out := "";
    var used := |buffer|;
    assert buffer[..used] == buffer;
    while used != 0
      invariant used <= |buffer|
      invariant out + Reverse(buffer[..used]) == Reverse(buffer)
    {
      ReverseAppend(buffer[..used - 1], buffer[used - 1]);
      assert buffer[..used] == buffer[..used - 1] + [buffer[used - 1]];
      used := used - 1;
      out := out + [buffer[used]];
    }
  }

  function Reverse(s: string): string {
    if s == "" then "" else Reverse(s[1..]) + [s[0]]
  }

  lemma {:induction false} ReverseAppend(s: string, c: char)
    ensures Reverse(s + [c]) == [c] + Reverse(s)
    decreases |s|
  {
    if s == "" {
      assert [c][1..] == "";
    } else {
      assert (s + [c])[1..] == s[1..] + [c];
      ReverseAppend(s[1..], c);
    }
  }

  function Power10(n: nat): nat {
    if n == 0 then 1 else 10 * Power10(n - 1)
  }

  lemma PowerStep(x: nat, n: nat)
    requires 0 < x < Power10(n)
    ensures n > 0 && x / 10 < Power10(n - 1)
  {}

  // ----- parsing

  function CharDigit(c: char): Option<nat> {
    if '0' <= c <= '9' then Some(c as int - '0' as int)
    else if 'a' <= c <= 'f' then Some(10 + (c as int - 'a' as int))
    else if 'A' <= c <= 'F' then Some(10 + (c as int - 'A' as int))
    else None
  }

  /** The digit loop, in 32-bit arithmetic. */
  function ParseDigits(text: string, base: nat, result: u32): Option<u32>
    decreases |text|
  {
    if text == "" then Some(result)
    else match CharDigit(text[0])
      case None => None
      case Some(d) => if d >= base then None else ParseDigits(text[1..], base, Wrap(result * base + d))
  }

  function ParseToken(text: string): Option<u32> {
    if |text| >= 2 && text[0] == '0' && (text[1] == 'x' || text[1] == 'X') then
      if text[2..] == "" then None else ParseDigits(text[2..], 16, 0)
    else if text == "" then None
    else ParseDigits(text, 10, 0)
  }

  /** parse_u32_token. */
  method ParseTokenLoop(text: string) returns (ok: bool, value: u32)
    ensures ok <==> ParseToken(text).Some?
    ensures ok ==> ParseToken(text) == Some(value)
  {
    value := 0;
    if text == "" {
      return false, 0;
    }
    var base, at := 10, 0;
    if text[0] == '0' && |text| > 1 && (text[1] == 'x' || text[1] == 'X') {
      base, at := 16, 2;
    }
    if at == |text| {
      return false, 0;
    }
    ghost var digits := text[at..];
    assert base == 10 ==> digits == text;
    while at < |text|
      invariant at <= |text|
      invariant ParseDigits(text[at..], base, value) == ParseDigits(digits, base, 0)
    {
      assert text[at..][1..] == text[at + 1..];
      var d := CharDigit(text[at]);
      if d == None || d.value >= base {
        return false, 0;
      }
      value := Wrap(value * base + d.value);
      at := at + 1;
    }
    ok := true;
  }

  lemma {:induction false} ParseAppend(text: string, c: char, base: nat, result: u32)
    requires CharDigit(c).Some? && CharDigit(c).value < base
    ensures ParseDigits(text + [c], base, result)
         == match ParseDigits(text, base, result)
            case None => None
            case Some(v) => Some(Wrap(v * base + CharDigit(c).value))
    decreases |text|
  {
    if text == "" {
      assert ([c])[1..] == "";
    } else {
      assert (text + [c])[1..] == text[1..] + [c];
      match CharDigit(text[0]) {
        case None =>
        case Some(d) =>
          if d < base {
            ParseAppend(text[1..], c, base, Wrap(result * base + d));
          }
      }
    }
  }

  lemma DigitRoundTrip(d: nat)
    requires d < 16
    ensures CharDigit(DigitChar(d)) == Some(d)
  {}

  function Power16(n: nat): nat {
    if n == 0 then 1 else 16 * Power16(n - 1)
  }

  lemma {:induction false} ParseHexDigits(x: u32, n: nat)
    requires x < Power16(n)
    ensures ParseDigits(Hex(x, n), 16, 0) == Some(x)
    decreases n
  {
    if n > 0 {
      ParseHexDigits(x / 16, n - 1);
      DigitRoundTrip(x % 16);
      ParseAppend(Hex(x / 16, n - 1), DigitChar(x % 16), 16, 0);
    }
  }

  lemma {:induction false} ParseDecDigits(x: u32)
    ensures ParseDigits(Dec(x), 10, 0) == Some(x)
    decreases x
  {
    hide Wrap, CharDigit, DigitChar;
    DigitRoundTrip(x % 10);
    if x < 10 {
      assert [DigitChar(x)][1..] == "";
      SameWord(x, 0, x);
    } else {
      ParseDecDigits(x / 10);
      ParseAppend(Dec(x / 10), DigitChar(x % 10), 10, 0);
      SameWord(x, x / 10, x % 10);
    }
  }

  lemma SameWord(x: u32, tens: nat, d: nat)
    requires x == 10 * tens + d
    ensures Wrap(tens * 10 + d) == x
  {}

  lemma {:induction false} DecStart(x: nat)
    ensures x > 0 ==> Dec(x)[0] != '0'
    ensures forall i :: 0 <= i < |Dec(x)| ==> '0' <= Dec(x)[i] <= '9'
    decreases x
  {
    if x >= 10 {
      DecStart(x / 10);
    }
  }

  /** Every 32-bit number is read back from its decimal text and from its prefixed eight-digit hexadecimal text. */
  lemma PrintedNumbersParse(x: u32)
    ensures ParseToken(Dec(x)) == Some(x)
    ensures ParseToken("0x" + Hex8(x)) == Some(x)
  {
    DecStart(x);
    ParseDecDigits(x);
    assert Power16(8) == 0x1_0000_0000;
    ParseHexDigits(x, 8);
    assert ("0x" + Hex8(x))[2..] == Hex8(x);
  }

  /** Different numbers have different eight-digit texts. */
  lemma Hex8Injective(x: u32, y: u32)
    requires Hex8(x) == Hex8(y)
    ensures x == y
  {
    PrintedNumbersParse(x);
    PrintedNumbersParse(y);
  }

  /** The digits are the decimal ones and the lower-case letters a to f. */
  lemma {:induction false} HexIsLowerCase(x: nat, n: nat)
    ensures forall i :: 0 <= i < n ==> '0' <= Hex(x, n)[i] <= '9' || 'a' <= Hex(x, n)[i] <= 'f'
    decreases n
  {
    if n > 0 {
      HexIsLowerCase(x / 16, n - 1);
    }
  }

  /** The value of a text's digits in a base, over the unbounded integers. */
  function Value(text: string, base: nat): nat
    decreases |text|
  {
    if text == "" then 0
    else Value(text[..|text| - 1], base) * base + (match CharDigit(text[|text| - 1]) case None => 0 case Some(d) => d)
  }

  predicate AllDigits(text: string, base: nat) {
    forall i :: 0 <= i < |text| ==> CharDigit(text[i]).Some? && CharDigit(text[i]).value < base
  }

  /** Digits are read as their value modulo 2^32; a text with any other character is refused. */
  lemma {:induction false} DigitsRead(text: string, base: nat)
    ensures ParseDigits(text, base, 0) == if AllDigits(text, base) then Some(Wrap(Value(text, base))) else None
    decreases |text|
  {
    hide CharDigit, Wrap;
    if text == "" {
      WrapsOnce(0, 0, 0);
    } else {
      var front, c := text[..|text| - 1], text[|text| - 1];
      assert text == front + [c];
      DigitsRead(front, base);
      if CharDigit(c).Some? && CharDigit(c).value < base {
        ParseAppend(front, c, base, 0);
        WrapsOnce(Value(front, base), base, CharDigit(c).value);
        assert AllDigits(text, base) <==> AllDigits(front, base);
      } else {
        ParseRefuses(front, c, base, 0);
        assert !AllDigits(text, base);
      }
    }
  }

  lemma WrapsOnce(x: nat, base: nat, d: nat)
    ensures Wrap(0) == 0 && Wrap(Wrap(x) * base + d) == Wrap(x * base + d)
  {
    var q := x / 0x1_0000_0000;
    assert x == q * 0x1_0000_0000 + Wrap(x);
    var y, k := Wrap(x) * base + d, q * base;
    assert x * base + d == k * 0x1_0000_0000 + y by {
      Expand(q, Wrap(x), base);
    }
    WrapMore(y, k);
  }

  lemma Expand(q: nat, r: nat, base: nat)
    ensures (q * 0x1_0000_0000 + r) * base == q * base * 0x1_0000_0000 + r * base
  {}

  lemma WrapMore(y: nat, k: nat)
    ensures Wrap(k * 0x1_0000_0000 + y) == Wrap(y)
  {}

  lemma {:induction false} ParseRefuses(text: string, c: char, base: nat, result: u32)
    requires CharDigit(c).None? || CharDigit(c).value >= base
    ensures ParseDigits(text + [c], base, result) == None
    decreases |text|
  {
    hide CharDigit, Wrap;
    if text != "" {
      assert (text + [c])[1..] == text[1..] + [c];
      match CharDigit(text[0]) {
        case None =>
        case Some(d) =>
          if d < base {
            ParseRefuses(text[1..], c, base, Wrap(result * base + d));
          }
      }
    }
  }

  predicate Prefixed(text: string) {
    "0x" <= text || "0X" <= text
  }

  /** A token is a number exactly when it is "0x" or "0X" with hexadecimal digits in either case behind it, or decimal digits
      alone, at least one in both cases; it is read modulo 2^32. */
  lemma TokenExactly(text: string)
    ensures ParseToken(text)
         == if Prefixed(text) then (if |text| > 2 && AllDigits(text[2..], 16) then Some(Wrap(Value(text[2..], 16))) else None)
            else if text != "" && AllDigits(text, 10) then Some(Wrap(Value(text, 10)))
            else None
  {
    hide CharDigit, Wrap, ParseDigits, Value, AllDigits;
    assert Prefixed(text) <==> |text| >= 2 && text[0] == '0' && (text[1] == 'x' || text[1] == 'X');
    if Prefixed(text) {
      DigitsRead(text[2..], 16);
    } else {
      DigitsRead(text, 10);
    }
  }

  /** Each of the sixteen digits has its value, the letters in both cases, and no other character has one. */
  lemma DigitValues(c: char)
    ensures '0' <= c <= '9' ==> CharDigit(c) == Some(c as int - '0' as int)
    ensures CharDigit('a') == CharDigit('A') == Some(10) && CharDigit('b') == CharDigit('B') == Some(11)
    ensures CharDigit('c') == CharDigit('C') == Some(12) && CharDigit('d') == CharDigit('D') == Some(13)
    ensures CharDigit('e') == CharDigit('E') == Some(14) && CharDigit('f') == CharDigit('F') == Some(15)
    ensures !('0' <= c <= '9' || 'a' <= c <= 'f' || 'A' <= c <= 'F') ==> CharDigit(c) == None
  {}
}
