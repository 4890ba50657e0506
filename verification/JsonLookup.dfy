// The scanners as the payload runs them: index loops over the manifest's bytes.
module JsonLookup {
  import opened Bytes
  import opened Options
  import opened JsonText
  import opened JsonScan
  import opened JsonRead

  /** json_skip_ws. */
  method SkipWs(data: string, position: nat) returns (p: nat)
    requires position <= |data|
    ensures position <= p <= |data| && data[p..] == SkipBlank(data[position..])
  {
    p := position;
    while p < |data| && Blank(data[p])
      invariant position <= p <= |data|
      invariant SkipBlank(data[p..]) == SkipBlank(data[position..])
    {
      assert data[p..][1..] == data[p + 1..];
      p := p + 1;
    }
  }

  lemma SliceStep(data: string, start: nat, at: nat)
    requires start <= at < |data|
    ensures data[at..][1..] == data[at + 1..]
    ensures data[start..][at - start] == data[at]
    ensures data[start..][at - start + 1..] == data[at + 1..]
    ensures data[start..at + 1] == data[start..at] + [data[at]]
    ensures data[start..][..at - start] == data[start..at]
  {}

  /** The comparison of a quoted name with the key, and the colon behind it. */
  method MatchKey(data: string, key: string, start: nat) returns (matched: bool, position: nat)
    requires start <= |data|
    ensures matched <==> KeyHere(data[start..], key).Some?
    ensures matched ==> position <= |data| && KeyHere(data[start..], key) == Some(data[position..])
  {
    hide SkipBlank, Blank;
    var p, k := start, 0;
    while k < |key| && p < |data| && data[p] == key[k]
      invariant k <= |key| && p == start + k <= |data|
      invariant data[start..p] == key[..k]
    {
      SliceStep(data, start, p);
      p, k := p + 1, k + 1;
    }
    matched, position := false, 0;
    ghost var s := data[start..];
    if p == |data| {
      return;
    }
    SliceStep(data, start, p);
    if k < |key| {
      assert |s| > |key| ==> s[..|key|][k] == s[k];
      return;
    }
    assert s[..|key|] == key;
    if data[p] == '"' {
      p := SkipWs(data, p + 1);
      if p < |data| && data[p] == ':' {
        SliceStep(data, p, p);
        p := SkipWs(data, p + 1);
        matched, position := true, p;
      }
    }
  }

  /** The scanner's variables: both depths, and whether the position is inside a string or behind a backslash. */
  datatype Scanner = Scanner(objects: nat, arrays: nat, inString: bool, escaped: bool)

  function Advance(sc: Scanner, c: char): Scanner {
    if sc.inString then
      if sc.escaped then sc.(escaped := false)
      else if c == '\\' then sc.(escaped := true)
      else if c == '"' then sc.(inString := false)
      else sc
    else if c == '{' then sc.(objects := sc.objects + 1)
    else if c == '}' then (if sc.objects != 0 then sc.(objects := sc.objects - 1) else sc)
    else if c == '[' then sc.(arrays := sc.arrays + 1)
    else if c == ']' then (if sc.arrays != 0 then sc.(arrays := sc.arrays - 1) else sc)
    else if c == '"' then sc.(inString := true, escaped := false)
    else sc
  }

  function Remaining(sc: Scanner, s: string, key: string, direct: nat): Option<string> {
    Find(if sc.inString then AfterString(s, sc.escaped) else s, key, sc.objects, sc.arrays, direct)
  }

  predicate AtDirectName(sc: Scanner, c: char, direct: nat) {
    !sc.inString && c == '"' && sc.objects == direct && sc.arrays == 0
  }

  lemma AdvanceKeeps(sc: Scanner, s: string, key: string, direct: nat)
    requires s != "" && (AtDirectName(sc, s[0], direct) ==> KeyHere(s[1..], key) == None)
    ensures Remaining(Advance(sc, s[0]), s[1..], key, direct) == Remaining(sc, s, key, direct)
  {
    hide KeyHere, SkipBlank;
  }

  lemma RemainingFound(sc: Scanner, s: string, key: string, direct: nat)
    requires s != "" && AtDirectName(sc, s[0], direct) && KeyHere(s[1..], key).Some?
    ensures Remaining(sc, s, key, direct) == if KeyHere(s[1..], key).value == "" then None else KeyHere(s[1..], key)
  {
    hide KeyHere, SkipBlank;
  }

  /** json_find_value. */
  method FindValueIn(data: string, key: string) returns (found: bool, position: nat)
    ensures found <==> FindValue(data, key).Some?
    ensures found ==> position < |data| && FindValue(data, key) == Some(data[position..])
  {
    position := 0;
    var p := SkipWs(data, 0);
    assert data[0..] == data;
    var direct := if p < |data| && data[p] == '{' then 1 else 0;
    assert direct == DirectDepth(data);
    var sc := Scanner(0, 0, false, false);
    var i := 0;
    assert Remaining(sc, data[i..], key, direct) == FindValue(data, key);
    hide Find, KeyHere, SkipBlank, DirectDepth, AfterString;
    while i < |data|
      invariant i <= |data|
      invariant Remaining(sc, data[i..], key, direct) == FindValue(data, key)
    {
      hide Remaining, FindValue, Advance;
      SliceStep(data, i, i);
      if AtDirectName(sc, data[i], direct) {
        var matched, at := MatchKey(data, key, i + 1);
        if matched {
          RemainingFound(sc, data[i..], key, direct);
          return at < |data|, at;
        }
      }
      AdvanceKeeps(sc, data[i..], key, direct);
      sc := Advance(sc, data[i]);
      i := i + 1;
    }
    found := false;
    NothingLeft(sc, key, direct);
    assert data[i..] == "";
  }

  lemma NothingLeft(sc: Scanner, key: string, direct: nat)
    ensures Remaining(sc, "", key, direct) == None
  {}

  /** The brace counter's view of the rest of the text. */
  function Closing(s: string, depth: nat, inString: bool, escaped: bool): Option<string> {
    ToClose(if inString then AfterString(s, escaped) else s, depth)
  }

  /** One character of the brace-counting loop. */
  lemma ClosingSteps(s: string, depth: nat, inString: bool, escaped: bool)
    requires s != ""
    ensures Closing(s, depth, inString, escaped)
         == if inString then
              (if escaped || s[0] != '"' then Closing(s[1..], depth, true, !escaped && s[0] == '\\') else Closing(s[1..], depth, false, escaped))
            else if s[0] == '"' then Closing(s[1..], depth, true, false)
            else if s[0] == '{' then Closing(s[1..], depth + 1, false, escaped)
            else if s[0] == '}' then
              (if depth == 0 then None else if depth == 1 then Some(s) else Closing(s[1..], depth - 1, false, escaped))
            else Closing(s[1..], depth, false, escaped)
  {}

  lemma NothingCloses(depth: nat, inString: bool, escaped: bool)
    ensures Closing("", depth, inString, escaped) == None
  {}

  /** json_object_value: the object's text is data[start..start + length]. */
  method ObjectValueIn(data: string, key: string) returns (found: bool, start: nat, length: nat)
    ensures found <==> ObjectValue(data, key).Some?
    ensures found ==> start + length <= |data| && ObjectValue(data, key) == Some(data[start..start + length])
  {
    hide FindValue, SkipBlank;
    start, length := 0, 0;
    var present, p := FindValueIn(data, key);
    if !present || data[p] != '{' {
      return false, 0, 0;
    }
    start := p + 1;
    ghost var value := data[p..];
    assert Closing(value, 0, false, false) == ToClose(value, 0);
    hide ToClose, AfterString, Closing;
    var depth, inString, escaped := 0, false, false;
    while p < |data|
      invariant start - 1 <= p <= |data|
      invariant p == start - 1 ==> depth == 0 && !inString
      invariant Closing(data[p..], depth, inString, escaped) == ToClose(value, 0)
    {
      var c := data[p];
      ClosingSteps(data[p..], depth, inString, escaped);
      SliceStep(data, p, p);
      if inString {
        if escaped {
          escaped := false;
        } else if c == '\\' {
          escaped := true;
        } else if c == '"' {
          inString := false;
        }
      } else if c == '"' {
        inString, escaped := true, false;
      } else if c == '{' {
        depth := depth + 1;
      } else if c == '}' {
        if depth == 0 {
          return false, 0, 0;
        }
        depth := depth - 1;
        if depth == 0 {
          assert value[1..|value| - |data[p..]|] == data[start..p];
          return true, start, p - start;
        }
      }
      p := p + 1;
    }
    NothingCloses(depth, inString, escaped);
    assert data[p..] == "";
    found := false;
  }

  /** json_string_value: the copied characters, without the closing NUL. */
  method StringValueIn(data: string, key: string, size: nat) returns (found: bool, output: string)
    ensures found <==> StringValue(data, key, size).Some?
    ensures found ==> StringValue(data, key, size) == Some(output)
  {
    hide FindValue, SkipBlank, Blank;
    output := "";
    var present, p := FindValueIn(data, key);
    if !present || data[p] != '"' {
      return false, "";
    }
    ghost var value := data[p..];
    p := p + 1;
    assert value[1..] == data[p..];
    while p < |data| && data[p] != '"'
      invariant p <= |data|
      invariant ReadBody(data[p..], output, size) == ReadBody(value[1..], "", size)
    {
      assert data[p..][1..] == data[p + 1..];
      if data[p] == '\\' || |output| + 1 >= size {
        return false, "";
      }
      output := output + [data[p]];
      p := p + 1;
    }
    if p >= |data| {
      return false, "";
    }
    assert data[p..][1..] == data[p + 1..];
    p := SkipWs(data, p + 1);
    found := !(p < |data| && data[p] != ',' && data[p] != '}' && data[p] != ']');
  }

  lemma DigitStep(s: string, value: u32, count: nat)
    requires s != "" && DigitChar(s[0])
    ensures var next := Wrap(value * 10 + DigitValue(s[0]));
            ReadDigits(s, value, count) == if next < value then None else ReadDigits(s[1..], next, count + 1)
  {}

  /** json_u32_value. */
  method U32ValueIn(data: string, key: string) returns (found: bool, output: u32)
    ensures found <==> U32Value(data, key).Some?
    ensures found ==> U32Value(data, key) == Some(output)
  {
    hide Wrap, FindValue, SkipBlank, ReadDigits, Blank;
    output := 0;
    var present, p := FindValueIn(data, key);
    if !present {
      return false, 0;
    }
    ghost var value := data[p..];
    var digits := 0;
    while p < |data| && DigitChar(data[p])
      invariant p <= |data|
      invariant ReadDigits(data[p..], output, digits) == ReadDigits(value, 0, 0)
    {
      SliceStep(data, p, p);
      DigitStep(data[p..], output, digits);
      var next := Wrap(output * 10 + DigitValue(data[p]));
      if next < output {
        return false, 0;
      }
      output := next;
      p, digits := p + 1, digits + 1;
    }
    DigitsEnd(data[p..], output, digits);
    if digits == 0 {
      return false, 0;
    }
    p := SkipWs(data, p);
    found := !(p < |data| && data[p] != ',' && data[p] != '}');
  }

  /** json_true_value. */
  method TrueValueIn(data: string, key: string) returns (found: bool)
    ensures found <==> TrueValue(data, key)
  {
    hide FindValue, SkipBlank;
    var present, p := FindValueIn(data, key);
    if !present || p + 4 > |data| {
      return false;
    }
    ghost var value := data[p..];
    assert value[..4] == [data[p], data[p + 1], data[p + 2], data[p + 3]] && value[4..] == data[p + 4..];
    if data[p] != 't' || data[p + 1] != 'r' || data[p + 2] != 'u' || data[p + 3] != 'e' {
      assert value[0] == data[p] && value[1] == data[p + 1] && value[2] == data[p + 2] && value[3] == data[p + 3];
      return false;
    }
    p := SkipWs(data, p + 4);
    found := p == |data| || data[p] == ',' || data[p] == '}';
  }

  /** The copying loop inside json_array_contains_string, up to and including the closing quote. */
  method CopyBody(data: string, start: nat, size: nat) returns (ok: bool, value: string, p: nat)
    requires start <= |data|
    ensures ok <==> ReadBody(data[start..], "", size).Some?
    ensures ok ==> start < p <= |data| && ReadBody(data[start..], "", size) == Some((value, data[p..]))
  {
    value, p := "", start;
    while p < |data| && data[p] != '"'
      invariant start <= p <= |data|
      invariant ReadBody(data[p..], value, size) == ReadBody(data[start..], "", size)
    {
      assert data[p..][1..] == data[p + 1..];
      if data[p] == '\\' || |value| + 1 >= size {
        return false, value, p;
      }
      value := value + [data[p]];
      p := p + 1;
    }
    if p >= |data| {
      return false, value, p;
    }
    assert data[p..][1..] == data[p + 1..];
    ok, p := true, p + 1;
  }

  /** json_array_contains_string. */
  method ArrayContainsIn(data: string, key: string, expected: string) returns (found: bool)
    ensures found <==> ArrayContains(data, key, expected)
  {
    hide FindValue, ReadBody, SkipBlank, Blank;
    var present, p := FindValueIn(data, key);
    if !present || data[p] != '[' {
      return false;
    }
    p := p + 1;
    assert data[p - 1..][1..] == data[p..];
    while true
      invariant p <= |data|
      invariant ScanItems(data[p..], expected) <==> ArrayContains(data, key, expected)
      decreases |data| - p
    {
      ghost var s := data[p..];
      p := SkipWs(data, p);
      if p >= |data| || data[p] == ']' || data[p] != '"' {
        return false;
      }
      SliceStep(data, p, p);
      var ok, value, behind := CopyBody(data, p + 1, 48);
      if !ok {
        return false;
      }
      if value == expected {
        return true;
      }
      p := SkipWs(data, behind);
      if p >= |data| || data[p] != ',' {
        return false;
      }
      SliceStep(data, p, p);
      p := p + 1;
    }
  }
}
