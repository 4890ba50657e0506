// Typed reads of a found value: json_string_value, json_u32_value, json_true_value and json_array_contains_string.
module JsonRead {
  import opened Bytes
  import opened Options
  import opened JsonText
  import opened JsonScan

  // ----- the readers, on the rest of the text

  /** The copying loop of a string read: no escapes, and room for a closing NUL in `size` bytes. */
  function ReadBody(s: string, used: string, size: nat): Option<(string, string)>
    decreases |s|
  {
    if s == "" then None
    else if s[0] == '"' then Some((used, s[1..]))
    else if s[0] == '\\' || |used| + 1 >= size then None
    else ReadBody(s[1..], used + [s[0]], size)
  }

  predicate Delimited(s: string, delimiters: string) {
    var t := SkipBlank(s);
    t == "" || t[0] in delimiters
  }

  function StringValue(s: string, key: string, size: nat): Option<string> {
    match FindValue(s, key)
    case None => None
    case Some(value) =>
      if value == "" || value[0] != '"' then None
      else match ReadBody(value[1..], "", size)
        case None => None
        case Some((body, behind)) => if Delimited(behind, ",}]") then Some(body) else None
  }

  predicate DigitChar(c: char) {
    '0' <= c <= '9'
  }

  function DigitValue(c: char): (d: nat)
    requires DigitChar(c)
    ensures d < 10
  {
    c as int - '0' as int
  }

  datatype Digits = Digits(value: u32, count: nat, behind: string)

  /** The digit loop: u32 arithmetic, stopped when the value seems to have shrunk. */
  function ReadDigits(s: string, value: u32, count: nat): Option<Digits>
    decreases |s|
  {
    if s != "" && DigitChar(s[0]) then
      var next := Wrap(value * 10 + DigitValue(s[0]));
      if next < value then None else ReadDigits(s[1..], next, count + 1)
    else Some(Digits(value, count, s))
  }

  function U32Value(s: string, key: string): Option<u32> {
    match FindValue(s, key)
    case None => None
    case Some(value) =>
      match ReadDigits(value, 0, 0)
      case None => None
      case Some(d) => if d.count == 0 || !Delimited(d.behind, ",}") then None else Some(d.value)
  }

  predicate TrueValue(s: string, key: string) {
    match FindValue(s, key)
    case None => false
    case Some(value) => "true" <= value && Delimited(value[4..], ",}")
  }

  /** The loop of json_array_contains_string, from behind the opening bracket or a comma. */
  predicate ScanItems(s: string, expected: string)
    decreases |s|
  {
    var t := SkipBlank(s);
    if t == "" || t[0] != '"' then false
    else match ReadBody(t[1..], "", 48)
      case None => false
      case Some((body, behind)) =>
        ReadBodyShrinks(t[1..], "", 48);
        body == expected ||
        (var u := SkipBlank(behind); u != "" && u[0] == ',' && ScanItems(u[1..], expected))
  }

  predicate ArrayContains(s: string, key: string, expected: string) {
    match FindValue(s, key)
    case None => false
    case Some(value) => value != "" && value[0] == '[' && ScanItems(value[1..], expected)
  }

  lemma {:induction false} ReadBodyShrinks(s: string, used: string, size: nat)
    ensures ReadBody(s, used, size).Some? ==> |ReadBody(s, used, size).value.1| < |s|
    decreases |s|
  {
    if s != "" && s[0] != '"' && s[0] != '\\' && |used| + 1 < size {
      ReadBodyShrinks(s[1..], used + [s[0]], size);
    }
  }

  // ----- what a string read returns

  predicate NoEscape(body: string) {
    forall i :: 0 <= i < |body| ==> body[i] != '\\'
  }

  /** A printed string is read whole when it has no escapes and leaves room for the NUL, and refused otherwise. */
  lemma {:induction false} ReadBodyText(body: string, post: string, used: string, size: nat)
    requires StringBody(body) && |used| < size
    ensures ReadBody(body + ("\"" + post), used, size)
         == if NoEscape(body) && |used| + |body| < size then Some((used + body, post)) else None
    decreases |body|
  {
    var s := body + ("\"" + post);
    if body == "" {
      assert s == "\"" + post && used + body == used;
    } else if body[0] != '\\' {
      assert s[1..] == body[1..] + ("\"" + post);
      assert body == [body[0]] + body[1..];
      if |used| + 1 < size {
        ReadBodyText(body[1..], post, used + [body[0]], size);
        assert used + [body[0]] + body[1..] == used + body;
        assert NoEscape(body) <==> NoEscape(body[1..]) by {
          assert forall i :: 1 <= i < |body| ==> body[i] == body[1..][i - 1];
        }
      }
    }
  }

  /** json_string_value succeeds exactly on a direct string member without escapes that fits, and returns its text. */
  lemma StringRead(s: string, blank: string, ms: Members, key: string, size: nat)
    requires Presents(s, blank, ms) && PlainKey(key) && size > 0
    ensures StringValue(s, key, size)
         == match Lookup(ms, key)
            case None => None
            case Some(v) => if v.Text? && NoEscape(v.body) && |v.body| < size then Some(v.body) else None
  {
    var _, follow := FindsDirectMember(s, blank, ms, key);
    if Lookup(ms, key).Some? {
      var v := Lookup(ms, key).value;
      var _ := ValueFollows(ms, key, "");
      PrintHead(v, follow);
      if v.Text? {
        assert Quoted(v.body, follow)[1..] == v.body + ("\"" + follow);
        ReadBodyText(v.body, follow, "", size);
        FollowStart(follow);
        assert "" + v.body == v.body;
      }
    }
  }

  lemma PrintHead(v: Value, post: string)
    requires WellFormed(v)
    ensures Print(v, post) != ""
    ensures match v
            case Object(_, _) => Print(v, post)[0] == '{'
            case Array(_, _) => Print(v, post)[0] == '['
            case Text(_) => Print(v, post)[0] == '"'
            case Plain(text) => Print(v, post)[0] == text[0] && PlainChar(text[0])
  {}

  // ----- what a number read returns

  predicate AllDigits(text: string) {
    forall i :: 0 <= i < |text| ==> DigitChar(text[i])
  }

  /** The decimal number read behind the value so far, over the unbounded integers. */
  function Number(text: string, value: nat): nat
    requires AllDigits(text)
    decreases |text|
  {
    if text == "" then value else Number(text[1..], value * 10 + DigitValue(text[0]))
  }

  lemma {:induction false} NumberGrows(text: string, value: nat)
    requires AllDigits(text)
    ensures Number(text, value) >= value
    decreases |text|
  {
    if text != "" {
      NumberGrows(text[1..], value * 10 + DigitValue(text[0]));
    }
  }

  predicate NotDigitFirst(s: string) {
    s == "" || !DigitChar(s[0])
  }

  /** Below 2^32 the wrapping loop is exact. */
  lemma {:induction false} DigitsPrefix(text: string, follow: string, value: u32, count: nat)
    requires AllDigits(text) && Number(text, value) < 0x1_0000_0000
    ensures ReadDigits(text + follow, value, count) == ReadDigits(follow, Number(text, value), count + |text|)
    decreases |text|
  {
    if text == "" {
      assert text + follow == follow;
    } else {
      assert (text + follow)[1..] == text[1..] + follow;
      var next := value * 10 + DigitValue(text[0]);
      NumberGrows(text[1..], next);
      DigitsPrefix(text[1..], follow, next, count + 1);
    }
  }

  lemma WrapStep(x: nat, d: nat)
    ensures Wrap(Wrap(x) * 10 + d) == Wrap(x * 10 + d)
  {
    var q := x / 0x1_0000_0000;
    assert x * 10 + d == (q * 10) * 0x1_0000_0000 + (Wrap(x) * 10 + d);
    WrapShift(Wrap(x) * 10 + d, q * 10);
  }

  lemma WrapShift(x: int, q: int)
    ensures Wrap(q * 0x1_0000_0000 + x) == Wrap(x)
  {}

  /** What the loop accepts is always the number modulo 2^32. */
  lemma {:induction false} DigitsModulo(text: string, follow: string, value: nat, count: nat)
    requires AllDigits(text) && NotDigitFirst(follow)
    requires ReadDigits(text + follow, Wrap(value), count).Some?
    ensures ReadDigits(text + follow, Wrap(value), count)
         == Some(Digits(Wrap(Number(text, value)), count + |text|, follow))
    decreases |text|
  {
    hide Wrap;
    if text == "" {
      assert text + follow == follow;
    } else {
      assert (text + follow)[1..] == text[1..] + follow;
      WrapStep(value, DigitValue(text[0]));
      DigitsModulo(text[1..], follow, value * 10 + DigitValue(text[0]), count + 1);
    }
  }

  /** A plain value that is not all digits leaves something that delimits nothing. */
  lemma {:induction false} DigitsStop(text: string, follow: string, value: u32, count: nat)
    requires (forall i :: 0 <= i < |text| ==> PlainChar(text[i])) && !AllDigits(text)
    ensures var r := ReadDigits(text + follow, value, count); r.Some? ==> !Delimited(r.value.behind, ",}")
    decreases |text|
  {
    assert (text + follow)[0] == text[0] && (text + follow)[1..] == text[1..] + follow;
    if DigitChar(text[0]) {
      assert !AllDigits(text[1..]) by {
        var i :| 0 <= i < |text| && !DigitChar(text[i]);
        assert text[1..][i - 1] == text[i];
      }
      DigitsStop(text[1..], follow, Wrap(value * 10 + DigitValue(text[0])), count + 1);
    }
  }

  /** No digit makes the number, seen modulo 2^32, smaller than it was without that digit. */
  predicate NeverShrinks(text: string)
    requires AllDigits(text)
  {
    forall i :: 0 <= i < |text| ==> Wrap(Number(text[..i], 0)) <= Wrap(Number(text[..i + 1], 0))
  }

  lemma NumberSnoc(text: string, i: nat)
    requires AllDigits(text) && i < |text|
    ensures Number(text[..i + 1], 0) == Number(text[..i], 0) * 10 + DigitValue(text[i])
  {
    assert text[..i + 1] == text[..i] + [text[i]];
    NumberConcat(text[..i], [text[i]], 0);
    assert [text[i]][1..] == "";
  }

  /** From the i-th digit on, the loop gives up exactly at a digit that shrinks the value. */
  lemma {:induction false} DigitsAccepted(text: string, follow: string, i: nat)
    requires AllDigits(text) && i <= |text| && NotDigitFirst(follow)
    ensures ReadDigits(text[i..] + follow, Wrap(Number(text[..i], 0)), i).Some?
       <==> forall k :: i <= k < |text| ==> Wrap(Number(text[..k], 0)) <= Wrap(Number(text[..k + 1], 0))
    decreases |text| - i
  {
    hide Wrap, Number;
    if i == |text| {
      assert text[i..] + follow == follow;
    } else {
      assert (text[i..] + follow)[0] == text[i] && (text[i..] + follow)[1..] == text[i + 1..] + follow;
      NumberSnoc(text, i);
      WrapStep(Number(text[..i], 0), DigitValue(text[i]));
      DigitsAccepted(text, follow, i + 1);
    }
  }

  lemma DigitsAcceptedWhole(text: string, follow: string)
    requires AllDigits(text) && NotDigitFirst(follow)
    ensures ReadDigits(text + follow, 0, 0).Some? <==> NeverShrinks(text)
  {
    assert text[0..] == text && text[..0] == "";
    DigitsAccepted(text, follow, 0);
  }

  /** json_u32_value succeeds exactly on a direct number of digits that never shrinks modulo 2^32, and then returns it
      modulo 2^32; it is exact if and only if the number is below 2^32. */
  lemma NumberRead(s: string, blank: string, ms: Members, key: string)
    requires Presents(s, blank, ms) && PlainKey(key)
    ensures U32Value(s, key).Some? ==>
              && Lookup(ms, key).Some? && Lookup(ms, key).value.Plain? && AllDigits(Lookup(ms, key).value.text)
              && U32Value(s, key).value == Wrap(Number(Lookup(ms, key).value.text, 0))
    ensures Lookup(ms, key).Some? && Lookup(ms, key).value.Plain? && AllDigits(Lookup(ms, key).value.text) ==>
              var n := Number(Lookup(ms, key).value.text, 0);
              && (U32Value(s, key).Some? <==> NeverShrinks(Lookup(ms, key).value.text))
              && (n < 0x1_0000_0000 <==> U32Value(s, key).Some? && U32Value(s, key).value == n)
  {
    hide Number, NeverShrinks, ReadDigits;
    var _, follow := FindsDirectMember(s, blank, ms, key);
    if Lookup(ms, key).Some? {
      var v := Lookup(ms, key).value;
      var _ := ValueFollows(ms, key, "");
      PrintHead(v, follow);
      FollowStart(follow);
      if v.Plain? {
        PlainNumber(v.text, follow);
      } else {
        NoDigits(Print(v, follow));
      }
    }
  }

  lemma NoDigits(s: string)
    requires s != "" && !DigitChar(s[0])
    ensures ReadDigits(s, 0, 0) == Some(Digits(0, 0, s))
  {}

  /** The digit loop on a plain value. */
  lemma PlainNumber(text: string, follow: string)
    requires text != "" && (forall i :: 0 <= i < |text| ==> PlainChar(text[i])) && NotDigitFirst(follow)
    ensures var r := ReadDigits(text + follow, 0, 0);
            && (!AllDigits(text) ==> r.None? || !Delimited(r.value.behind, ",}"))
            && (AllDigits(text) ==>
                  && (r.Some? <==> NeverShrinks(text))
                  && (r.Some? ==> r.value.behind == follow && r.value.count == |text| && r.value.value == Wrap(Number(text, 0)))
                  && (Number(text, 0) < 0x1_0000_0000 ==> r.Some? && r.value.value == Number(text, 0)))
  {
    hide Number, NeverShrinks, ReadDigits, Delimited;
    assert Wrap(0) == 0;
    if !AllDigits(text) {
      DigitsStop(text, follow, 0, 0);
    } else {
      DigitsAcceptedWhole(text, follow);
      if ReadDigits(text + follow, 0, 0).Some? {
        DigitsModulo(text, follow, 0, 0);
      }
      if Number(text, 0) < 0x1_0000_0000 {
        DigitsPrefix(text, follow, 0, 0);
        DigitsEnd(follow, Number(text, 0), |text|);
      }
    }
  }

  lemma DigitsEnd(s: string, value: u32, count: nat)
    requires NotDigitFirst(s)
    ensures ReadDigits(s, value, count) == Some(Digits(value, count, s))
  {}

  lemma FollowStart(follow: string)
    requires Follows(follow)
    ensures NotDigitFirst(follow) && Delimited(follow, ",}") && Delimited(follow, ",}]")
  {
    if follow != "" && !Blank(follow[0]) {
      assert SkipBlank(follow) == follow;
    }
  }

  lemma {:induction false} NumberConcat(a: string, b: string, value: nat)
    requires AllDigits(a) && AllDigits(b)
    ensures AllDigits(a + b) && Number(a + b, value) == Number(b, Number(a, value))
    decreases |a|
  {
    if a == "" {
      assert a + b == b;
    } else {
      assert (a + b)[1..] == a[1..] + b;
      NumberConcat(a[1..], b, value * 10 + DigitValue(a[0]));
    }
  }

  lemma ThreeZeros(value: nat)
    ensures AllDigits("000") && Number("000", value) == 1000 * value
  {
    var t := "000";
    assert t[1..] == "00" && t[1..][1..] == "0" && t[1..][1..][1..] == "";
    assert Number("0", value * 100) == Number("", value * 1000);
    assert Number("00", value * 10) == Number("0", value * 100);
  }

  lemma FiveHundred()
    ensures AllDigits("500") && Number("500", 0) == 500
  {
    assert "500"[1..] == "00" && "00"[1..] == "0" && "0"[1..] == "";
    assert Number("00", 5) == Number("0", 50) == Number("", 500);
  }

  lemma FiveHundredMillion()
    ensures AllDigits("500000000") && Number("500000000", 0) == 500000000
  {
    hide Number, AllDigits;
    FiveHundred();
    ThreeZeros(500);
    ThreeZeros(500000);
    NumberConcat("500", "000", 0);
    NumberConcat("500" + "000", "000", 0);
    assert "500000000" == "500" + "000" + "000";
  }

  lemma LastZero(value: u32, follow: string)
    requires value == 500000000 && NotDigitFirst(follow)
    ensures AllDigits("0") && Number("0", value) == 5000000000
    ensures ReadDigits("0" + follow, value, 9) == Some(Digits(705032704, 10, follow))
  {
    assert ("0" + follow)[1..] == follow && "0"[1..] == "";
    assert Wrap(5000000000) == 705032704;
  }

  lemma FiveThousandMillion(follow: string)
    requires NotDigitFirst(follow)
    ensures AllDigits("5000000000") && Number("5000000000", 0) == 5000000000
    ensures ReadDigits("5000000000" + follow, 0, 0) == Some(Digits(705032704, 10, follow))
  {
    hide Number, ReadDigits;
    FiveHundredMillion();
    LastZero(500000000, follow);
    NumberConcat("500000000", "0", 0);
    assert "5000000000" == "500000000" + "0";
    DigitsPrefix("500000000", "0" + follow, 0, 0);
    assert "5000000000" + follow == "500000000" + ("0" + follow);
  }

  /** A number of 2^32 or more can be accepted with another value. */
  lemma NumberReadWraps()
    ensures AllDigits("5000000000") && Number("5000000000", 0) == 5000000000
    ensures U32Value("{\"n\":5000000000}", "n") == Some(705032704)
  {
    hide Number, ReadDigits, FindValue;
    var m := Member("", "n", "", "", Plain("5000000000"), "");
    var ms := Members(m, NoMembers);
    FiveThousandMillion("");
    OneMember(m, "{\"n\":5000000000}");
    var _, follow := FindsDirectMember("{\"n\":5000000000}", "", ms, "n");
    FollowStart(follow);
    FiveThousandMillion(follow);
  }

  lemma OneMember(m: Member, s: string)
    requires m == Member("", "n", "", "", Plain("5000000000"), "") && s == "{\"n\":5000000000}"
    requires AllDigits("5000000000")
    ensures Presents(s, "", Members(m, NoMembers)) && PlainKey("n")
    ensures Lookup(Members(m, NoMembers), "n") == Some(Plain("5000000000"))
  {
    var ms := Members(m, NoMembers);
    DigitsArePlain("5000000000");
    KeyIsPlain();
    hide AllDigits;
    assert Print(m.value, m.after + BeforeMembers(NoMembers, "}" + "")) == "5000000000" + "}";
    assert PrintMembers(ms, "}" + "") == "\"n\":" + ("5000000000" + "}");
    assert s == "" + Print(Object("", ms), "");
    assert Wraps(s, "", "", "", ms);
  }

  lemma KeyIsPlain()
    ensures StringBody("n") && PlainKey("n")
  {
    assert "n"[1..] == "";
  }

  lemma DigitsArePlain(text: string)
    requires AllDigits(text)
    ensures forall i :: 0 <= i < |text| ==> PlainChar(text[i])
  {}

  // ----- flags and lists

  /** json_true_value holds exactly for a direct member whose value is the literal true. */
  lemma TrueRead(s: string, blank: string, ms: Members, key: string)
    requires Presents(s, blank, ms) && PlainKey(key)
    ensures TrueValue(s, key) <==> Lookup(ms, key) == Some(Plain("true"))
  {
    var _, follow := FindsDirectMember(s, blank, ms, key);
    if Lookup(ms, key).Some? {
      var v := Lookup(ms, key).value;
      var _ := ValueFollows(ms, key, "");
      PrintHead(v, follow);
      FollowStart(follow);
      var value := Print(v, follow);
      assert "true" <= value ==> value[0] == 't';
      if v.Plain? {
        PlainIsTrue(v.text, follow);
      }
    }
  }

  lemma PlainIsTrue(text: string, follow: string)
    requires text != "" && (forall i :: 0 <= i < |text| ==> PlainChar(text[i])) && Follows(follow)
    ensures ("true" <= text + follow && Delimited((text + follow)[4..], ",}")) <==> text == "true"
  {
    var s := text + follow;
    FollowStart(follow);
    FollowHead(follow);
    if |text| < 4 && follow != "" {
      assert s[|text|] == follow[0];
    } else if |text| > 4 {
      assert s[4..][0] == text[4];
    } else if |text| == 4 {
      assert s[..4] == text && s[4..] == follow;
    }
  }

  lemma FollowHead(follow: string)
    requires Follows(follow)
    ensures follow == "" || Blank(follow[0]) || follow[0] == ',' || follow[0] == '}'
  {
    if follow != "" && !Blank(follow[0]) {
      assert SkipBlank(follow) == follow;
    }
  }

  /** A list read from the left: strings without escapes and shorter than 48, until the expected one or anything else. */
  predicate ListContains(xs: Items, expected: string)
    decreases xs
  {
    match xs
    case NoItems => false
    case Items(x, others) =>
      x.value.Text? && NoEscape(x.value.body) && |x.value.body| < 48
      && (x.value.body == expected || ListContains(others, expected))
  }

  /** One round of the list loop, at the printed item. */
  lemma ItemScanned(x: Item, behind: string, expected: string)
    requires AllBlank(x.before) && AllBlank(x.after) && WellFormed(x.value)
    requires behind != "" && !Blank(behind[0])
    ensures ScanItems(x.before + Print(x.value, x.after + behind), expected)
       <==> (&& x.value.Text? && NoEscape(x.value.body) && |x.value.body| < 48
             && (x.value.body == expected || (behind[0] == ',' && ScanItems(behind[1..], expected))))
  {
    var t := Print(x.value, x.after + behind);
    SkipBlankText(x.before, t);
    PrintStarts(x.value, x.after + behind);
    PrintHead(x.value, x.after + behind);
    if x.value.Text? {
      assert t[1..] == x.value.body + ("\"" + (x.after + behind));
      ReadBodyText(x.value.body, x.after + behind, "", 48);
      assert "" + x.value.body == x.value.body;
      SkipBlankText(x.after, behind);
      assert SkipBlank(behind) == behind;
    }
  }

  lemma {:induction false} ItemsScanned(blank: string, xs: Items, post: string, expected: string)
    requires AllBlank(blank) && WellFormedItems(xs)
    ensures ScanItems(InnerItems(blank, xs, "]" + post), expected) <==> ListContains(xs, expected)
    decreases xs
  {
    var s := InnerItems(blank, xs, "]" + post);
    match xs {
      case NoItems =>
        SkipBlankText(blank, "]" + post);
      case Items(x, others) =>
        hide ScanItems, ReadBody, Print, WellFormed;
        var behind := BeforeItems(others, "]" + post);
        assert s == PrintItems(xs, "]" + post);
        assert s == x.before + Print(x.value, x.after + behind);
        ItemScanned(x, behind, expected);
        if !others.NoItems? {
          assert behind[1..] == InnerItems(blank, others, "]" + post);
          ItemsScanned(blank, others, post, expected);
        }
    }
  }

  /** json_array_contains_string agrees with the list at the direct member. */
  lemma ArrayRead(s: string, blank: string, ms: Members, key: string, expected: string)
    requires Presents(s, blank, ms) && PlainKey(key)
    ensures ArrayContains(s, key, expected)
       <==> Lookup(ms, key).Some? && Lookup(ms, key).value.Array? && ListContains(Lookup(ms, key).value.items, expected)
  {
    var _, follow := FindsDirectMember(s, blank, ms, key);
    if Lookup(ms, key).Some? {
      var v := Lookup(ms, key).value;
      var _ := ValueFollows(ms, key, "");
      PrintHead(v, follow);
      if v.Array? {
        assert Print(v, follow)[1..] == InnerItems(v.blank, v.items, "]" + follow);
        ItemsScanned(v.blank, v.items, follow, expected);
      }
    }
  }
}
