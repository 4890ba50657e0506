// Member names as RFC 8259 section 7 reads them, and names as json_find_value compares them.
module JsonNames {
  import opened Options
  import opened JsonText
  import opened JsonScan

  function HexValue(c: char): Option<nat> {
    if '0' <= c <= '9' then Some(c as nat - '0' as nat)
    else if 'a' <= c <= 'f' then Some(10 + (c as nat - 'a' as nat))
    else if 'A' <= c <= 'F' then Some(10 + (c as nat - 'A' as nat))
    else None
  }

  /** Four hexadecimal digits. */
  function HexUnit(s: string): Option<nat>
    requires |s| == 4
  {
    var a, b, c, d := HexValue(s[0]), HexValue(s[1]), HexValue(s[2]), HexValue(s[3]);
    if a.Some? && b.Some? && c.Some? && d.Some? then Some(4096 * a.value + 256 * b.value + 16 * c.value + d.value) else None
  }

  /** The two-character escapes. */
  function ShortEscape(c: char): Option<nat> {
    if c == '"' || c == '\\' || c == '/' then Some(c as nat)
    else if c == 'b' then Some(8)
    else if c == 'f' then Some(12)
    else if c == 'n' then Some(10)
    else if c == 'r' then Some(13)
    else if c == 't' then Some(9)
    else None
  }

  function Prepend(unit: Option<nat>, rest: Option<seq<nat>>): Option<seq<nat>> {
    if unit.Some? && rest.Some? then Some([unit.value] + rest.value) else None
  }

  /** The code units a string body stands for; None for an escape the grammar does not have. */
  function Decoded(body: string): Option<seq<nat>>
    decreases |body|
  {
    if body == "" then Some([])
    else if body[0] != '\\' then Prepend(Some(body[0] as nat), Decoded(body[1..]))
    else if |body| >= 6 && body[1] == 'u' then Prepend(HexUnit(body[2..6]), Decoded(body[6..]))
    else if |body| >= 2 then Prepend(ShortEscape(body[1]), Decoded(body[2..]))
    else None
  }

  function Units(text: string): seq<nat> {
    seq(|text|, i requires 0 <= i < |text| => text[i] as nat)
  }

  /** The body stands for this name, however it is spelled. */
  predicate StandsFor(body: string, key: string) {
    Decoded(body) == Some(Units(key))
  }

  predicate NoBackslash(body: string) {
    forall i :: 0 <= i < |body| ==> body[i] != '\\'
  }

  /** Without a backslash a body stands for itself. */
  lemma {:induction false} PlainStandsForItself(body: string)
    requires NoBackslash(body)
    ensures Decoded(body) == Some(Units(body))
    decreases |body|
  {
    if body != "" {
      PlainStandsForItself(body[1..]);
      assert [body[0] as nat] + Units(body[1..]) == Units(body);
    }
  }

  lemma UnitsInjective(a: string, b: string)
    requires Units(a) == Units(b)
    ensures a == b
  {
    assert |a| == |Units(a)| == |b|;
    forall i | 0 <= i < |a|
      ensures a[i] == b[i]
    {
      assert Units(a)[i] == Units(b)[i];
    }
  }

  /** A body without a backslash stands for a key only by being it. */
  lemma PlainSpelling(body: string, key: string)
    ensures NoBackslash(body) && StandsFor(body, key) ==> body == key
    ensures PlainKey(key) ==> StandsFor(key, key)
  {
    if NoBackslash(body) && StandsFor(body, key) {
      PlainStandsForItself(body);
      UnitsInjective(body, key);
    }
    if PlainKey(key) {
      PlainStandsForItself(key);
    }
  }

  function Length(ms: Members): nat {
    if ms.NoMembers? then 0 else 1 + Length(ms.others)
  }

  function NameAt(ms: Members, k: nat): string
    requires k < Length(ms)
    decreases ms
  {
    if k == 0 then ms.first.key else NameAt(ms.others, k - 1)
  }

  /** The text from the value of member k on. */
  function TextAt(ms: Members, k: nat, post: string): string
    requires k < Length(ms)
    decreases ms
  {
    if k == 0 then Print(ms.first.value, ms.first.after + BeforeMembers(ms.others, post)) else TextAt(ms.others, k - 1, post)
  }

  /** The place of the first member spelled exactly like the key; the number of members when there is none. */
  function PlaceSpelled(ms: Members, key: string): (k: nat)
    ensures k <= Length(ms)
    decreases ms
  {
    if ms.NoMembers? || ms.first.key == key then 0 else 1 + PlaceSpelled(ms.others, key)
  }

  /** The place of the first member whose name is the key under the escape rules. */
  function PlaceNamed(ms: Members, key: string): (k: nat)
    ensures k <= Length(ms)
    decreases ms
  {
    if ms.NoMembers? || StandsFor(ms.first.key, key) then 0 else 1 + PlaceNamed(ms.others, key)
  }

  lemma {:induction false} SpelledFacts(ms: Members, key: string)
    ensures var k := PlaceSpelled(ms, key);
            && (k < Length(ms) <==> Lookup(ms, key).Some?)
            && (k < Length(ms) ==> NameAt(ms, k) == key)
            && (forall j :: 0 <= j < k ==> NameAt(ms, j) != key)
    decreases ms
  {
    if ms.Members? {
      SpelledFacts(ms.others, key);
      assert forall j :: 0 < j < Length(ms) ==> NameAt(ms, j) == NameAt(ms.others, j - 1);
    }
  }

  lemma {:induction false} NamedFacts(ms: Members, key: string)
    ensures var k := PlaceNamed(ms, key);
            && (k < Length(ms) ==> StandsFor(NameAt(ms, k), key))
            && (forall j :: 0 <= j < k ==> !StandsFor(NameAt(ms, j), key))
    decreases ms
  {
    hide StandsFor;
    if ms.Members? {
      NamedFacts(ms.others, key);
      assert forall j :: 0 < j < Length(ms) ==> NameAt(ms, j) == NameAt(ms.others, j - 1);
    }
  }

  lemma {:induction false} TextAtSpelled(ms: Members, key: string, post: string)
    requires Lookup(ms, key).Some?
    ensures PlaceSpelled(ms, key) < Length(ms)
    ensures ValueText(ms, key, post) == TextAt(ms, PlaceSpelled(ms, key), post)
    decreases ms
  {
    if ms.first.key != key {
      TextAtSpelled(ms.others, key, post);
    }
  }

  /** Later members have shorter texts behind them, so a text tells its member. */
  lemma {:induction false} TextsShrink(ms: Members, j: nat, k: nat, post: string)
    requires j < k < Length(ms)
    ensures |TextAt(ms, k, post)| < |TextAt(ms, j, post)|
    decreases ms
  {
    if j > 0 {
      TextsShrink(ms.others, j - 1, k - 1, post);
    } else {
      PrintLonger(ms.first.value, ms.first.after + BeforeMembers(ms.others, post));
      TextInMembers(ms.others, k - 1, post);
    }
  }

  lemma PrintLonger(v: Value, post: string)
    ensures |Print(v, post)| >= |post|
  {
    PrintThen(v, post);
  }

  lemma {:induction false} TextInMembers(ms: Members, k: nat, post: string)
    requires k < Length(ms)
    ensures |TextAt(ms, k, post)| <= |PrintMembers(ms, post)|
    decreases ms
  {
    if k > 0 {
      TextInMembers(ms.others, k - 1, post);
      PrintLonger(ms.first.value, ms.first.after + BeforeMembers(ms.others, post));
    }
  }

  /** Where a look-up by name lands: the text of the first direct member of that name. */
  function NamedText(ms: Members, key: string, post: string): Option<string> {
    if PlaceNamed(ms, key) < Length(ms) then Some(TextAt(ms, PlaceNamed(ms, key), post)) else None
  }

  /** Some direct member spells the key with an escape in front of the first that spells it plainly. */
  predicate EscapedBefore(ms: Members, key: string) {
    exists k :: 0 <= k < PlaceSpelled(ms, key) && StandsFor(NameAt(ms, k), key)
  }

  lemma PlacesAgree(ms: Members, key: string)
    requires PlainKey(key)
    ensures PlaceNamed(ms, key) == PlaceSpelled(ms, key) <==> !EscapedBefore(ms, key)
    ensures PlaceNamed(ms, key) <= PlaceSpelled(ms, key)
  {
    hide StandsFor;
    SpelledFacts(ms, key);
    NamedFacts(ms, key);
    PlainSpelling(key, key);
    var named, spelled := PlaceNamed(ms, key), PlaceSpelled(ms, key);
    if named < spelled {
      assert StandsFor(NameAt(ms, named), key);
    }
  }

  /** json_find_value compares names as they are spelled. It lands where a look-up by name under the escape rules does,
      or fails with it, exactly when no direct member in front of the plainly spelled one spells the key with an escape. */
  lemma FindsByName(s: string, blank: string, ms: Members, key: string) returns (post: string)
    requires Presents(s, blank, ms) && PlainKey(key)
    ensures |Inner(blank, ms, post)| <= |s| && s[|s| - |Inner(blank, ms, post)|..] == Inner(blank, ms, post)
    ensures FindValue(s, key) == NamedText(ms, key, post) <==> !EscapedBefore(ms, key)
  {
    hide FindValue, EscapedBefore, PlaceNamed, PlaceSpelled, TextAt, Inner, ValueText, StandsFor;
    var follow;
    post, follow := FindsDirectMember(s, blank, ms, key);
    PlacesAgree(ms, key);
    SpelledFacts(ms, key);
    if Lookup(ms, key).Some? {
      TextAtSpelled(ms, key, post);
      if PlaceNamed(ms, key) < PlaceSpelled(ms, key) {
        TextsShrink(ms, PlaceNamed(ms, key), PlaceSpelled(ms, key), post);
      }
    }
  }

  /** Every member that spells the key otherwise than plainly has a backslash in its name. */
  lemma EscapesHaveBackslashes(ms: Members, key: string, k: nat)
    requires k < Length(ms) && StandsFor(NameAt(ms, k), key) && NameAt(ms, k) != key
    ensures !NoBackslash(NameAt(ms, k))
  {
    hide StandsFor;
    PlainSpelling(NameAt(ms, k), key);
  }

  /** An object with one member, as text. */
  function OneMember(body: string): string {
    "{" + Quoted(body, ":1}")
  }

  /** Whatever key is spelled with an escape in the only member, json_find_value misses it. */
  lemma EscapedNameIsMissed(body: string, key: string)
    requires StringBody(body) && PlainKey(key) && StandsFor(body, key) && body != key
    ensures FindValue(OneMember(body), key) == None
    ensures NamedText(Members(Member("", body, "", "", Plain("1"), ""), NoMembers), key, "}").Some?
  {
    hide StandsFor, FindValue, StringBody, PlainKey;
    var m := Member("", body, "", "", Plain("1"), "");
    var ms := Members(m, NoMembers);
    OneMemberPresents(m);
    var _, _ := FindsDirectMember(OneMember(body), "", ms, key);
  }

  lemma OneMemberPresents(m: Member)
    requires m == Member("", m.key, "", "", Plain("1"), "") && StringBody(m.key)
    ensures Presents(OneMember(m.key), "", Members(m, NoMembers))
  {
    hide StringBody, Quoted;
    var ms := Members(m, NoMembers);
    assert "" + (":" + ("" + "1}")) == ":1}";
    assert Print(m.value, m.after + BeforeMembers(NoMembers, "}" + "")) == "1}";
    assert PrintMembers(ms, "}" + "") == Quoted(m.key, ":1}");
    assert OneMember(m.key) == "" + Print(Object("", ms), "");
    assert Wraps(OneMember(m.key), "", "", "", ms);
    assert WellFormed(m.value) && AllBlank("");
    assert WellFormedMembers(NoMembers);
  }

  /** Such spellings exist: \u0073ha256 stands for sha256. */
  lemma EscapedSpelling()
    ensures StandsFor("\\u0073ha256", "sha256") && StringBody("\\u0073ha256") && PlainKey("sha256")
    ensures "\\u0073ha256" != "sha256"
  {
    EscapedUnits();
    EscapedBody();
    PlainShaKey();
    hide StandsFor, StringBody, PlainKey;
    assert "\\u0073ha256"[0] == '\\';
  }

  lemma EscapedBody()
    ensures StringBody("\\u0073ha256")
  {
    PlainBody("0073ha256");
    var body := "\\u0073ha256";
    assert body[2..] == "0073ha256";
  }

  lemma PlainShaKey()
    ensures PlainKey("sha256")
  {}

  lemma EscapedUnits()
    ensures StandsFor("\\u0073ha256", "sha256")
  {
    var body := "\\u0073ha256";
    assert body[2..6] == "0073" && body[6..] == "ha256";
    assert HexUnit("0073") == Some(0x73);
    PlainStandsForItself("ha256");
    hide HexUnit, Decoded, NoBackslash;
    assert [0x73] + Units("ha256") == Units("sha256");
    Unfolded(body, "0073", "ha256");
  }

  lemma Unfolded(body: string, hex: string, rest: string)
    requires |body| >= 6 && body[0] == '\\' && body[1] == 'u' && body[2..6] == hex && body[6..] == rest
    ensures Decoded(body) == Prepend(HexUnit(hex), Decoded(rest))
  {}

  lemma {:induction false} PlainBody(s: string)
    requires forall i :: 0 <= i < |s| ==> s[i] != '\\' && s[i] != '"'
    ensures StringBody(s)
    decreases |s|
  {
    if s != "" {
      PlainBody(s[1..]);
    }
  }
}
