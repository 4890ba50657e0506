// The depth-scoped JSON look-up of payloads/uart-firmware-recovery/recovery.c: json_find_value and its callers.
module JsonScan {
  import opened Options
  import opened JsonText

  // ----- the scanner, on the rest of the text

  function SkipBlank(s: string): (r: string)
    ensures |r| <= |s|
  {
    if s != "" && Blank(s[0]) then SkipBlank(s[1..]) else s
  }

  /** The text behind the string we are inside of; nothing when the string is never closed. */
  function AfterString(s: string, escaped: bool): (r: string)
    ensures |r| <= |s|
    decreases |s|
  {
    if s == "" then ""
    else if escaped then AfterString(s[1..], false)
    else if s[0] == '\\' then AfterString(s[1..], true)
    else if s[0] == '"' then s[1..]
    else AfterString(s[1..], false)
  }

  /** s starts with the key, its closing quote, and a colon: the text of the value. */
  function KeyHere(s: string, key: string): Option<string> {
    if |s| > |key| && s[..|key|] == key && s[|key|] == '"' then
      var colon := SkipBlank(s[|key| + 1..]);
      if colon != "" && colon[0] == ':' then Some(SkipBlank(colon[1..])) else None
    else None
  }

  /** The main loop of json_find_value outside strings, with its two depth counters. */
  function Find(s: string, key: string, objects: nat, arrays: nat, direct: nat): Option<string>
    decreases |s|
  {
    if s == "" then None
    else if s[0] == '{' then Find(s[1..], key, objects + 1, arrays, direct)
    else if s[0] == '}' then Find(s[1..], key, if objects != 0 then objects - 1 else 0, arrays, direct)
    else if s[0] == '[' then Find(s[1..], key, objects, arrays + 1, direct)
    else if s[0] == ']' then Find(s[1..], key, objects, if arrays != 0 then arrays - 1 else 0, direct)
    else if s[0] != '"' then Find(s[1..], key, objects, arrays, direct)
    else if objects != direct || arrays != 0 then Find(AfterString(s[1..], false), key, objects, arrays, direct)
    else match KeyHere(s[1..], key)
      case Some(value) => if value == "" then None else Some(value)
      case None => Find(AfterString(s[1..], false), key, objects, arrays, direct)
  }

  function DirectDepth(s: string): nat {
    var t := SkipBlank(s);
    if t != "" && t[0] == '{' then 1 else 0
  }

  function FindValue(s: string, key: string): Option<string> {
    Find(s, key, 0, 0, DirectDepth(s))
  }

  /** The loop of json_object_value: the text from the brace that closes `depth` open ones. */
  function ToClose(s: string, depth: nat): (r: Option<string>)
    ensures r.Some? ==> |r.value| <= |s|
    decreases |s|
  {
    if s == "" then None
    else if s[0] == '"' then ToClose(AfterString(s[1..], false), depth)
    else if s[0] == '{' then ToClose(s[1..], depth + 1)
    else if s[0] == '}' then
      if depth == 0 then None
      else if depth == 1 then Some(s)
      else ToClose(s[1..], depth - 1)
    else ToClose(s[1..], depth)
  }

  function ObjectValue(s: string, key: string): Option<string> {
    match FindValue(s, key)
    case None => None
    case Some(value) => BetweenBraces(value)
  }

  function BetweenBraces(value: string): Option<string> {
    if value == "" || value[0] != '{' then None
    else match ToClose(value, 0)
      case None => None
      case Some(close) => if close == value then None else Some(value[1..|value| - |close|])
  }

  // ----- how the scanner crosses printed text

  lemma {:induction false} SkipBlankText(w: string, post: string)
    requires AllBlank(w)
    ensures SkipBlank(w + post) == SkipBlank(post)
    decreases |w|
  {
    if w == "" {
      assert w + post == post;
    } else {
      assert (w + post)[1..] == w[1..] + post;
      SkipBlankText(w[1..], post);
    }
  }

  lemma {:induction false} AfterBody(body: string, post: string)
    requires StringBody(body)
    ensures AfterString(body + ("\"" + post), false) == post
    decreases |body|
  {
    var s := body + ("\"" + post);
    if body == "" {
      assert s == "\"" + post;
    } else if body[0] == '\\' {
      assert s[1..] == body[1..] + ("\"" + post) && s[1..][1..] == body[2..] + ("\"" + post);
      AfterBody(body[2..], post);
    } else {
      assert s[1..] == body[1..] + ("\"" + post);
      AfterBody(body[1..], post);
    }
  }

  lemma {:induction false} FindCrossesBlank(w: string, post: string, key: string, objects: nat, arrays: nat, direct: nat)
    requires forall i :: 0 <= i < |w| ==> Blank(w[i]) || PlainChar(w[i]) || w[i] == ':' || w[i] == ','
    ensures Find(w + post, key, objects, arrays, direct) == Find(post, key, objects, arrays, direct)
    decreases |w|
  {
    if w == "" {
      assert w + post == post;
    } else {
      assert (w + post)[1..] == w[1..] + post;
      FindCrossesBlank(w[1..], post, key, objects, arrays, direct);
    }
  }

  /** Inside anything nested, no string is compared with the key. */
  predicate Nested(objects: nat, arrays: nat, direct: nat) {
    objects > direct || (objects == direct && arrays > 0)
  }

  lemma NestedString(body: string, post: string, key: string, objects: nat, arrays: nat, direct: nat)
    requires StringBody(body) && Nested(objects, arrays, direct)
    ensures Find(Quoted(body, post), key, objects, arrays, direct) == Find(post, key, objects, arrays, direct)
  {
    AfterBody(body, post);
    assert Quoted(body, post)[1..] == body + ("\"" + post);
  }

  lemma {:induction false} NestedValue(v: Value, post: string, key: string, objects: nat, arrays: nat, direct: nat)
    requires WellFormed(v) && Nested(objects, arrays, direct)
    ensures Find(Print(v, post), key, objects, arrays, direct) == Find(post, key, objects, arrays, direct)
    decreases v, 0
  {
    match v {
      case Object(blank, members) =>
        Opening(v, post, key, objects, arrays, direct);
        NestedInner(blank, members, "}" + post, key, objects + 1, arrays, direct);
        assert ("}" + post)[1..] == post;
      case Array(blank, items) =>
        Opening(v, post, key, objects, arrays, direct);
        NestedItems(blank, items, "]" + post, key, objects, arrays + 1, direct);
        assert ("]" + post)[1..] == post;
      case Text(body) =>
        NestedString(body, post, key, objects, arrays, direct);
      case Plain(text) =>
        FindCrossesBlank(text, post, key, objects, arrays, direct);
    }
  }

  /** The first step into an object or an array. */
  lemma Opening(v: Value, post: string, key: string, objects: nat, arrays: nat, direct: nat)
    requires v.Object? || v.Array?
    ensures Find(Print(v, post), key, objects, arrays, direct)
         == if v.Object? then Find(Inner(v.blank, v.members, "}" + post), key, objects + 1, arrays, direct)
            else Find(InnerItems(v.blank, v.items, "]" + post), key, objects, arrays + 1, direct)
  {
    var s := Print(v, post);
    if v.Object? {
      assert s[0] == '{' && s[1..] == Inner(v.blank, v.members, "}" + post);
    } else {
      assert s[0] == '[';
      assert s[1..] == InnerItems(v.blank, v.items, "]" + post);
    }
  }

  lemma {:induction false} NestedInner(blank: string, ms: Members, post: string, key: string, objects: nat, arrays: nat, direct: nat)
    requires AllBlank(blank) && WellFormedMembers(ms) && Nested(objects, arrays, direct)
    ensures Find(Inner(blank, ms, post), key, objects, arrays, direct) == Find(post, key, objects, arrays, direct)
    decreases ms, 1
  {
    if ms.NoMembers? {
      FindCrossesBlank(blank, post, key, objects, arrays, direct);
    } else {
      NestedMembers(ms, post, key, objects, arrays, direct);
    }
  }

  lemma {:induction false} NestedMembers(ms: Members, post: string, key: string, objects: nat, arrays: nat, direct: nat)
    requires WellFormedMembers(ms) && Nested(objects, arrays, direct)
    ensures Find(PrintMembers(ms, post), key, objects, arrays, direct) == Find(post, key, objects, arrays, direct)
    decreases ms, 0
  {
    match ms {
      case NoMembers =>
      case Members(m, others) =>
        var behind := BeforeMembers(others, post);
        var value := Print(m.value, m.after + behind);
        var colon := ":" + (m.beforeValue + value);
        FindCrossesBlank(m.before, Quoted(m.key, m.afterKey + colon), key, objects, arrays, direct);
        NestedString(m.key, m.afterKey + colon, key, objects, arrays, direct);
        FindCrossesBlank(m.afterKey, colon, key, objects, arrays, direct);
        FindCrossesBlank(":", m.beforeValue + value, key, objects, arrays, direct);
        FindCrossesBlank(m.beforeValue, value, key, objects, arrays, direct);
        NestedValue(m.value, m.after + behind, key, objects, arrays, direct);
        FindCrossesBlank(m.after, behind, key, objects, arrays, direct);
        if !others.NoMembers? {
          FindCrossesBlank(",", PrintMembers(others, post), key, objects, arrays, direct);
          NestedMembers(others, post, key, objects, arrays, direct);
        }
    }
  }

  lemma {:induction false} NestedItems(blank: string, xs: Items, post: string, key: string, objects: nat, arrays: nat, direct: nat)
    requires AllBlank(blank) && WellFormedItems(xs) && Nested(objects, arrays, direct)
    ensures Find(InnerItems(blank, xs, post), key, objects, arrays, direct) == Find(post, key, objects, arrays, direct)
    decreases xs, 0
  {
    match xs {
      case NoItems =>
        FindCrossesBlank(blank, post, key, objects, arrays, direct);
      case Items(x, others) =>
        var behind := BeforeItems(others, post);
        FindCrossesBlank(x.before, Print(x.value, x.after + behind), key, objects, arrays, direct);
        NestedValue(x.value, x.after + behind, key, objects, arrays, direct);
        FindCrossesBlank(x.after, behind, key, objects, arrays, direct);
        if !others.NoItems? {
          FindCrossesBlank(",", PrintItems(others, post), key, objects, arrays, direct);
          NestedItems(blank, others, post, key, objects, arrays, direct);
        }
    }
  }

  // ----- at the direct depth

  /** A key that needs no escapes: free of quotes and backslashes. */
  predicate PlainKey(key: string) {
    forall i :: 0 <= i < |key| ==> key[i] != '"' && key[i] != '\\'
  }

  /** A quoted text starts with a plain key and a quote exactly when it is that key. */
  lemma {:induction false} KeyIsBody(body: string, key: string, post: string)
    requires StringBody(body) && PlainKey(key)
    ensures var s := body + ("\"" + post);
            (|s| > |key| && s[..|key|] == key && s[|key|] == '"') <==> body == key
    decreases |body|
  {
    var s := body + ("\"" + post);
    assert key != "" && |s| > |key| ==> s[..|key|][0] == s[0];
    if body == "" || key == "" {
    } else if body[0] != '\\' {
      assert s[1..] == body[1..] + ("\"" + post);
      KeyIsBody(body[1..], key[1..], post);
      assert key == [key[0]] + key[1..] && body == [body[0]] + body[1..];
      if |s| > |key| {
        assert s[..|key|] == [s[0]] + s[1..][..|key| - 1];
      }
    }
  }

  /** The text does not go on with a colon. */
  predicate NoColon(post: string) {
    SkipBlank(post) == "" || SkipBlank(post)[0] != ':'
  }

  /** A value at the direct depth is crossed too, whatever is nested in it and even when it is the key's own text. */
  lemma DirectValue(v: Value, post: string, key: string, direct: nat)
    requires WellFormed(v) && PlainKey(key) && NoColon(post)
    ensures Find(Print(v, post), key, direct, 0, direct) == Find(post, key, direct, 0, direct)
  {
    match v {
      case Object(blank, members) =>
        Opening(v, post, key, direct, 0, direct);
        NestedInner(blank, members, "}" + post, key, direct + 1, 0, direct);
        assert ("}" + post)[1..] == post;
      case Array(blank, items) =>
        Opening(v, post, key, direct, 0, direct);
        NestedItems(blank, items, "]" + post, key, direct, 1, direct);
        assert ("]" + post)[1..] == post;
      case Text(body) =>
        var s := body + ("\"" + post);
        assert Quoted(body, post)[1..] == s;
        AfterBody(body, post);
        KeyIsBody(body, key, post);
        if body == key {
          assert s[|key| + 1..] == post;
        }
      case Plain(text) =>
        FindCrossesBlank(text, post, key, direct, 0, direct);
    }
  }

  /** The text that starts with the value of the first member called key. */
  function ValueText(ms: Members, key: string, post: string): string
    requires Lookup(ms, key).Some?
    decreases ms
  {
    if ms.first.key == key then Print(ms.first.value, ms.first.after + BeforeMembers(ms.others, post))
    else ValueText(ms.others, key, post)
  }

  lemma PrintStarts(v: Value, post: string)
    requires WellFormed(v)
    ensures Print(v, post) != "" && !Blank(Print(v, post)[0]) && Print(v, post)[0] != ':'
    ensures SkipBlank(Print(v, post)) == Print(v, post)
  {
    match v {
      case Object(_, _) =>
      case Array(_, _) =>
      case Text(_) =>
      case Plain(text) => assert Print(v, post)[0] == text[0];
    }
  }

  lemma DirectKey(m: Member, behind: string, key: string, direct: nat)
    requires StringBody(m.key) && AllBlank(m.afterKey) && AllBlank(m.beforeValue) && WellFormed(m.value) && PlainKey(key)
    ensures Find(Quoted(m.key, m.afterKey + (":" + (m.beforeValue + Print(m.value, behind)))), key, direct, 0, direct)
         == if m.key == key then Some(Print(m.value, behind))
            else Find(m.afterKey + (":" + (m.beforeValue + Print(m.value, behind))), key, direct, 0, direct)
  {
    var value := Print(m.value, behind);
    var colon := ":" + (m.beforeValue + value);
    var s := m.key + ("\"" + (m.afterKey + colon));
    assert Quoted(m.key, m.afterKey + colon)[1..] == s;
    AfterBody(m.key, m.afterKey + colon);
    KeyIsBody(m.key, key, m.afterKey + colon);
    if m.key == key {
      assert s[|key| + 1..] == m.afterKey + colon;
      SkipBlankText(m.afterKey, colon);
      assert colon[1..] == m.beforeValue + value;
      SkipBlankText(m.beforeValue, value);
      PrintStarts(m.value, behind);
    }
  }

  /** Scanning an object's members at the direct depth finds the first one called key, or goes on behind them. */
  lemma {:induction false} DirectMembers(ms: Members, post: string, key: string, direct: nat)
    requires WellFormedMembers(ms) && PlainKey(key) && NoColon(post)
    ensures Find(PrintMembers(ms, post), key, direct, 0, direct)
         == if Lookup(ms, key).Some? then Some(ValueText(ms, key, post)) else Find(post, key, direct, 0, direct)
    decreases ms
  {
    match ms {
      case NoMembers =>
      case Members(m, others) =>
        var behind := BeforeMembers(others, post);
        var value := Print(m.value, m.after + behind);
        var colon := ":" + (m.beforeValue + value);
        FindCrossesBlank(m.before, Quoted(m.key, m.afterKey + colon), key, direct, 0, direct);
        DirectKey(m, m.after + behind, key, direct);
        if m.key != key {
          FindCrossesBlank(m.afterKey, colon, key, direct, 0, direct);
          FindCrossesBlank(":", m.beforeValue + value, key, direct, 0, direct);
          FindCrossesBlank(m.beforeValue, value, key, direct, 0, direct);
          SkipBlankText(m.after, behind);
          DirectValue(m.value, m.after + behind, key, direct);
          FindCrossesBlank(m.after, behind, key, direct, 0, direct);
          if !others.NoMembers? {
            FindCrossesBlank(",", PrintMembers(others, post), key, direct, 0, direct);
            DirectMembers(others, post, key, direct);
          }
        }
    }
  }

  // ----- a text that presents an object: its braces with white space around them, or what is between them

  ghost predicate Presents(s: string, blank: string, ms: Members) {
    && AllBlank(blank) && WellFormedMembers(ms)
    && (s == Inner(blank, ms, "") || exists lead, trail :: Wraps(s, lead, trail, blank, ms))
  }

  predicate Wraps(s: string, lead: string, trail: string, blank: string, ms: Members) {
    AllBlank(lead) && AllBlank(trail) && s == lead + Print(Object(blank, ms), trail)
  }

  lemma InnerDepth(blank: string, ms: Members)
    requires AllBlank(blank) && WellFormedMembers(ms)
    ensures DirectDepth(Inner(blank, ms, "")) == 0
  {
    match ms {
      case NoMembers =>
        SkipBlankText(blank, "");
      case Members(m, others) =>
        SkipBlankText(m.before, Quoted(m.key, m.afterKey + (":" + (m.beforeValue + Print(m.value, m.after + BeforeMembers(others, ""))))));
    }
  }

  lemma FindInInner(blank: string, ms: Members, post: string, key: string, direct: nat)
    requires AllBlank(blank) && WellFormedMembers(ms) && PlainKey(key) && NoColon(post)
    ensures Find(Inner(blank, ms, post), key, direct, 0, direct)
         == if Lookup(ms, key).Some? then Some(ValueText(ms, key, post)) else Find(post, key, direct, 0, direct)
  {
    if ms.NoMembers? {
      FindCrossesBlank(blank, post, key, direct, 0, direct);
    } else {
      DirectMembers(ms, post, key, direct);
    }
  }

  /** The members' text in front of the value of the first one called key. */
  function InFront(ms: Members, key: string): string
    requires Lookup(ms, key).Some?
    decreases ms
  {
    var m := ms.first;
    if m.key == key then m.before + Quoted(m.key, m.afterKey + (":" + m.beforeValue))
    else m.before + Quoted(m.key, m.afterKey + (":" + (m.beforeValue + Print(m.value, m.after + ("," + InFront(ms.others, key))))))
  }

  lemma QuotedThen(body: string, a: string, b: string)
    ensures Quoted(body, a + b) == Quoted(body, a) + b
  {}

  lemma ColonThen(w: string, v: string, a: string, b: string)
    ensures w + (":" + (v + (a + b))) == w + (":" + (v + a)) + b
  {}

  /** The value text stands behind that, and nowhere else: its length fixes its place. */
  lemma {:induction false} ValuePlace(ms: Members, key: string, post: string)
    requires Lookup(ms, key).Some?
    ensures PrintMembers(ms, post) == InFront(ms, key) + ValueText(ms, key, post)
    decreases ms
  {
    var m := ms.first;
    if m.key == key {
      var value := Print(m.value, m.after + BeforeMembers(ms.others, post));
      assert m.afterKey + (":" + (m.beforeValue + value)) == m.afterKey + (":" + m.beforeValue) + value;
      QuotedThen(m.key, m.afterKey + (":" + m.beforeValue), value);
    } else {
      ValuePlace(ms.others, key, post);
      var front, text := InFront(ms.others, key), ValueText(ms.others, key, post);
      hide InFront, ValueText, Print, PrintMembers, Quoted;
      var w := m.after + ("," + front);
      assert m.after + ("," + (front + text)) == w + text;
      PrintThen(m.value, w + text);
      PrintThen(m.value, w);
      assert Print(m.value, w + text) == Print(m.value, w) + text;
      ColonThen(m.afterKey, m.beforeValue, Print(m.value, w), text);
      QuotedThen(m.key, m.afterKey + (":" + (m.beforeValue + Print(m.value, w))), text);
      ElsewhereFront(ms, key, post);
    }
  }

  lemma ElsewhereFront(ms: Members, key: string, post: string)
    requires Lookup(ms, key).Some? && ms.first.key != key
    ensures var m := ms.first;
            && InFront(ms, key) == m.before + Quoted(m.key, m.afterKey + (":" + (m.beforeValue + Print(m.value, m.after + ("," + InFront(ms.others, key))))))
            && ValueText(ms, key, post) == ValueText(ms.others, key, post)
            && PrintMembers(ms, post)
               == m.before + Quoted(m.key, m.afterKey + (":" + (m.beforeValue + Print(m.value, m.after + ("," + PrintMembers(ms.others, post))))))
  {}

  /** json_find_value lands on the value of the first direct member with the key, at its own place in the text and
      on no other occurrence, and fails when there is none. `post` is what stands behind the members. */
  lemma FindsDirectMember(s: string, blank: string, ms: Members, key: string) returns (post: string, follow: string)
    requires Presents(s, blank, ms) && PlainKey(key)
    ensures |Inner(blank, ms, post)| <= |s| && s[|s| - |Inner(blank, ms, post)|..] == Inner(blank, ms, post)
    ensures FindValue(s, key) == if Lookup(ms, key).Some? then Some(ValueText(ms, key, post)) else None
    ensures Lookup(ms, key).Some? ==>
              && Inner(blank, ms, post) == InFront(ms, key) + ValueText(ms, key, post)
              && ValueText(ms, key, post) == Print(Lookup(ms, key).value, follow)
    ensures Follows(follow)
  {
    post, follow := "", "";
    if s == Inner(blank, ms, "") {
      InnerDepth(blank, ms);
      FindInInner(blank, ms, "", key, 0);
    } else {
      var lead, trail :| Wraps(s, lead, trail, blank, ms);
      post := "}" + trail;
      FindsWrapped(s, lead, trail, blank, ms, key);
    }
    if Lookup(ms, key).Some? {
      follow := ValueFollows(ms, key, post);
      ValuePlace(ms, key, post);
    }
  }

  lemma FindsWrapped(s: string, lead: string, trail: string, blank: string, ms: Members, key: string)
    requires AllBlank(blank) && WellFormedMembers(ms) && Wraps(s, lead, trail, blank, ms) && PlainKey(key)
    ensures var post := "}" + trail;
            && |Inner(blank, ms, post)| <= |s| && s[|s| - |Inner(blank, ms, post)|..] == Inner(blank, ms, post)
            && FindValue(s, key) == if Lookup(ms, key).Some? then Some(ValueText(ms, key, post)) else None
  {
    var whole := Object(blank, ms);
    var post := "}" + trail;
    SkipBlankText(lead, Print(whole, trail));
    PrintStarts(whole, trail);
    assert Print(whole, trail)[0] == '{';
    FindCrossesBlank(lead, Print(whole, trail), key, 0, 0, 1);
    Opening(whole, trail, key, 0, 0, 1);
    FindInInner(blank, ms, post, key, 1);
    assert post[1..] == trail;
    assert trail + "" == trail;
    FindCrossesBlank(trail, "", key, 0, 0, 1);
    assert Print(whole, trail) == "{" + Inner(blank, ms, post);
  }

  /** Behind a member's value come white space and then a comma, a closing brace or nothing. */
  predicate Follows(follow: string) {
    var t := SkipBlank(follow);
    t == "" || t[0] == ',' || t[0] == '}'
  }

  lemma {:induction false} ValueFollows(ms: Members, key: string, post: string) returns (follow: string)
    requires WellFormedMembers(ms) && Lookup(ms, key).Some?
    requires post == "" || post[0] == '}'
    ensures ValueText(ms, key, post) == Print(Lookup(ms, key).value, follow) && Follows(follow)
    ensures WellFormed(Lookup(ms, key).value)
    decreases ms
  {
    if ms.first.key == key {
      follow := ms.first.after + BeforeMembers(ms.others, post);
      SkipBlankText(ms.first.after, BeforeMembers(ms.others, post));
    } else {
      follow := ValueFollows(ms.others, key, post);
    }
  }

  // ----- the braces of an object value

  lemma {:induction false} CloseCrosses(w: string, post: string, depth: nat)
    requires forall i :: 0 <= i < |w| ==> Blank(w[i]) || PlainChar(w[i]) || w[i] == ':' || w[i] == ',' || w[i] == '[' || w[i] == ']'
    ensures ToClose(w + post, depth) == ToClose(post, depth)
    decreases |w|
  {
    if w == "" {
      assert w + post == post;
    } else {
      assert (w + post)[1..] == w[1..] + post;
      CloseCrosses(w[1..], post, depth);
    }
  }

  lemma CloseString(body: string, post: string, depth: nat)
    requires StringBody(body)
    ensures ToClose(Quoted(body, post), depth) == ToClose(post, depth)
  {
    AfterBody(body, post);
    assert Quoted(body, post)[1..] == body + ("\"" + post);
  }

  lemma {:induction false} CloseValue(v: Value, post: string, depth: nat)
    requires WellFormed(v) && depth >= 1
    ensures ToClose(Print(v, post), depth) == ToClose(post, depth)
    decreases v, 0
  {
    match v {
      case Object(blank, members) =>
        assert Print(v, post)[1..] == Inner(blank, members, "}" + post);
        CloseInner(blank, members, "}" + post, depth + 1);
        assert ("}" + post)[1..] == post;
      case Array(blank, items) =>
        assert Print(v, post) == "[" + InnerItems(blank, items, "]" + post);
        CloseCrosses("[", InnerItems(blank, items, "]" + post), depth);
        CloseItems(blank, items, "]" + post, depth);
        CloseCrosses("]", post, depth);
      case Text(body) =>
        CloseString(body, post, depth);
      case Plain(text) =>
        CloseCrosses(text, post, depth);
    }
  }

  lemma {:induction false} CloseInner(blank: string, ms: Members, post: string, depth: nat)
    requires AllBlank(blank) && WellFormedMembers(ms) && depth >= 1
    ensures ToClose(Inner(blank, ms, post), depth) == ToClose(post, depth)
    decreases ms, 1
  {
    if ms.NoMembers? {
      CloseCrosses(blank, post, depth);
    } else {
      CloseMembers(ms, post, depth);
    }
  }

  lemma {:induction false} CloseMembers(ms: Members, post: string, depth: nat)
    requires WellFormedMembers(ms) && depth >= 1
    ensures ToClose(PrintMembers(ms, post), depth) == ToClose(post, depth)
    decreases ms, 0
  {
    match ms {
      case NoMembers =>
      case Members(m, others) =>
        var behind := BeforeMembers(others, post);
        var value := Print(m.value, m.after + behind);
        var colon := ":" + (m.beforeValue + value);
        CloseCrosses(m.before, Quoted(m.key, m.afterKey + colon), depth);
        CloseString(m.key, m.afterKey + colon, depth);
        CloseCrosses(m.afterKey, colon, depth);
        CloseCrosses(":", m.beforeValue + value, depth);
        CloseCrosses(m.beforeValue, value, depth);
        CloseValue(m.value, m.after + behind, depth);
        CloseCrosses(m.after, behind, depth);
        if !others.NoMembers? {
          CloseCrosses(",", PrintMembers(others, post), depth);
          CloseMembers(others, post, depth);
        }
    }
  }

  lemma {:induction false} CloseItems(blank: string, xs: Items, post: string, depth: nat)
    requires AllBlank(blank) && WellFormedItems(xs) && depth >= 1
    ensures ToClose(InnerItems(blank, xs, post), depth) == ToClose(post, depth)
    decreases xs, 0
  {
    match xs {
      case NoItems =>
        CloseCrosses(blank, post, depth);
      case Items(x, others) =>
        var behind := BeforeItems(others, post);
        CloseCrosses(x.before, Print(x.value, x.after + behind), depth);
        CloseValue(x.value, x.after + behind, depth);
        CloseCrosses(x.after, behind, depth);
        if !others.NoItems? {
          CloseCrosses(",", PrintItems(others, post), depth);
          CloseItems(blank, others, post, depth);
        }
    }
  }

  lemma InnerThen(blank: string, ms: Members, post: string)
    ensures Inner(blank, ms, post) == Inner(blank, ms, "") + post
  {
    if ms.NoMembers? {
      assert blank + "" == blank;
    } else {
      PrintMembersThen(ms, post);
    }
  }

  lemma BracesOfValue(v: Value, follow: string)
    requires WellFormed(v)
    ensures BetweenBraces(Print(v, follow)) == if v.Object? then Some(Inner(v.blank, v.members, "")) else None
  {
    var value := Print(v, follow);
    if v.Object? {
      var close := "}" + follow;
      var inner := Inner(v.blank, v.members, "");
      assert value[1..] == Inner(v.blank, v.members, close);
      CloseInner(v.blank, v.members, close, 1);
      InnerThen(v.blank, v.members, close);
      assert value == "{" + (inner + close);
      hide Inner, Print;
      assert value[1..|value| - |close|] == inner;
      assert ToClose(close, 1) == Some(close);
    } else {
      PrintStarts(v, follow);
      assert v.Plain? ==> value[0] == v.text[0];
    }
  }

  /** json_object_value returns exactly the text between the braces of the direct member, and only for an object. */
  lemma ObjectValueIsInner(s: string, blank: string, ms: Members, key: string)
    requires Presents(s, blank, ms) && PlainKey(key)
    ensures ObjectValue(s, key)
         == match Lookup(ms, key)
            case None => None
            case Some(v) => if v.Object? then Some(Inner(v.blank, v.members, "")) else None
    ensures Lookup(ms, key).Some? ==> WellFormed(Lookup(ms, key).value)
  {
    var _, follow := FindsDirectMember(s, blank, ms, key);
    if Lookup(ms, key).Some? {
      var _ := ValueFollows(ms, key, "");
      BracesOfValue(Lookup(ms, key).value, follow);
    }
    hide BetweenBraces, FindValue, Inner, Print;
  }

  // ----- chains of look-ups

  /** json_object_value applied along a path. */
  function Chain(s: string, path: seq<string>): Option<string>
    decreases |path|
  {
    if path == [] then Some(s)
    else match ObjectValue(s, path[0])
      case None => None
      case Some(inner) => Chain(inner, path[1..])
  }

  /** The object at a path of the tree. */
  function Descend(v: Value, path: seq<string>): Option<Value>
    requires v.Object?
    decreases |path|
  {
    if path == [] then Some(v)
    else match Lookup(v.members, path[0])
      case None => None
      case Some(w) => if w.Object? then Descend(w, path[1..]) else None
  }

  /** A chain of look-ups presents the object at that path of the tree, and fails exactly when there is none. */
  lemma {:induction false} ChainFollowsTree(s: string, v: Value, path: seq<string>)
    requires v.Object? && Presents(s, v.blank, v.members)
    requires forall k :: k in path ==> PlainKey(k)
    ensures Chain(s, path).Some? <==> Descend(v, path).Some?
    ensures Descend(v, path).Some? ==> Descend(v, path).value.Object?
    ensures var w := Descend(v, path); w.Some? ==> Presents(Chain(s, path).value, w.value.blank, w.value.members)
    decreases |path|
  {
    if path != [] {
      ObjectValueIsInner(s, v.blank, v.members, path[0]);
      var found := Lookup(v.members, path[0]);
      if found.Some? && found.value.Object? {
        var w := found.value;
        ChainFollowsTree(Inner(w.blank, w.members, ""), w, path[1..]);
      }
    }
  }
}
