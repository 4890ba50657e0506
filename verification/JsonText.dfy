// JSON texts (RFC 8259 sections 2, 4, 5 and 7): trees with the white space they were printed with.
module JsonText {
  import opened Options

  /** An object's members and an array's items, each with the white space around its parts. */
  datatype Value =
    | Object(blank: string, members: Members)
    | Array(blank: string, items: Items)
    | Text(body: string)
    | Plain(text: string)

  datatype Member = Member(before: string, key: string, afterKey: string, beforeValue: string, value: Value, after: string)

  datatype Members = NoMembers | Members(first: Member, others: Members)

  datatype Item = Item(before: string, value: Value, after: string)

  datatype Items = NoItems | Items(first: Item, others: Items)

  predicate Blank(c: char) {
    c == ' ' || c == '\t' || c == '\r' || c == '\n'
  }

  predicate AllBlank(s: string) {
    forall i :: 0 <= i < |s| ==> Blank(s[i])
  }

  /** What stands between the quotes of a string: no bare quote, and a character behind each backslash. */
  predicate StringBody(s: string) {
    s == "" || (if s[0] == '\\' then |s| >= 2 && StringBody(s[2..]) else s[0] != '"' && StringBody(s[1..]))
  }

  /** Letters of numbers and of the literals true, false and null. */
  predicate PlainChar(c: char) {
    'a' <= c <= 'z' || 'A' <= c <= 'Z' || '0' <= c <= '9' || c == '-' || c == '+' || c == '.'
  }

  predicate WellFormed(v: Value)
    decreases v, 0
  {
    match v
    case Object(blank, members) => AllBlank(blank) && WellFormedMembers(members)
    case Array(blank, items) => AllBlank(blank) && WellFormedItems(items)
    case Text(body) => StringBody(body)
    case Plain(text) => text != "" && forall i :: 0 <= i < |text| ==> PlainChar(text[i])
  }

  predicate WellFormedMembers(ms: Members)
    decreases ms, 0
  {
    ms.NoMembers? ||
    (&& AllBlank(ms.first.before) && AllBlank(ms.first.afterKey) && AllBlank(ms.first.beforeValue) && AllBlank(ms.first.after)
     && StringBody(ms.first.key)
     && WellFormed(ms.first.value)
     && WellFormedMembers(ms.others))
  }

  predicate WellFormedItems(xs: Items)
    decreases xs, 0
  {
    xs.NoItems? ||
    (AllBlank(xs.first.before) && AllBlank(xs.first.after) && WellFormed(xs.first.value) && WellFormedItems(xs.others))
  }

  // ----- printing, always in front of a given rest of the text

  function Quoted(body: string, post: string): string {
    "\"" + (body + ("\"" + post))
  }

  function Print(v: Value, post: string): string
    decreases v, 0
  {
    match v
    case Object(blank, members) => "{" + Inner(blank, members, "}" + post)
    case Array(blank, items) => "[" + InnerItems(blank, items, "]" + post)
    case Text(body) => Quoted(body, post)
    case Plain(text) => text + post
  }

  function PrintMembers(ms: Members, post: string): string
    decreases ms, 0
  {
    match ms
    case NoMembers => post
    case Members(m, others) =>
      m.before + Quoted(m.key, m.afterKey + (":" + (m.beforeValue + Print(m.value, m.after + BeforeMembers(others, post)))))
  }

  function BeforeMembers(ms: Members, post: string): string
    decreases ms, 1
  {
    if ms.NoMembers? then post else "," + PrintMembers(ms, post)
  }

  function PrintItems(xs: Items, post: string): string
    decreases xs, 0
  {
    match xs
    case NoItems => post
    case Items(x, others) => x.before + Print(x.value, x.after + BeforeItems(others, post))
  }

  function BeforeItems(xs: Items, post: string): string
    decreases xs, 1
  {
    if xs.NoItems? then post else "," + PrintItems(xs, post)
  }

  /** The text between an object's braces. */
  function Inner(blank: string, ms: Members, post: string): string
    decreases ms, 1
  {
    if ms.NoMembers? then blank + post else PrintMembers(ms, post)
  }

  /** The text between an array's brackets. */
  function InnerItems(blank: string, xs: Items, post: string): string
    decreases xs, 1
  {
    if xs.NoItems? then blank + post else PrintItems(xs, post)
  }

  // ----- the meaning: look-up in the tree

  /** The first direct member with this key. */
  function Lookup(ms: Members, key: string): Option<Value>
    decreases ms
  {
    match ms
    case NoMembers => None
    case Members(m, others) => if m.key == key then Some(m.value) else Lookup(others, key)
  }

  // ----- printing in front of a rest is printing, then the rest

  lemma {:induction false} PrintThen(v: Value, post: string)
    ensures Print(v, post) == Print(v, "") + post
    decreases v, 0
  {
    match v {
      case Object(blank, members) =>
        if members.NoMembers? {
          assert Print(v, "") == "{" + (blank + ("}" + ""));
        } else {
          PrintMembersThen(members, "}" + post);
          PrintMembersThen(members, "}" + "");
          assert Print(v, "") == "{" + (PrintMembers(members, "") + ("}" + ""));
          assert Print(v, post) == "{" + (PrintMembers(members, "") + ("}" + post));
        }
      case Array(blank, items) =>
        if items.NoItems? {
          assert Print(v, "") == "[" + (blank + ("]" + ""));
        } else {
          PrintItemsThen(items, "]" + post);
          PrintItemsThen(items, "]" + "");
          assert Print(v, "") == "[" + (PrintItems(items, "") + ("]" + ""));
          assert Print(v, post) == "[" + (PrintItems(items, "") + ("]" + post));
        }
      case Text(body) =>
      case Plain(text) =>
        assert text + "" == text;
    }
  }

  lemma {:induction false} PrintMembersThen(ms: Members, post: string)
    ensures PrintMembers(ms, post) == PrintMembers(ms, "") + post
    decreases ms, 0
  {
    match ms {
      case NoMembers =>
      case Members(m, others) =>
        BeforeMembersThen(others, post);
        PrintThen(m.value, m.after + BeforeMembers(others, post));
        PrintThen(m.value, m.after + BeforeMembers(others, ""));
    }
  }

  lemma {:induction false} BeforeMembersThen(ms: Members, post: string)
    ensures BeforeMembers(ms, post) == BeforeMembers(ms, "") + post
    decreases ms, 1
  {
    if !ms.NoMembers? {
      PrintMembersThen(ms, post);
    }
  }

  lemma {:induction false} PrintItemsThen(xs: Items, post: string)
    ensures PrintItems(xs, post) == PrintItems(xs, "") + post
    decreases xs, 0
  {
    match xs {
      case NoItems =>
      case Items(x, others) =>
        BeforeItemsThen(others, post);
        PrintThen(x.value, x.after + BeforeItems(others, post));
        PrintThen(x.value, x.after + BeforeItems(others, ""));
    }
  }

  lemma {:induction false} BeforeItemsThen(xs: Items, post: string)
    ensures BeforeItems(xs, post) == BeforeItems(xs, "") + post
    decreases xs, 1
  {
    if !xs.NoItems? {
      PrintItemsThen(xs, post);
    }
  }
}
