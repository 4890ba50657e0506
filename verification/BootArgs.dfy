// The boot parameters of payloads/uart-liveboot/liveboot.c: argv, envp and their strings in one bounded arena.
module BootArgs {
  import opened Bytes
  import opened Options
  import opened Numerals

  const BASE: u32 := 0xa000_0400
  const ARENA_BYTES: nat := 0xc00
  const ROOTFS_DEST: u32 := 0x8700_0000
  const INITRD_START: u32 := 0xa700_0000

  predicate IsText(s: string) {
    forall i :: 0 <= i < |s| ==> 0 < s[i] as int < 256
  }

  /** The characters of a C string in front of its NUL. */
  type CText = s: string | IsText(s)

  function Octets(s: CText): (r: seq<byte>)
    ensures |r| == |s|
  {
    seq(|s|, i requires 0 <= i < |s| => s[i] as byte)
  }

  function CBytes(s: CText): (r: seq<byte>)
    ensures |r| == |s| + 1
  {
    Octets(s) + [0]
  }

  /** The texts one behind the other, each with its NUL. */
  function Stored(texts: seq<CText>): seq<byte> {
    if texts == [] then [] else Stored(texts[..|texts| - 1]) + CBytes(texts[|texts| - 1])
  }

  /** The pointers to texts stored from address `at` on. */
  function Pointers(texts: seq<CText>, at: u32): (r: seq<byte>)
    ensures |r| == 4 * |texts|
  {
    if texts == [] then []
    else Pointers(texts[..|texts| - 1], at) + Put32(Wrap(at + |Stored(texts[..|texts| - 1])|))
  }

  /** A pointer table whose entries from `first` on are in use, and the region of its strings; offsets into the arena. */
  datatype Area = Area(table: nat, first: nat, slots: nat, strings: nat, limit: nat)

  const ARGV := Area(0, 1, 16, 0x080, 0x200)
  const ENVP := Area(0x200, 0, 8, 0x240, 0xc00)

  predicate Bounded(a: Area) {
    a.table + 4 * a.slots <= a.strings <= a.limit <= ARENA_BYTES
  }

  /** Exactly these texts are in the area: every pointer in its slot, every string in its place, one slot left for the terminator. */
  predicate Holds(memory: seq<byte>, a: Area, texts: seq<CText>) {
    && |memory| == ARENA_BYTES && Bounded(a)
    && a.first + |texts| < a.slots
    && a.strings + |Stored(texts)| <= a.limit
    && memory[a.table + 4 * a.first..a.table + 4 * a.first + 4 * |texts|] == Pointers(texts, BASE + a.strings)
    && memory[a.strings..a.strings + |Stored(texts)|] == Stored(texts)
  }

  /** Room for one more text: a slot in front of the terminator's, and the bytes with their NUL. */
  predicate Room(a: Area, texts: seq<CText>, text: CText) {
    a.first + |texts| < a.slots - 1 && |text| + 1 <= a.limit - (a.strings + |Stored(texts)|)
  }

  /** Memory after one more text: its pointer and its bytes, and nothing else. */
  function Added(memory: seq<byte>, a: Area, texts: seq<CText>, text: CText): (r: seq<byte>)
    requires Holds(memory, a, texts) && Room(a, texts, text)
    ensures |r| == |memory|
  {
    Overlay(Overlay(memory, a.table + 4 * (a.first + |texts|), Put32(BASE + a.strings + |Stored(texts)|)),
            a.strings + |Stored(texts)|, CBytes(text))
  }

  lemma OneMore(texts: seq<CText>, text: CText, at: u32)
    ensures Stored(texts + [text]) == Stored(texts) + CBytes(text)
    ensures Pointers(texts + [text], at) == Pointers(texts, at) + Put32(Wrap(at + |Stored(texts)|))
  {
    assert (texts + [text])[..|texts|] == texts;
  }

  /** Adding keeps what the area held and appends the new text. */
  lemma AddedHolds(memory: seq<byte>, a: Area, texts: seq<CText>, text: CText)
    requires Holds(memory, a, texts) && Room(a, texts, text)
    ensures Holds(Added(memory, a, texts, text), a, texts + [text])
  {
    hide Put32, CBytes, Overlay, Stored, Pointers;
    OneMore(texts, text, BASE + a.strings);
    var n, used, slot := |texts|, |Stored(texts)|, a.table + 4 * a.first;
    NoWrap(BASE + a.strings + used);
    var p, c := Put32(BASE + a.strings + used), CBytes(text);
    var mid := Overlay(memory, slot + 4 * n, p);
    var after := Overlay(mid, a.strings + used, c);
    OverlayKeepsSlice(memory, slot + 4 * n, p, slot, slot + 4 * n);
    OverlayHoldsData(memory, slot + 4 * n, p);
    OverlayKeepsSlice(memory, slot + 4 * n, p, a.strings, a.strings + used);
    OverlayKeepsSlice(mid, a.strings + used, c, slot, slot + 4 * n);
    OverlayKeepsSlice(mid, a.strings + used, c, slot + 4 * n, slot + 4 * n + 4);
    OverlayKeepsSlice(mid, a.strings + used, c, a.strings, a.strings + used);
    OverlayHoldsData(mid, a.strings + used, c);
    SliceJoin(after, slot, slot + 4 * n, slot + 4 * n + 4);
    SliceJoin(after, a.strings, a.strings + used, a.strings + used + |c|);
  }

  predicate Apart(a: Area, b: Area) {
    a.limit <= b.table || b.limit <= a.table
  }

  /** Adding to one area leaves a separate one alone. */
  lemma AddedKeepsOther(memory: seq<byte>, a: Area, texts: seq<CText>, text: CText, b: Area, others: seq<CText>)
    requires Holds(memory, a, texts) && Room(a, texts, text)
    requires Bounded(b) && Apart(a, b)
    ensures Added(memory, a, texts, text)[b.table..b.limit] == memory[b.table..b.limit]
    ensures Holds(memory, b, others) ==> Holds(Added(memory, a, texts, text), b, others)
  {
    hide Put32, CBytes, Stored, Pointers, Overlay;
    var after := Added(memory, a, texts, text);
    var slot, p := a.table + 4 * (a.first + |texts|), Put32(BASE + a.strings + |Stored(texts)|);
    OverlayKeepsSlice(memory, slot, p, b.table, b.limit);
    OverlayKeepsSlice(Overlay(memory, slot, p), a.strings + |Stored(texts)|, CBytes(text), b.table, b.limit);
    if Holds(memory, b, others) {
      WithinSlice(memory, after, b.table, b.limit, b.table + 4 * b.first, b.table + 4 * b.first + 4 * |others|);
      WithinSlice(memory, after, b.table, b.limit, b.strings, b.strings + |Stored(others)|);
    }
  }

  lemma WithinSlice(m: seq<byte>, n: seq<byte>, a: nat, b: nat, c: nat, d: nat)
    requires |m| == |n| && a <= c <= d <= b <= |m| && m[a..b] == n[a..b]
    ensures m[c..d] == n[c..d]
  {
    SliceOfSlice(m, a, b, c - a, d - a);
    SliceOfSlice(n, a, b, c - a, d - a);
  }

  // ----- what the kernel reads

  /** The C string at an offset of the arena. */
  function ReadText(memory: seq<byte>, at: nat): Option<string>
    decreases |memory| - at
  {
    if at >= |memory| then None
    else if memory[at] == 0 then Some("")
    else match ReadText(memory, at + 1)
      case None => None
      case Some(rest) => Some([memory[at] as char] + rest)
  }

  lemma {:induction false} ReadsBack(memory: seq<byte>, at: nat, s: CText)
    requires at + |s| + 1 <= |memory| && memory[at..at + |s| + 1] == CBytes(s)
    ensures ReadText(memory, at) == Some(s)
    decreases |s|
  {
    assert memory[at] == CBytes(s)[0];
    if s != "" {
      assert memory[at + 1..at + 1 + |s[1..]| + 1] == CBytes(s)[1..] == CBytes(s[1..]);
      ReadsBack(memory, at + 1, s[1..]);
      assert s == [s[0]] + s[1..];
    }
  }

  /** Where the i-th text and its pointer stand among the others. */
  lemma {:induction false} TextAt(texts: seq<CText>, at: u32, i: nat)
    requires i < |texts|
    ensures |Stored(texts[..i])| + |CBytes(texts[i])| <= |Stored(texts)|
    ensures Stored(texts)[|Stored(texts[..i])|..|Stored(texts[..i])| + |CBytes(texts[i])|] == CBytes(texts[i])
    ensures Pointers(texts, at)[4 * i..4 * i + 4] == Put32(Wrap(at + |Stored(texts[..i])|))
    decreases |texts|
  {
    hide Put32, CBytes, Wrap, Stored, Pointers;
    var front, last := texts[..|texts| - 1], texts[|texts| - 1];
    assert texts == front + [last];
    OneMore(front, last, at);
    var pointer := Put32(Wrap(at + |Stored(front)|));
    if i < |front| {
      TextAt(front, at, i);
      assert front[..i] == texts[..i];
      var n := |Stored(front[..i])|;
      FrontSlice(Stored(front), CBytes(last), n, n + |CBytes(texts[i])|);
      FrontSlice(Pointers(front, at), pointer, 4 * i, 4 * i + 4);
    } else {
      BackSlice(Stored(front), CBytes(last));
      BackSlice(Pointers(front, at), pointer);
    }
  }

  lemma FrontSlice(x: seq<byte>, y: seq<byte>, a: nat, b: nat)
    requires a <= b <= |x|
    ensures (x + y)[a..b] == x[a..b]
  {}

  lemma BackSlice(x: seq<byte>, y: seq<byte>)
    ensures (x + y)[|x|..|x| + |y|] == y
  {}

  function EntryOf(memory: seq<byte>, table: nat, i: nat): u32
    requires table + 4 * i + 4 <= |memory|
  {
    Le32(memory[table + 4 * i..table + 4 * i + 4])
  }

  /** Every entry points inside its strings, at a string that reads back as the text, behind the one before it. */
  lemma EntriesReadBack(memory: seq<byte>, a: Area, texts: seq<CText>, i: nat)
    requires Holds(memory, a, texts) && i < |texts|
    ensures var p := EntryOf(memory, a.table, a.first + i);
            && BASE + a.strings <= p && p + |texts[i]| + 1 <= BASE + a.limit
            && ReadText(memory, p - BASE) == Some(texts[i])
            && (i + 1 < |texts| ==> EntryOf(memory, a.table, a.first + i + 1) == p + |texts[i]| + 1)
  {
    hide Holds, Put32, CBytes, Stored, Pointers, Le32, ReadText, EntryOf;
    EntryPointer(memory, a, texts, i);
    EntryText(memory, a, texts, i);
    if i + 1 < |texts| {
      EntryPointer(memory, a, texts, i + 1);
      assert texts[..i + 1] == texts[..i] + [texts[i]];
      OneMore(texts[..i], texts[i], BASE);
    }
    HeldIsBounded(memory, a, texts);
  }

  lemma HeldIsBounded(memory: seq<byte>, a: Area, texts: seq<CText>)
    requires Holds(memory, a, texts)
    ensures |memory| == ARENA_BYTES && Bounded(a)
    ensures a.strings + |Stored(texts)| <= a.limit <= ARENA_BYTES && a.first + |texts| < a.slots
  {}

  lemma EntryPointer(memory: seq<byte>, a: Area, texts: seq<CText>, i: nat)
    requires Holds(memory, a, texts) && i < |texts|
    ensures EntryOf(memory, a.table, a.first + i) == BASE + a.strings + |Stored(texts[..i])|
  {
    hide Put32, CBytes, Stored, Pointers, Le32, Wrap;
    TextAt(texts, BASE + a.strings, i);
    var n, slot := |Stored(texts[..i])|, a.table + 4 * a.first;
    SliceOfSlice(memory, slot, slot + 4 * |texts|, 4 * i, 4 * i + 4);
    NoWrap(BASE + a.strings + n);
    WordCodec(BASE + a.strings + n, [0, 0, 0, 0]);
  }

  lemma EntryText(memory: seq<byte>, a: Area, texts: seq<CText>, i: nat)
    requires Holds(memory, a, texts) && i < |texts|
    ensures |Stored(texts[..i])| + |texts[i]| + 1 <= |Stored(texts)|
    ensures ReadText(memory, a.strings + |Stored(texts[..i])|) == Some(texts[i])
  {
    hide CBytes, Stored, Pointers, ReadText, Wrap;
    TextAt(texts, BASE, i);
    var n := |Stored(texts[..i])|;
    SliceOfSlice(memory, a.strings, a.strings + |Stored(texts)|, n, n + |texts[i]| + 1);
    ReadsBack(memory, a.strings + n, texts[i]);
  }

  // ----- the loader's side

  function HexText(value: u32): string {
    "0x" + Hex8(value)
  }

  /** A variable of the environment, with its value in decimal or as a prefixed hexadecimal word. */
  function Assignment(name: string, value: u32, decimal: bool): string {
    name + "=" + (if decimal then Dec(value) else HexText(value))
  }

  lemma {:induction false} DecIsText(x: nat)
    ensures IsText(Dec(x))
  {
    DecStart(x);
  }

  lemma {:induction false} HexIsText(x: nat, n: nat)
    ensures IsText(Hex(x, n))
    decreases n
  {
    if n > 0 {
      HexIsText(x / 16, n - 1);
    }
  }

  lemma JoinText(a: CText, b: CText)
    ensures IsText(a + b)
    ensures Octets(a + b) == Octets(a) + Octets(b)
  {}

  lemma AssignmentIsText(name: CText, value: u32, decimal: bool)
    ensures IsText(Assignment(name, value, decimal)) && IsText(HexText(value)) && IsText(Dec(value))
  {
    hide Dec, Hex;
    DecIsText(value);
    HexIsText(value, 8);
  }

  lemma Powers()
    ensures Power16(0) == 1 && Power16(1) == 0x10 && Power16(2) == 0x100 && Power16(3) == 0x1000 && Power16(4) == 0x1_0000
    ensures Power16(5) == 0x10_0000 && Power16(6) == 0x100_0000 && Power16(7) == 0x1000_0000 && Power16(8) == 0x1_0000_0000
  {
    assert Power16(4) == 0x1_0000;
  }

  /** One nibble further down: value >> (shift + 4) and value >> shift. */
  lemma NextNibble(value: u32, n: nat)
    requires n < 8
    ensures Power16(n) > 0 && Power16(n + 1) > 0 && value / Power16(n) / 16 == value / Power16(n + 1)
  {
    Powers();
    match n
    case 0 => case 1 => case 2 => case 3 => case 4 => case 5 => case 6 => case 7 =>
  }

  /** The parameter arena: argument and environment cursors as the loader keeps them, and what they stand for. */
  class Arena {
    const memory: array<byte>
    var argc: nat
    var argCursor: nat
    var envc: nat
    var envCursor: nat
    ghost var arguments: seq<CText>
    ghost var variables: seq<CText>

    ghost predicate Valid()
      reads this, memory
    {
      && memory.Length == ARENA_BYTES
      && argc == 1 + |arguments| && argCursor == 0x080 + |Stored(arguments)| && Holds(memory[..], ARGV, arguments)
      && envc == |variables| && envCursor == 0x240 + |Stored(variables)| && Holds(memory[..], ENVP, variables)
    }

    /** live_zero over the whole arena, and the empty first argument. */
    constructor (memory: array<byte>)
      requires memory.Length == ARENA_BYTES
      modifies memory
      ensures this.memory == memory && Valid() && arguments == [] && variables == []
      ensures argc == 1 && argCursor == 0x080 && envc == 0 && envCursor == 0x240
      ensures memory[..] == seq(ARENA_BYTES, _ => 0)
    {
      this.memory := memory;
      argc, argCursor, envc, envCursor, arguments, variables := 1, 0x080, 0, 0x240, [], [];
      new;
      for i := 0 to ARENA_BYTES
        modifies memory
        invariant forall k :: 0 <= k < i ==> memory[k] == 0
      {
        memory[i] := 0;
      }
    }

    /** live_put_string: the characters and their NUL. */
    method PutString(at: nat, text: CText) returns (next: nat)
      requires memory.Length == ARENA_BYTES && at + |text| + 1 <= ARENA_BYTES
      modifies memory
      ensures memory[..] == Overlay(old(memory[..]), at, CBytes(text))
      ensures next == at + |text| + 1
    {
      PutCharacters(at, text);
      OverlayPut(old(memory[..]), at, Octets(text), 0);
      memory[at + |text|] := 0;
      next := at + |text| + 1;
    }

    method PutCharacters(at: nat, text: CText)
      requires memory.Length == ARENA_BYTES && at + |text| <= ARENA_BYTES
      modifies memory
      ensures memory[..] == Overlay(old(memory[..]), at, Octets(text))
    {
      hide Overlay;
      ghost var was := memory[..];
      OverlayNothing(was, at);
      assert Octets(text)[..0] == [];
      for i := 0 to |text|
        invariant memory[..] == Overlay(was, at, Octets(text)[..i])
      {
        ghost var before := memory[..];
        memory[at + i] := text[i] as byte;
        assert memory[..] == before[at + i := text[i] as byte];
        OverlayPut(was, at, Octets(text)[..i], text[i] as byte);
        assert Octets(text)[..i] + [text[i] as byte] == Octets(text)[..i + 1];
      }
      assert Octets(text)[..|text|] == Octets(text);
    }

    /** live_add_arg. */
    method AddArg(text: CText) returns (ok: bool)
      requires Valid()
      modifies this`argc, this`argCursor, this`arguments, memory
      ensures Valid()
      ensures ok <==> old(argc) < 15 && |text| + 1 <= 0x200 - old(argCursor)
      ensures ok ==> && arguments == old(arguments) + [text]
                     && argc == old(argc) + 1 && argCursor == old(argCursor) + |text| + 1
                     && memory[..] == Overlay(Overlay(old(memory[..]), 4 * old(argc), Put32(BASE + old(argCursor))),
                                              old(argCursor), CBytes(text))
                     && memory[0x200..] == old(memory[0x200..]) && memory[..4] == old(memory[..4])
      ensures !ok ==> arguments == old(arguments) && argc == old(argc) && argCursor == old(argCursor) && memory[..] == old(memory[..])
    {
      hide Overlay, Put32, CBytes, Stored, Pointers, Holds;
      ghost var was := memory[..];
      HeldIsBounded(was, ARGV, arguments);
      if argc >= 16 - 1 || argCursor > 0x200 || |text| + 1 > 0x200 - argCursor {
        return false;
      }
      AddedHolds(was, ARGV, arguments, text);
      AddedKeepsOther(was, ARGV, arguments, text, ENVP, variables);
      PutPointer(4 * argc, BASE + argCursor);
      var next := PutString(argCursor, text);
      argc, argCursor, arguments := argc + 1, next, arguments + [text];
      OneMore(old(arguments), text, BASE);
      assert memory[0x200..] == memory[..][0x200..0xc00] && old(memory[0x200..]) == was[0x200..0xc00];
      FirstWordKept(was, ARGV, old(arguments), text);
      assert memory[..4] == memory[..][0..4] && old(memory[..4]) == was[0..4];
      ok := true;
    }

    /** A run of LIVE_ADD_ARG: the first text that finds no room takes the overflow exit. */
    method AddArgs(texts: seq<CText>) returns (ok: bool)
      requires Valid()
      modifies this`argc, this`argCursor, this`arguments, memory
      ensures Valid()
      ensures ok <==> 1 + |old(arguments) + texts| <= 15 && |Stored(old(arguments) + texts)| <= 0x180
      ensures ok ==> arguments == old(arguments) + texts
      ensures memory[0x200..] == old(memory[0x200..]) && memory[..4] == old(memory[..4])
    {
      hide Overlay, Put32, CBytes, Stored, Pointers, Holds;
      HeldIsBounded(memory[..], ARGV, arguments);
      ghost var was := arguments;
      for i := 0 to |texts|
        invariant Valid() && arguments == was + texts[..i]
        invariant 1 + |arguments| <= 15 && |Stored(arguments)| <= 0x180
        invariant memory[0x200..] == old(memory[0x200..]) && memory[..4] == old(memory[..4])
      {
        OneMore(arguments, texts[i], BASE);
        assert arguments + [texts[i]] == (was + texts)[..|was| + i + 1];
        StoredGrows(was + texts, |was| + i + 1);
        ok := AddArg(texts[i]);
        if !ok {
          return;
        }
        assert texts[..i] + [texts[i]] == texts[..i + 1];
      }
      assert texts[..|texts|] == texts;
      ok := true;
    }

    method PutPointer(at: nat, p: u32)
      requires memory.Length == ARENA_BYTES && at + 4 <= ARENA_BYTES
      modifies memory
      ensures memory[..] == Overlay(old(memory[..]), at, Put32(p))
    {
      var w := Put32(p);
      hide Put32;
      memory[at], memory[at + 1], memory[at + 2], memory[at + 3] := w[0], w[1], w[2], w[3];
    }

    /** live_put_hex_value: a nibble at a time from the top. */
    method PutHex(at: nat, value: u32) returns (next: nat)
      requires memory.Length == ARENA_BYTES && at + 11 <= ARENA_BYTES && IsText(HexText(value))
      modifies memory
      ensures memory[..] == Overlay(old(memory[..]), at, CBytes(HexText(value)))
      ensures next == at + 11
    {
      hide Overlay, Hex, Octets, DigitChar;
      ghost var was := memory[..];
      var digits := "";
      Powers();
      assert Hex(value / Power16(8), 0) == "" by { NoDigits(value / Power16(8)); }
      for i := 0 to 8
        invariant |digits| == i && digits == Hex(value / Power16(8 - i), i)
        invariant memory[..] == was
      {
        NextNibble(value, 7 - i);
        OneDigit(value / Power16(7 - i), i);
        digits := digits + [DigitChar(value / Power16(7 - i) % 16)];
      }
      assert digits == Hex8(value);
      assert "0x" + digits == HexText(value);
      next := PutString(at, "0x" + digits);
    }

    /** The name, '=' over its NUL, and the value: decimal digits as in put_u32_dec, or a prefixed word. */
    method PutAssignment(at: nat, name: CText, value: u32, decimal: bool) returns (next: nat)
      requires memory.Length == ARENA_BYTES
      requires IsText(Assignment(name, value, decimal)) && at + |Assignment(name, value, decimal)| + 1 <= ARENA_BYTES
      modifies memory
      ensures memory[..] == Overlay(old(memory[..]), at, CBytes(Assignment(name, value, decimal)))
      ensures next == at + |Assignment(name, value, decimal)| + 1
    {
      hide Overlay, Hex, Octets, Dec, IsText;
      AssignmentIsText(name, value, decimal);
      ghost var was := memory[..];
      next := PutString(at, name);
      next := next - 1;
      memory[next] := '=' as byte;
      OverlayReplace(was, at, Octets(name), 0, '=' as byte);
      EqualsSign();
      next := next + 1;
      JoinText(name, "=");
      assert memory[..] == Overlay(was, at, Octets(name + "="));
      ghost var shown := if decimal then Dec(value) else HexText(value);
      if decimal {
        var digits := PutDec(value);
        next := PutString(next, digits);
      } else {
        next := PutHex(next, value);
      }
      OverlayJoin(was, at, Octets(name + "="), CBytes(shown));
      JoinText(name + "=", shown);
      assert Octets(name + "=") + CBytes(shown) == CBytes(name + "=" + shown);
    }

    /** live_add_env. */
    method AddEnv(name: CText, value: u32, decimal: bool) returns (ok: bool)
      requires Valid() && IsText(Assignment(name, value, decimal))
      modifies this`envc, this`envCursor, this`variables, memory
      ensures Valid()
      ensures var text := Assignment(name, value, decimal);
              && (ok <==> old(envc) < 7 && |text| + 1 <= 0xc00 - old(envCursor))
              && (ok ==> && variables == old(variables) + [text]
                         && envc == old(envc) + 1 && envCursor == old(envCursor) + |text| + 1
                         && memory[..] == Overlay(Overlay(old(memory[..]), 0x200 + 4 * old(envc), Put32(BASE + old(envCursor))),
                                                  old(envCursor), CBytes(text))
                         && memory[..0x200] == old(memory[..0x200]))
      ensures !ok ==> variables == old(variables) && envc == old(envc) && envCursor == old(envCursor) && memory[..] == old(memory[..])
    {
      hide Overlay, Put32, CBytes, Stored, Pointers, Holds, Assignment, IsText, Hex, Dec;
      ghost var was := memory[..];
      ghost var text := Assignment(name, value, decimal);
      HeldIsBounded(was, ENVP, variables);
      var valueBytes := 11;
      if decimal {
        var count := CountDigits(value);
        valueBytes := count + 1;
      }
      AssignmentLength(name, value, decimal);
      if envc >= 8 - 1 || envCursor > 0xc00 || |name| + 1 + valueBytes > 0xc00 - envCursor {
        return false;
      }
      AddedHolds(was, ENVP, variables, text);
      AddedKeepsOther(was, ENVP, variables, text, ARGV, arguments);
      PutPointer(0x200 + 4 * envc, BASE + envCursor);
      var next := PutAssignment(envCursor, name, value, decimal);
      envc, envCursor, variables := envc + 1, next, variables + [text];
      OneMore(old(variables), text, BASE);
      assert memory[..0x200] == memory[..][0..0x200] && old(memory[..0x200]) == was[0..0x200];
      ok := true;
    }

    /** argv[argc] = 0. */
    method EndArguments()
      requires Valid()
      modifies memory
      ensures Valid() && EntryOf(memory[..], 0, argc) == 0
      ensures memory[..4] == old(memory[..4])
    {
      hide EntryOf;
      Terminate(ARGV, arguments, argc, ENVP, variables);
    }

    /** envp[envc] = 0. */
    method EndVariables()
      requires Valid()
      modifies memory
      ensures Valid() && EntryOf(memory[..], 0x200, envc) == 0
      ensures memory[..0x200] == old(memory[..0x200])
    {
      hide EntryOf, Holds;
      ghost var was := memory[..];
      Terminate(ENVP, variables, envc, ARGV, arguments);
      assert memory[..0x200] == memory[0..0x200];
    }

    /** A zero word behind the pointers of an area. */
    method Terminate(a: Area, ghost texts: seq<CText>, count: nat, ghost other: Area, ghost others: seq<CText>)
      requires memory.Length == ARENA_BYTES && Holds(memory[..], a, texts) && Holds(memory[..], other, others) && Apart(a, other)
      requires count == a.first + |texts|
      modifies memory
      ensures Holds(memory[..], a, texts) && Holds(memory[..], other, others)
      ensures EntryOf(memory[..], a.table, count) == 0
      ensures memory[other.table..other.limit] == old(memory[other.table..other.limit])
      ensures a.table + 4 * count >= 4 ==> memory[..4] == old(memory[..4])
    {
      hide Overlay, Stored, Pointers, Holds, Put32, EntryOf;
      var at := a.table + 4 * count;
      ghost var was := memory[..];
      SlotsFit(was, a, texts);
      SlotsFit(was, other, others);
      PutPointer(at, 0);
      StoreOutside(was, at, Put32(0), a, texts);
      StoreOutside(was, at, Put32(0), other, others);
      EntryStored(was, a.table, count, 0);
      OverlayKeepsSlice(was, at, Put32(0), other.table, other.limit);
      assert memory[other.table..other.limit] == memory[..][other.table..other.limit]
          && old(memory[other.table..other.limit]) == was[other.table..other.limit];
      if at >= 4 {
        OverlayKeepsSlice(was, at, Put32(0), 0, 4);
        assert memory[..4] == memory[..][0..4] && old(memory[..4]) == was[0..4];
      }
    }
  }

  /** Fewer texts take fewer bytes. */
  lemma {:induction false} StoredGrows(texts: seq<CText>, n: nat)
    requires n <= |texts|
    ensures |Stored(texts[..n])| <= |Stored(texts)|
    decreases |texts|
  {
    if n == |texts| {
      assert texts[..n] == texts;
    } else {
      StoredGrows(texts[..|texts| - 1], n);
      assert texts[..|texts| - 1][..n] == texts[..n];
    }
  }

  /** The slots in front of an area's first entry are not written. */
  lemma FirstWordKept(memory: seq<byte>, a: Area, texts: seq<CText>, text: CText)
    requires Holds(memory, a, texts) && Room(a, texts, text) && a.first > 0
    ensures Added(memory, a, texts, text)[0..4] == memory[0..4]
  {
    hide Put32, CBytes, Stored, Pointers, Overlay;
    var slot, p := a.table + 4 * (a.first + |texts|), Put32(BASE + a.strings + |Stored(texts)|);
    OverlayKeepsSlice(memory, slot, p, 0, 4);
    OverlayKeepsSlice(Overlay(memory, slot, p), a.strings + |Stored(texts)|, CBytes(text), 0, 4);
  }

  lemma SlotsFit(memory: seq<byte>, a: Area, texts: seq<CText>)
    requires Holds(memory, a, texts)
    ensures a.table + 4 * (a.first + |texts|) + 4 <= a.strings <= a.limit <= ARENA_BYTES
  {}

  /** A word stored behind an area's pointers and in front of its strings, or in another area, is not part of it. */
  lemma StoreOutside(memory: seq<byte>, at: nat, word: seq<byte>, a: Area, texts: seq<CText>)
    requires Holds(memory, a, texts) && |word| == 4 && at + 4 <= ARENA_BYTES
    requires at + 4 <= a.table || a.limit <= at || (at == a.table + 4 * (a.first + |texts|))
    ensures Holds(Overlay(memory, at, word), a, texts)
  {
    hide Overlay, Stored, Pointers;
    OverlayKeepsSlice(memory, at, word, a.table + 4 * a.first, a.table + 4 * a.first + 4 * |texts|);
    OverlayKeepsSlice(memory, at, word, a.strings, a.strings + |Stored(texts)|);
  }

  lemma EntryStored(memory: seq<byte>, table: nat, i: nat, p: u32)
    requires table + 4 * i + 4 <= |memory|
    ensures EntryOf(Overlay(memory, table + 4 * i, Put32(p)), table, i) == p
  {
    hide Overlay, Put32, Le32;
    OverlayHoldsData(memory, table + 4 * i, Put32(p));
    WordCodec(p, [0, 0, 0, 0]);
  }

  lemma NoDigits(x: nat)
    ensures Hex(x, 0) == ""
  {}

  lemma OneDigit(x: nat, n: nat)
    ensures Hex(x, n + 1) == Hex(x / 16, n) + [DigitChar(x % 16)]
  {}

  lemma EqualsSign()
    ensures IsText("=") && Octets("=") == ['=' as byte]
  {}

  lemma AssignmentLength(name: string, value: u32, decimal: bool)
    ensures |Assignment(name, value, decimal)| == |name| + 1 + (if decimal then |Dec(value)| else 10)
  {}

  /** The digit count in front of live_add_env's room check. */
  method CountDigits(value: u32) returns (count: nat)
    ensures count == |Dec(value)|
  {
    count := 0;
    if value == 0 {
      count := 1;
    }
    var rest := value;
    while rest != 0
      invariant 0 <= rest
      invariant rest != 0 ==> count + |Dec(rest)| == |Dec(value)|
      invariant rest == 0 ==> count == |Dec(value)|
      decreases rest
    {
      count := count + 1;
      rest := rest / 10;
    }
  }

  /** live_make_model_arg into a buffer of `capacity` bytes. */
  method MakeModelArg(capacity: nat, model: CText) returns (text: Option<CText>)
    ensures text == if 17 + |model| < capacity then Some(ModelArgument(model)) else None
  {
    var prefix := MODEL;
    var used := "";
    for i := 0 to |prefix|
      invariant used == prefix[..i] && (i == 0 || i < capacity)
    {
      if |used| + 1 >= capacity {
        return None;
      }
      used := used + [prefix[i]];
    }
    for i := 0 to |model|
      invariant used == prefix + model[..i] && 17 + i < capacity
    {
      if |used| + 1 >= capacity {
        return None;
      }
      used := used + [model[i]];
    }
    assert model[..|model|] == model;
    text := Some(used);
  }

  function ModelArgument(model: CText): CText {
    MODEL + model
  }

  // ----- the whole parameter block

  const CONSOLE: CText := "console=ttyS0,115200n8"
  const MEMORY_LIMIT: CText := "mem=120M"
  const RD_START: CText := "rd_start="
  const RD_SIZE: CText := "rd_size="
  const ROOT: CText := "root=/dev/ram0"
  const ROOTFS_TYPE: CText := "rootfstype=squashfs"
  const READ_ONLY: CText := "ro"
  const LOAD_RAMDISK: CText := "load_ramdisk=1"
  const PROMPT_RAMDISK: CText := "prompt_ramdisk=0"
  const RAMDISK_SIZE: CText := "ramdisk_size=8192"
  const LIVE: CText := "postmerkos.live=1"
  const MODEL: CText := "postmerkos.model="
  const PANIC: CText := "panic=5"
  const MEMSIZE: CText := "memsize"
  const INITRD_START_NAME: CText := "initrd_start"
  const INITRD_SIZE_NAME: CText := "initrd_size"

  function HexOption(name: CText, value: u32): (r: CText)
    ensures |r| == |name| + 10
  {
    AssignmentIsText("", value, false);
    JoinText(name, HexText(value));
    name + HexText(value)
  }

  /** The arguments that do not depend on the model. */
  function PlatformArguments(rootfsSize: u32): (r: seq<CText>) {
    [CONSOLE, MEMORY_LIMIT, HexOption(RD_START, ROOTFS_DEST), HexOption(RD_SIZE, rootfsSize), ROOT, ROOTFS_TYPE,
     READ_ONLY, LOAD_RAMDISK, PROMPT_RAMDISK, RAMDISK_SIZE, LIVE]
  }

  /** Everything behind the empty first argument. */
  function Arguments(rootfsSize: u32, model: CText): seq<CText> {
    PlatformArguments(rootfsSize) + [ModelArgument(model), PANIC]
  }

  function Variable(name: CText, value: u32, decimal: bool): (r: CText)
    ensures r == Assignment(name, value, decimal)
  {
    AssignmentIsText(name, value, decimal);
    Assignment(name, value, decimal)
  }

  function Environment(rootfsSize: u32): seq<CText> {
    [Variable(MEMSIZE, 120, true), Variable(INITRD_START_NAME, INITRD_START, false), Variable(INITRD_SIZE_NAME, rootfsSize, false)]
  }

  /** Bytes taken by the texts from the i-th on. */
  function Taken(texts: seq<CText>, i: nat): nat
    decreases |texts| - i
  {
    if i >= |texts| then 0 else |texts[i]| + 1 + Taken(texts, i + 1)
  }

  lemma {:induction false} StoredTaken(texts: seq<CText>, i: nat)
    requires i <= |texts|
    ensures |Stored(texts)| == |Stored(texts[..i])| + Taken(texts, i)
    decreases |texts| - i
  {
    if i < |texts| {
      StoredTaken(texts, i + 1);
      assert texts[..i + 1] == texts[..i] + [texts[i]];
      OneMore(texts[..i], texts[i], BASE);
    } else {
      assert texts[..i] == texts;
    }
  }

  /** Every size is fixed but the model's. */
  lemma ParameterBytes(rootfsSize: u32, model: CText)
    ensures |Stored(PlatformArguments(rootfsSize))| == 177
    ensures |Stored(Arguments(rootfsSize, model))| == 203 + |model|
    ensures |PlatformArguments(rootfsSize)| == 11 && |Arguments(rootfsSize, model)| == 13
    ensures [] + PlatformArguments(rootfsSize) == PlatformArguments(rootfsSize)
    ensures PlatformArguments(rootfsSize) + [ModelArgument(model), PANIC] == Arguments(rootfsSize, model)
  {
    assert Stored([]) == [];
    hide Stored, HexOption;
    var platform := PlatformArguments(rootfsSize);
    var all := Arguments(rootfsSize, model);
    assert platform[..0] == [] && all[..0] == [] && Taken(platform, 11) == 0;
    PlatformTaken(platform, rootfsSize, 0);
    StoredTaken(platform, 0);
    TailTaken(all, model);
    PlatformTaken(all, rootfsSize, 26 + |model|);
    StoredTaken(all, 0);
  }

  lemma TailTaken(texts: seq<CText>, model: CText)
    requires |texts| == 13 && texts[11] == ModelArgument(model) && texts[12] == PANIC
    ensures Taken(texts, 11) == 26 + |model|
  {
    assert Taken(texts, 12) == 8 + Taken(texts, 13);
    assert |ModelArgument(model)| == 17 + |model|;
  }

  lemma PlatformTaken(texts: seq<CText>, rootfsSize: u32, more: nat)
    requires PlatformArguments(rootfsSize) <= texts && Taken(texts, 11) == more
    ensures Taken(texts, 0) == 177 + more
  {
    hide HexOption;
    assert Taken(texts, 10) == |LIVE| + 1 + more;
    assert Taken(texts, 9) == |RAMDISK_SIZE| + 1 + Taken(texts, 10);
    assert Taken(texts, 8) == |PROMPT_RAMDISK| + 1 + Taken(texts, 9);
    assert Taken(texts, 7) == |LOAD_RAMDISK| + 1 + Taken(texts, 8);
    assert Taken(texts, 6) == |READ_ONLY| + 1 + Taken(texts, 7);
    assert Taken(texts, 5) == |ROOTFS_TYPE| + 1 + Taken(texts, 6);
    assert Taken(texts, 4) == |ROOT| + 1 + Taken(texts, 5);
    assert Taken(texts, 3) == |RD_SIZE| + 11 + Taken(texts, 4);
    assert Taken(texts, 2) == |RD_START| + 11 + Taken(texts, 3);
    assert Taken(texts, 1) == |MEMORY_LIMIT| + 1 + Taken(texts, 2);
    assert Taken(texts, 0) == |CONSOLE| + 1 + Taken(texts, 1);
  }

  lemma EnvironmentFits(rootfsSize: u32)
    ensures |Variable(MEMSIZE, 120, true)| == 11 && |Variable(INITRD_START_NAME, INITRD_START, false)| == 23
    ensures |Variable(INITRD_SIZE_NAME, rootfsSize, false)| == 22
  {
    AssignmentLength(MEMSIZE, 120, true);
    AssignmentLength(INITRD_START_NAME, INITRD_START, false);
    AssignmentLength(INITRD_SIZE_NAME, rootfsSize, false);
    assert |Dec(120)| == |Dec(12)| + 1 == |Dec(1)| + 2;
  }

  /** The environment half of prepare_linux_boot_params. */
  method PutEnvironment(arena: Arena, rootfsSize: u32) returns (ok: bool)
    requires arena.Valid() && arena.variables == [] && arena.envc == 0 && arena.envCursor == 0x240
    modifies arena`envc, arena`envCursor, arena`variables, arena.memory
    ensures arena.Valid() && ok && arena.variables == Environment(rootfsSize) && arena.envc == 3
    ensures arena.memory[..0x200] == old(arena.memory[..0x200])
  {
    hide Overlay, Put32, CBytes, Stored, Pointers, Holds, Assignment, IsText, Arena.Valid;
    EnvironmentFits(rootfsSize);
    ok := arena.AddEnv(MEMSIZE, 120, true);
    ok := arena.AddEnv(INITRD_START_NAME, INITRD_START, false);
    ok := arena.AddEnv(INITRD_SIZE_NAME, rootfsSize, false);
  }

  /** The argument half of prepare_linux_boot_params: it fails exactly for a model that is not allowed or too long for its buffer. */
  method PutArguments(arena: Arena, rootfsSize: u32, model: CText, allowed: bool) returns (ok: bool)
    requires arena.Valid() && arena.arguments == []
    modifies arena`argc, arena`argCursor, arena`arguments, arena.memory
    ensures arena.Valid() && (ok <==> allowed && |model| <= 30)
    ensures ok ==> arena.arguments == Arguments(rootfsSize, model) && arena.argc == 14 && EntryOf(arena.memory[..], 0, 14) == 0
    ensures ok ==> arena.memory[..4] == old(arena.memory[..4])
  {
    hide Overlay, Put32, CBytes, Stored, Pointers, Holds, Arena.Valid, EntryOf, Arguments, PlatformArguments, IsText, ModelArgument;
    ParameterBytes(rootfsSize, model);
    ok := arena.AddArgs(PlatformArguments(rootfsSize));
    if !allowed {
      return false;
    }
    var text := MakeModelArg(48, model);
    if text.None? {
      return false;
    }
    ok := arena.AddArgs([text.value, PANIC]);
    CountsAre(arena);
    arena.EndArguments();
  }

  /** prepare_linux_boot_params. */
  method Prepare(memory: array<byte>, rootfsSize: u32, model: CText, allowed: bool) returns (ok: bool, argc: nat)
    requires memory.Length == ARENA_BYTES
    modifies memory
    // the overflow exit is taken exactly for a model that is not allowed or too long for its buffer
    ensures ok <==> allowed && |model| <= 30
    ensures ok ==> && argc == 14
                   && Holds(memory[..], ARGV, Arguments(rootfsSize, model)) && Holds(memory[..], ENVP, Environment(rootfsSize))
                   && EntryOf(memory[..], 0, 0) == 0 && EntryOf(memory[..], 0, argc) == 0 && EntryOf(memory[..], 0x200, 3) == 0
  {
    hide Overlay, Put32, CBytes, Stored, Pointers, Holds, Arena.Valid, EntryOf, Arguments, Environment, IsText;
    var arena := new Arena(memory);
    assert memory[..4] == memory[..][..4] == [0, 0, 0, 0];
    ok := PutArguments(arena, rootfsSize, model, allowed);
    if !ok {
      return false, 0;
    }
    ghost var terminated := memory[..];
    ok := PutEnvironment(arena, rootfsSize);
    arena.EndVariables();
    SameEntries(terminated, memory[..], 14);
    FirstEntry(memory[..]);
    CountsAre(arena);
    argc := arena.argc;
  }

  lemma CountsAre(arena: Arena)
    requires arena.Valid()
    ensures arena.argc == 1 + |arena.arguments| && arena.envc == |arena.variables| && arena.envCursor == 0x240 + |Stored(arena.variables)|
    ensures Holds(arena.memory[..], ARGV, arena.arguments) && Holds(arena.memory[..], ENVP, arena.variables)
    ensures arena.memory.Length == ARENA_BYTES
  {}

  lemma SameEntries(m: seq<byte>, n: seq<byte>, i: nat)
    requires |m| == |n| == ARENA_BYTES && m[..0x200] == n[..0x200] && i < 16
    ensures EntryOf(m, 0, i) == EntryOf(n, 0, i)
  {
    WithinSlice(m, n, 0, 0x200, 4 * i, 4 * i + 4);
  }

  lemma FirstEntry(m: seq<byte>)
    requires |m| == ARENA_BYTES && m[..4] == [0, 0, 0, 0]
    ensures EntryOf(m, 0, 0) == 0
  {}

  /** Entry i of a pointer table leads to the text, inside the arena. */
  predicate EntryIs(memory: seq<byte>, table: nat, i: nat, text: string) {
    && table + 4 * i + 4 <= |memory|
    && BASE <= EntryOf(memory, table, i)
    && ReadText(memory, EntryOf(memory, table, i) - BASE) == Some(text)
  }

  predicate AllRead(memory: seq<byte>, a: Area, texts: seq<CText>) {
    forall i :: 0 <= i < |texts| ==> EntryIs(memory, a.table, a.first + i, texts[i])
  }

  /** Everything an area holds is read back through its pointers. */
  lemma HeldIsRead(memory: seq<byte>, a: Area, texts: seq<CText>)
    requires Holds(memory, a, texts)
    ensures AllRead(memory, a, texts)
  {
    hide Holds, EntryOf, ReadText, Stored;
    HeldIsBounded(memory, a, texts);
    forall i | 0 <= i < |texts|
      ensures EntryIs(memory, a.table, a.first + i, texts[i])
    {
      EntriesReadBack(memory, a, texts, i);
    }
  }

  /** What the kernel finds behind its two tables: every text, the root file system's size in both, and the model. */
  lemma KernelReadsParameters(memory: seq<byte>, rootfsSize: u32, model: CText)
    requires Holds(memory, ARGV, Arguments(rootfsSize, model)) && Holds(memory, ENVP, Environment(rootfsSize))
    ensures var args, vars := Arguments(rootfsSize, model), Environment(rootfsSize);
            && |args| == 13 && AllRead(memory, ARGV, args)
            && |vars| == 3 && AllRead(memory, ENVP, vars)
            && |args[3]| >= 8 && ParseToken(args[3][8..]) == Some(rootfsSize)
            && |vars[2]| >= 12 && ParseToken(vars[2][12..]) == Some(rootfsSize)
            && args[11] == MODEL + model
  {
    hide Holds, EntryOf, ReadText, ParseToken, Hex, IsText, AllRead;
    var args, vars := Arguments(rootfsSize, model), Environment(rootfsSize);
    HeldIsRead(memory, ARGV, args);
    HeldIsRead(memory, ENVP, vars);
    PrintedNumbersParse(rootfsSize);
    assert args[3][8..] == HexText(rootfsSize) && vars[2][12..] == HexText(rootfsSize);
  }

  lemma FirstWord()
    ensures Hex8(0x8700_0000) == "87000000"
  {
    hide Hex;
    OneDigit(0x8700_0000, 7); OneDigit(0x870_0000, 6); OneDigit(0x87_0000, 5); OneDigit(0x8_7000, 4);
    OneDigit(0x8700, 3); OneDigit(0x870, 2); OneDigit(0x87, 1); OneDigit(0x8, 0); NoDigits(0);
  }

  lemma SecondWord()
    ensures Hex8(0xa700_0000) == "a7000000"
  {
    hide Hex;
    OneDigit(0xa700_0000, 7); OneDigit(0xa70_0000, 6); OneDigit(0xa7_0000, 5); OneDigit(0xa_7000, 4);
    OneDigit(0xa700, 3); OneDigit(0xa70, 2); OneDigit(0xa7, 1); OneDigit(0xa, 0); NoDigits(0);
  }

  lemma MemoryText()
    ensures Dec(120) == "120"
  {
    assert Dec(12) == Dec(1) + [DigitChar(2)] && Dec(1) == [DigitChar(1)];
  }

  /** The command line and the environment, text for text. */
  lemma ParameterTexts(rootfsSize: u32, model: CText)
    ensures Arguments(rootfsSize, model)
         == ["console=ttyS0,115200n8", "mem=120M", "rd_start=0x87000000", "rd_size=0x" + Hex8(rootfsSize), "root=/dev/ram0",
             "rootfstype=squashfs", "ro", "load_ramdisk=1", "prompt_ramdisk=0", "ramdisk_size=8192", "postmerkos.live=1",
             "postmerkos.model=" + model, "panic=5"]
    ensures Environment(rootfsSize)
         == ["memsize=120", "initrd_start=0xa7000000", "initrd_size=0x" + Hex8(rootfsSize)]
  {
    hide Hex, Dec, IsText;
    FirstWord();
    SecondWord();
    MemoryText();
    var args, vars := Arguments(rootfsSize, model), Environment(rootfsSize);
    assert args[2] == "rd_start=0x87000000" && args[3] == "rd_size=0x" + Hex8(rootfsSize);
    assert vars[0] == "memsize=120" && vars[1] == "initrd_start=0xa7000000" && vars[2] == "initrd_size=0x" + Hex8(rootfsSize);
  }

  /** The first argument text and the first variable stand at their fixed addresses. */
  lemma FirstPointers(memory: seq<byte>, args: seq<CText>, vars: seq<CText>)
    requires args != [] && vars != [] && Holds(memory, ARGV, args) && Holds(memory, ENVP, vars)
    ensures EntryOf(memory, 0, 1) == 0xa000_0480 && EntryOf(memory, 0x200, 0) == 0xa000_0640
  {
    hide Holds, EntryOf, Stored, Pointers;
    HeldIsBounded(memory, ARGV, args);
    HeldIsBounded(memory, ENVP, vars);
    NothingStored();
    EntryPointer(memory, ARGV, args, 0);
    EntryPointer(memory, ENVP, vars, 0);
    assert args[..0] == [] && vars[..0] == [];
  }

  lemma NothingStored()
    ensures Stored([]) == []
  {}
}
