// SPI NOR flash flows of payloads/uart-firmware-recovery/recovery.c over an abstract 16 MiB chip.
module NorFlash {
  import opened Bytes
  import opened Crc32
  import Words

  const FLASH_BYTES: nat := 0x0100_0000
  const ERASE_SIZE: nat := 0x1_0000
  const PAGE_SIZE: nat := 256
  const LOADER_BYTES: nat := 0x4_0000

  function Fill(n: nat, value: byte): (r: seq<byte>)
    ensures |r| == n
  {
    seq(n, _ => value)
  }

  /** What programming leaves: bits can only be cleared. */
  function AndAll(old': seq<byte>, data: seq<byte>): (r: seq<byte>)
    requires |old'| == |data|
    ensures |r| == |data|
  {
    seq(|data|, i requires 0 <= i < |data| => And(old'[i], data[i]))
  }

  lemma AndErasedAll(n: nat, data: seq<byte>)
    requires |data| == n
    ensures AndAll(Fill(n, 0xff), data) == data
  {
    hide And;
    forall i | 0 <= i < n
      ensures And(0xff, data[i]) == data[i]
    {
      AndErased(data[i]);
    }
  }

  /** The cells of an aligned block in a larger memory, and everything around it. */
  predicate SameOutside(before: seq<byte>, after: seq<byte>, at: nat, n: nat)
    requires at + n <= |before|
  {
    |after| == |before| && after[..at] == before[..at] && after[at + n..] == before[at + n..]
  }

  lemma SameOutsideChain(a: seq<byte>, b: seq<byte>, c: seq<byte>, at: nat, n: nat)
    requires at + n <= |a| && SameOutside(a, b, at, n) && SameOutside(b, c, at, n)
    ensures SameOutside(a, c, at, n)
  {}

  lemma SameLength(before: seq<byte>, after: seq<byte>, at: nat, n: nat)
    requires at + n <= |before| && SameOutside(before, after, at, n)
    ensures |after| == |before|
  {}

  lemma SameOutsideWider(a: seq<byte>, b: seq<byte>, at: nat, n: nat, lo: nat, m: nat)
    requires lo <= at && at + n <= lo + m <= |a| && SameOutside(a, b, at, n)
    ensures SameOutside(a, b, lo, m)
  {
    assert a[..lo] == a[..at][..lo] && b[..lo] == b[..at][..lo];
    var skip := lo + m - (at + n);
    assert a[lo + m..] == a[at + n..][skip..] && b[lo + m..] == b[at + n..][skip..];
  }

  /** One operation on the chip: where it was, whether it reported success, and the contents behind it. */
  datatype Deed = Erased(at: nat, said: bool, cells: seq<byte>) | Programmed(at: nat, said: bool, cells: seq<byte>)

  /** Consecutive pages from `at` on, n bytes in all, each reported as programmed. */
  predicate AllPages(h: seq<Deed>, at: nat, n: nat) {
    && PAGE_SIZE * |h| == n
    && forall k :: 0 <= k < |h| ==> h[k].Programmed? && h[k].said && h[k].at == at + PAGE_SIZE * k
  }

  /** Only pages have been programmed since `was`, and the last one left these cells. */
  predicate Records(was: seq<Deed>, h: seq<Deed>, cells: seq<byte>) {
    && was <= h && (forall k :: |was| <= k < |h| ==> h[k].Programmed?)
    && (|was| < |h| ==> h[|h| - 1].cells == cells)
  }

  predicate PagesSince(was: seq<Deed>, h: seq<Deed>, at: nat, n: nat, cells: seq<byte>) {
    Records(was, h, cells) && AllPages(h[|was|..], at, n)
  }

  lemma NoPages(h: seq<Deed>, at: nat, cells: seq<byte>)
    ensures PagesSince(h, h, at, 0, cells)
  {}

  lemma PageRecorded(was: seq<Deed>, h: seq<Deed>, d: Deed, at: nat, n: nat, end: nat, before: seq<byte>)
    requires PagesSince(was, h, at, n, before) && d.Programmed? && d.at == at + n
    ensures Records(was, h + [d], d.cells) && |was| < |h + [d]|
    ensures d.said ==> PagesSince(was, h + [d], at, n + PAGE_SIZE, d.cells)
    ensures !d.said ==> !AllPages((h + [d])[|was|..], at, end)
  {
    var pages := (h + [d])[|was|..];
    assert pages == h[|was|..] + [d] && pages[|h| - |was|] == d;
  }

  lemma AllRecorded(was: seq<Deed>, h: seq<Deed>, at: nat, n: nat, cells: seq<byte>)
    requires PagesSince(was, h, at, n, cells)
    ensures Records(was, h, cells) && AllPages(h[|was|..], at, n) && (n > 0 ==> |was| < |h|)
  {}

  /** The chip: operations stay inside the block or page they address; there they may do anything when they fail.
      `healthy` holds as long as every operation worked and said so. */
  class Chip {
    const cells: array<byte>
    ghost var healthy: bool
    ghost var erases: nat
    /** Every operation so far; only erasing and programming extend it. */
    ghost var history: seq<Deed>

    constructor (cells: array<byte>)
      ensures this.cells == cells && healthy && erases == 0 && history == []
    {
      this.cells, healthy, erases, history := cells, true, 0, [];
    }

    /** Leaves anything at all in n cells. */
    method Disturb(at: nat, n: nat)
      requires at + n <= cells.Length
      modifies cells
      ensures SameOutside(old(cells[..]), cells[..], at, n)
    {
      var noise: nat -> byte := *;
      for i := 0 to n
        invariant SameOutside(old(cells[..]), cells[..], at, n)
      {
        cells[at + i] := noise(i);
      }
    }

    /** spi_erase_block: a failure may be reported or not. */
    method EraseBlock(at: nat) returns (ok: bool)
      requires at + ERASE_SIZE <= cells.Length
      modifies this`healthy, this`erases, this`history, cells
      ensures history == old(history) + [Erased(at, ok, cells[..])]
      ensures SameOutside(old(cells[..]), cells[..], at, ERASE_SIZE)
      ensures healthy ==> old(healthy) && ok && cells[at..at + ERASE_SIZE] == Fill(ERASE_SIZE, 0xff)
      ensures erases == old(erases) + 1
    {
      var works: bool := *;
      ok := *;
      erases := erases + 1;
      healthy := healthy && works && ok;
      if works {
        for i := 0 to ERASE_SIZE
          modifies cells
          invariant SameOutside(old(cells[..]), cells[..], at, ERASE_SIZE)
          invariant cells[at..at + i] == Fill(i, 0xff)
        {
          cells[at + i] := 0xff;
        }
      } else {
        Disturb(at, ERASE_SIZE);
      }
      history := history + [Erased(at, ok, cells[..])];
    }

    /** spi_program_page. */
    method ProgramPage(at: nat, data: seq<byte>) returns (ok: bool)
      requires at + PAGE_SIZE <= cells.Length && |data| == PAGE_SIZE
      modifies this`healthy, this`history, cells
      ensures history == old(history) + [Programmed(at, ok, cells[..])]
      ensures SameOutside(old(cells[..]), cells[..], at, PAGE_SIZE)
      ensures healthy ==> old(healthy) && ok && cells[at..at + PAGE_SIZE] == AndAll(old(cells[at..at + PAGE_SIZE]), data)
    {
      hide And;
      var works: bool := *;
      ok := *;
      healthy := healthy && works && ok;
      if works {
        ghost var before := cells[at..at + PAGE_SIZE];
        for i := 0 to PAGE_SIZE
          modifies cells
          invariant SameOutside(old(cells[..]), cells[..], at, PAGE_SIZE)
          invariant cells[at..at + i] == AndAll(before, data)[..i]
          invariant cells[at + i..at + PAGE_SIZE] == before[i..]
        {
          assert cells[at + i] == cells[at + i..at + PAGE_SIZE][0];
          assert cells[at + i + 1..at + PAGE_SIZE] == cells[at + i..at + PAGE_SIZE][1..];
          cells[at + i] := And(cells[at + i], data[i]);
        }
      } else {
        Disturb(at, PAGE_SIZE);
      }
      history := history + [Programmed(at, ok, cells[..])];
    }

    /** spi_read_block: reads are honest. */
    method ReadBlock(at: nat, n: nat) returns (data: seq<byte>)
      requires at + n <= cells.Length
      ensures data == cells[at..at + n]
    {
      data := [];
      for i := 0 to n
        invariant data == cells[at..at + i]
      {
        data := data + [cells[at + i]];
      }
    }

    /** spi_crc_range. */
    method CrcRange(at: nat, n: nat) returns (crc: bv32)
      requires at + n <= cells.Length
      ensures crc == Crc(cells[at..at + n])
    {
      hide Absorb;
      var register := INITIAL;
      assert cells[at..at] == [] && Absorb(INITIAL, []) == INITIAL by { AbsorbNothing(INITIAL); }
      for i := 0 to n
        invariant register == Absorb(INITIAL, cells[at..at + i])
      {
        AbsorbConcat(INITIAL, cells[at..at + i], [cells[at + i]]);
        assert cells[at..at + i] + [cells[at + i]] == cells[at..at + i + 1];
        register := Update(register, [cells[at + i]]);
      }
      crc := Xor(INITIAL, register);
    }

    /** spi_verify_buffer, spi_verify_erased and spi_verify_pattern: every cell against what is expected there. */
    method Verify(at: nat, expected: seq<byte>) returns (ok: bool)
      requires at + |expected| <= cells.Length
      ensures ok <==> cells[at..at + |expected|] == expected
    {
      for i := 0 to |expected|
        invariant cells[at..at + i] == expected[..i]
      {
        if cells[at + i] != expected[i] {
          assert cells[at..at + |expected|][i] != expected[i];
          return false;
        }
      }
      ok := true;
    }

    /** spi_program_buffer and spi_program_pattern: page by page. */
    method ProgramBuffer(at: nat, data: seq<byte>) returns (ok: bool)
      requires at + |data| <= cells.Length && |data| % PAGE_SIZE == 0
      modifies this`healthy, this`history, cells
      ensures Records(old(history), history, cells[..]) && (ok <==> AllPages(history[old(|history|)..], at, |data|))
      ensures data != [] ==> old(|history|) < |history|
      ensures SameOutside(old(cells[..]), cells[..], at, |data|)
      ensures healthy ==> old(healthy) && ok && cells[at..at + |data|] == AndAll(old(cells[at..at + |data|]), data)
    {
      hide AndAll, AllPages, Records, PagesSince;
      ghost var before, start := cells[..], history;
      var page := 0;
      NoPages(history, at, cells[..]);
      while page < |data|
        invariant page <= |data| && page % PAGE_SIZE == 0
        invariant SameOutside(before, cells[..], at, |data|)
        invariant PagesSince(start, history, at, page, cells[..])
        invariant cells[at + page..at + |data|] == before[at + page..at + |data|]
        invariant healthy ==> old(healthy) && cells[at..at + page] == AndAll(before[at..at + page], data[..page])
      {
        ghost var now, done := cells[..], history;
        ok := ProgramPage(at + page, data[page..page + PAGE_SIZE]);
        PageDone(before, now, cells[..], at, data, page);
        PageRecorded(start, done, Programmed(at + page, ok, cells[..]), at, page, |data|, now);
        if !ok {
          return;
        }
        page := page + PAGE_SIZE;
      }
      assert data[..page] == data;
      AllRecorded(start, history, at, page, cells[..]);
      ok := true;
    }
  }

  lemma PageDone(before: seq<byte>, now: seq<byte>, after: seq<byte>, at: nat, data: seq<byte>, page: nat)
    requires page + PAGE_SIZE <= |data| && at + |data| <= |before|
    requires SameOutside(before, now, at, |data|) && SameOutside(now, after, at + page, PAGE_SIZE)
    requires now[at + page..at + |data|] == before[at + page..at + |data|]
    ensures SameOutside(before, after, at, |data|)
    ensures after[at + page + PAGE_SIZE..at + |data|] == before[at + page + PAGE_SIZE..at + |data|]
    ensures now[at..at + page] == AndAll(before[at..at + page], data[..page])
         && after[at + page..at + page + PAGE_SIZE] == AndAll(now[at + page..at + page + PAGE_SIZE], data[page..page + PAGE_SIZE])
        ==> after[at..at + page + PAGE_SIZE] == AndAll(before[at..at + page + PAGE_SIZE], data[..page + PAGE_SIZE])
  {
    SameLength(before, now, at, |data|);
    SameLength(now, after, at + page, PAGE_SIZE);
    hide AndAll, SameOutside;
    SameOutsideWider(now, after, at + page, PAGE_SIZE, at, |data|);
    SameOutsideChain(before, now, after, at, |data|);
    var p, q, end := at + page, at + page + PAGE_SIZE, at + |data|;
    BehindStays(now, after, p, PAGE_SIZE, end);
    FrontStays(now, after, p, PAGE_SIZE, at);
    WithinBoth(now, before, p, end, PAGE_SIZE, |data| - page);
    WithinBoth(now, before, p, end, 0, PAGE_SIZE);
    PartsJoin(before, after, at, p, q, data[..page], data[page..page + PAGE_SIZE]);
    SliceJoin(data, 0, page, page + PAGE_SIZE);
  }

  lemma WithinBoth(m: seq<byte>, n: seq<byte>, a: nat, b: nat, c: nat, d: nat)
    requires a <= b <= |m| == |n| && c <= d <= b - a && m[a..b] == n[a..b]
    ensures m[a + c..a + d] == n[a + c..a + d]
  {
    SliceOfSlice(m, a, b, c, d);
    SliceOfSlice(n, a, b, c, d);
  }

  lemma PartsJoin(before: seq<byte>, after: seq<byte>, a: nat, b: nat, c: nat, x: seq<byte>, y: seq<byte>)
    requires a <= b <= c <= |before| == |after| && |x| == b - a && |y| == c - b
    ensures after[a..b] == AndAll(before[a..b], x) && after[b..c] == AndAll(before[b..c], y)
        ==> after[a..c] == AndAll(before[a..c], x + y)
  {
    hide AndAll;
    SliceJoin(after, a, b, c);
    SliceJoin(before, a, b, c);
    AndAllConcat(before[a..b], x, before[b..c], y);
  }

  lemma BehindStays(before: seq<byte>, after: seq<byte>, at: nat, n: nat, end: nat)
    requires at + n <= end <= |before| && SameOutside(before, after, at, n)
    ensures after[at + n..end] == before[at + n..end]
  {
    SliceOfSlice(before, at + n, |before|, 0, end - (at + n));
    SliceOfSlice(after, at + n, |before|, 0, end - (at + n));
    assert before[at + n..|before|] == before[at + n..] && after[at + n..|before|] == after[at + n..];
  }

  lemma FrontStays(before: seq<byte>, after: seq<byte>, at: nat, n: nat, start: nat)
    requires start <= at && at + n <= |before| && SameOutside(before, after, at, n)
    ensures after[start..at] == before[start..at]
  {
    SliceOfSlice(before, 0, at, start, at);
    SliceOfSlice(after, 0, at, start, at);
    assert before[0..at] == before[..at] && after[0..at] == after[..at];
  }

  lemma AndAllConcat(a: seq<byte>, c: seq<byte>, b: seq<byte>, d: seq<byte>)
    requires |a| == |c| && |b| == |d|
    ensures AndAll(a + b, c + d) == AndAll(a, c) + AndAll(b, d)
  {
    hide And;
  }
}
