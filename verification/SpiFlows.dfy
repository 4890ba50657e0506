// The scratch-sector preflight and the full rewrite of payloads/uart-firmware-recovery/recovery.c.
module SpiFlows {
  import opened Bytes
  import opened Crc32
  import opened Words
  import opened NorFlash

  /** The fields of the request that the preflight checks, plus the seed of its pattern. */
  datatype Request = Request(version: u32, flags: bv32, scratchAddress: u32, scratchSize: u32, seed: bv32)

  const FLAG_RESTORE: bv32 := 1

  predicate RequestGood(r: Request) {
    && r.version == 1
    && r.flags & !FLAG_RESTORE == 0
    && r.flags & FLAG_RESTORE != 0
    && r.scratchSize == ERASE_SIZE
    && !(r.scratchAddress < LOADER_BYTES)
    && !(r.scratchAddress > FLASH_BYTES - ERASE_SIZE)
    && r.scratchAddress % ERASE_SIZE == 0
  }

  /** A good request asks, with exactly the restore flag, for one of the whole sectors behind the loader. */
  lemma RequestExactly(r: Request)
    ensures RequestGood(r)
       <==> (&& r.version == 1 && r.flags == 1 && r.scratchSize == 0x1_0000
             && exists k: nat :: 4 <= k <= 255 && r.scratchAddress == 0x1_0000 * k)
  {
    OnlyRestore(r.flags);
    if RequestGood(r) {
      var k := r.scratchAddress / 0x1_0000;
      assert r.scratchAddress == 0x1_0000 * k;
    }
  }

  lemma OnlyRestore(flags: bv32)
    ensures flags & !FLAG_RESTORE == 0 && flags & FLAG_RESTORE != 0 <==> flags == 1
  {}

  // ----- the test pattern

  /** The mixing of preflight_pattern_byte, folded to its last byte. */
  function Stirred(v: bv32): bv32 {
    var v1 := v ^ (v << 13);
    var v2 := v1 ^ (v1 >> 17);
    var v3 := v2 ^ (v2 << 5);
    (v3 ^ (v3 >> 8) ^ (v3 >> 16) ^ (v3 >> 24)) & 0xff
  }

  /** preflight_pattern_byte. */
  function PatternByte(offset: bv32, seed: bv32): byte {
    LowByte(Stirred(seed ^ (offset * 0x45d9f3b) ^ (offset << 16) ^ (offset >> 3)))
  }

  function Pattern(n: nat, seed: bv32): (r: seq<byte>)
    requires n <= ERASE_SIZE
    ensures |r| == n
  {
    seq(n, i requires 0 <= i < n => PatternByte(i as bv32, seed))
  }

  lemma BitsDiffer(v: bv32)
    ensures var v1 := v ^ (v << 13);
            var v2 := v1 ^ (v1 >> 17);
            var v3 := v2 ^ (v2 << 5);
            var w := v ^ 0x45c9f3b;
            var w1 := w ^ (w << 13);
            var w2 := w1 ^ (w1 >> 17);
            var w3 := w2 ^ (w2 << 5);
            (v3 ^ (v3 >> 8) ^ (v3 >> 16) ^ (v3 >> 24)) & 0xff != (w3 ^ (w3 >> 8) ^ (w3 >> 16) ^ (w3 >> 24)) & 0xff
  {}

  lemma StirredDiffers(v: bv32)
    ensures Stirred(v) != Stirred(v ^ 0x45c9f3b)
  {
    BitsDiffer(v);
  }

  lemma FirstWords(seed: bv32)
    ensures PatternByte(0, seed) == LowByte(Stirred(seed))
    ensures PatternByte(1, seed) == LowByte(Stirred(seed ^ 0x45c9f3b))
  {
    hide Stirred, LowByte;
    OffsetWords(seed);
  }

  lemma OffsetWords(seed: bv32)
    ensures var o: bv32 := 0; seed ^ (o * 0x45d9f3b) ^ (o << 16) ^ (o >> 3) == seed
    ensures var o: bv32 := 1; seed ^ (o * 0x45d9f3b) ^ (o << 16) ^ (o >> 3) == seed ^ 0x45c9f3b
  {}

  lemma StirredIsByte(v: bv32)
    ensures Stirred(v) & 0xff == Stirred(v)
  {}

  lemma LowBytesDiffer(a: bv32, b: bv32)
    requires a & 0xff != b & 0xff
    ensures LowByte(a) != LowByte(b)
  {
    WordOfLowByte(a);
    WordOfLowByte(b);
    hide Word, LowByte;
  }

  lemma FirstBytes(seed: bv32)
    ensures Pattern(ERASE_SIZE, seed)[0] == PatternByte(0, seed) && Pattern(ERASE_SIZE, seed)[1] == PatternByte(1, seed)
  {
    hide PatternByte;
  }

  /** The first two bytes of the pattern always differ, so no pattern is blank, whatever the seed. */
  lemma PatternIsNotBlank(seed: bv32)
    ensures PatternByte(0, seed) != PatternByte(1, seed)
    ensures Pattern(ERASE_SIZE, seed) != Fill(ERASE_SIZE, 0xff)
  {
    hide Stirred, LowByte, PatternByte, Pattern;
    FirstWords(seed);
    StirredDiffers(seed);
    StirredIsByte(seed);
    StirredIsByte(seed ^ 0x45c9f3b);
    LowBytesDiffer(Stirred(seed), Stirred(seed ^ 0x45c9f3b));
    FirstBytes(seed);
  }

  datatype Outcome = BadRequest | RestoreFailed | LoaderChanged | ReadWriteFailed | PreflightOk

  /** Some content recorded from position `from` of the history on had this data at this place. */
  predicate Held(history: seq<Deed>, from: nat, at: nat, data: seq<byte>) {
    exists k :: from <= k < |history| && Stands(history[k].cells, at, data)
  }

  predicate Stands(cells: seq<byte>, at: nat, data: seq<byte>) {
    at + |data| <= |cells| && cells[at..at + |data|] == data
  }

  /** One erase and the programming behind it, seen in the history: the erase was reported done and left the sector blank,
      every page was reported done, and at the end the data stood in the sector. */
  predicate Written(h: seq<Deed>, at: nat, data: seq<byte>) {
    && h != [] && h[0].Erased? && h[0].at == at && h[0].said && Stands(h[0].cells, at, Fill(|data|, 0xff))
    && AllPages(h[1..], at, |data|)
    && Stands(h[|h| - 1].cells, at, data)
  }

  /** One erase, and pages behind it. */
  predicate Phase(h: seq<Deed>) {
    h != [] && h[0].Erased? && forall k :: 0 < k < |h| ==> h[k].Programmed?
  }

  lemma SecondErase(t: seq<Deed>, r: seq<Deed>, all: seq<Deed>)
    requires Phase(t) && Phase(r) && all == t + r
    ensures |t| < |all| && all[|t|].Erased? && forall k :: 0 < k < |t| ==> !all[k].Erased?
  {}

  /** A history is made of two phases in one way only. */
  lemma PhasesAreUnique(t: seq<Deed>, r: seq<Deed>, t': seq<Deed>, r': seq<Deed>)
    requires Phase(t) && Phase(r) && Phase(t') && Phase(r') && t + r == t' + r'
    ensures t == t' && r == r'
  {
    SecondErase(t, r, t + r);
    SecondErase(t', r', t' + r');
    assert t == (t + r)[..|t|] && t' == (t' + r')[..|t'|];
    assert r == (t + r)[|t|..] && r' == (t' + r')[|t'|..];
  }

  lemma HeldThen(before: seq<Deed>, h: seq<Deed>, after: seq<Deed>, at: nat, data: seq<byte>)
    requires Written(h, at, data)
    ensures Held(before + h + after, |before|, at, Fill(|data|, 0xff)) && Held(before + h + after, |before|, at, data)
  {
    hide Stands, AllPages;
    var all := before + h + after;
    assert all[|before|] == h[0] && all[|before| + |h| - 1] == h[|h| - 1];
  }

  /** One phase: erase, check, program, and read back. */
  method WriteSector(chip: Chip, at: nat, data: seq<byte>) returns (ok: bool)
    requires chip.cells.Length == FLASH_BYTES && at + ERASE_SIZE <= FLASH_BYTES && |data| == ERASE_SIZE
    modifies chip, chip.cells
    ensures SameOutside(old(chip.cells[..]), chip.cells[..], at, ERASE_SIZE)
    ensures chip.healthy ==> old(chip.healthy) && ok
    ensures chip.erases == old(chip.erases) + 1 && old(chip.history) <= chip.history
    ensures var h := chip.history[old(|chip.history|)..]; Phase(h) && (ok <==> Written(h, at, data))
    ensures ok ==> chip.cells[at..at + ERASE_SIZE] == data
  {
    hide AndAll, Fill, SameOutside, AllPages, Pattern;
    ghost var before, from := chip.cells[..], |chip.history|;
    ok := chip.EraseBlock(at);
    ghost var erase := chip.history[from];
    assert chip.history[from..] == [erase];
    SliceSame(chip.cells, at, ERASE_SIZE);
    if ok {
      ok := chip.Verify(at, Fill(ERASE_SIZE, 0xff));
    }
    if ok {
      ghost var erased := chip.cells[..];
      ok := chip.ProgramBuffer(at, data);
      SameOutsideChain(before, erased, chip.cells[..], at, ERASE_SIZE);
      assert erased[at..at + ERASE_SIZE] == Fill(ERASE_SIZE, 0xff);
      AndErasedAll(ERASE_SIZE, data);
      assert chip.history[from..][1..] == chip.history[from + 1..] && chip.history[from..][0] == erase;
      SliceSame(chip.cells, at, ERASE_SIZE);
      if ok {
        ok := chip.Verify(at, data);
      }
    }
  }

  lemma SliceSame(cells: array<byte>, at: nat, n: nat)
    requires at + n <= cells.Length
    ensures cells[..][at..at + n] == cells[at..at + n]
  {}

  /** A memory is determined by a block and what is around it. */
  lemma BlockRestored(before: seq<byte>, after: seq<byte>, at: nat, n: nat)
    requires at + n <= |before| && SameOutside(before, after, at, n)
    requires after[at..at + n] == before[at..at + n]
    ensures after == before
  {
    assert before == before[..at] + before[at..at + n] + before[at + n..];
    assert after == after[..at] + after[at..at + n] + after[at + n..];
  }

  lemma LoaderOutside(before: seq<byte>, after: seq<byte>, at: nat, n: nat)
    requires at + n <= |before| && SameOutside(before, after, at, n) && LOADER_BYTES <= at
    ensures after[..LOADER_BYTES] == before[..LOADER_BYTES]
  {
    assert before[..LOADER_BYTES] == before[..at][..LOADER_BYTES];
    assert after[..LOADER_BYTES] == after[..at][..LOADER_BYTES];
  }

  /** What the two phases of a good request decide. */
  function Verdict(t: seq<Deed>, r: seq<Deed>, at: nat, pattern: seq<byte>, backup: seq<byte>): Outcome {
    if !Written(r, at, backup) then RestoreFailed else if !Written(t, at, pattern) then ReadWriteFailed else PreflightOk
  }

  /** spi_scratch_preflight. */
  method ScratchPreflight(chip: Chip, request: Request) returns (outcome: Outcome)
    requires chip.cells.Length == FLASH_BYTES
    modifies chip, chip.cells
    ensures outcome == BadRequest <==> !RequestGood(request)
    // every run that does not end in a failed restore leaves the whole flash as it was
    ensures outcome != RestoreFailed ==> chip.cells[..] == old(chip.cells[..])
    // no run changes a cell outside the scratch sector
    ensures RequestGood(request) ==> SameOutside(old(chip.cells[..]), chip.cells[..], request.scratchAddress, ERASE_SIZE)
    // the changed-loader branch cannot be taken
    ensures outcome != LoaderChanged
    // and so the loader region is never touched
    ensures chip.cells[..LOADER_BYTES] == old(chip.cells[..LOADER_BYTES])
    // passing means that the sector was erased blank and then held the whole test pattern; without that, a good request
    // that is restored is reported as failed
    ensures outcome == PreflightOk ==>
              && Held(chip.history, old(|chip.history|), request.scratchAddress, Fill(ERASE_SIZE, 0xff))
              && Held(chip.history, old(|chip.history|), request.scratchAddress, Pattern(ERASE_SIZE, request.seed))
    ensures RequestGood(request) && outcome != RestoreFailed
         && !Held(chip.history, old(|chip.history|), request.scratchAddress, Pattern(ERASE_SIZE, request.seed))
         ==> outcome == ReadWriteFailed
    // exactly: a good request makes a test phase and a restore phase, and what the chip did and said in them decides
    ensures RequestGood(request) ==>
              exists t, r :: Phase(t) && Phase(r) && chip.history == old(chip.history) + t + r
                && outcome == Verdict(t, r, request.scratchAddress, Pattern(ERASE_SIZE, request.seed),
                                      old(chip.cells[..])[request.scratchAddress..request.scratchAddress + ERASE_SIZE])
    ensures !RequestGood(request) ==> chip.history == old(chip.history)
    ensures chip.erases == old(chip.erases) + (if RequestGood(request) then 2 else 0)
    // a chip that does what it says passes
    ensures chip.healthy && RequestGood(request) ==> outcome == PreflightOk
  {
    hide Crc, SameOutside, Pattern, Held, Fill, Phase, Written;
    if request.version != 1 || request.flags & !FLAG_RESTORE != 0 || request.flags & FLAG_RESTORE == 0
       || request.scratchSize != ERASE_SIZE || request.scratchAddress < LOADER_BYTES
       || request.scratchAddress > FLASH_BYTES - ERASE_SIZE || request.scratchAddress % ERASE_SIZE != 0 {
      return BadRequest;
    }
    var at := request.scratchAddress;
    ghost var start, before := chip.cells[..], chip.history;
    var loaderBefore := chip.CrcRange(0, LOADER_BYTES);
    var backup := chip.ReadBlock(at, ERASE_SIZE);
    assert backup == start[at..at + ERASE_SIZE];
    var testOk := WriteSector(chip, at, Pattern(ERASE_SIZE, request.seed));
    ghost var tested, test := chip.cells[..], chip.history[|before|..];
    ghost var recorded := chip.history;
    assert recorded == before + test;
    var restoreOk := WriteSector(chip, at, backup);
    ghost var restore := chip.history[|recorded|..];
    assert chip.history == before + test + restore;
    SameOutsideChain(start, tested, chip.cells[..], at, ERASE_SIZE);
    LoaderOutside(start, chip.cells[..], at, ERASE_SIZE);
    if testOk {
      HeldThen(before, test, restore, at, Pattern(ERASE_SIZE, request.seed));
    }
    if !restoreOk {
      return RestoreFailed;
    }
    BlockRestored(start, chip.cells[..], at, ERASE_SIZE);
    var loaderAfter := chip.CrcRange(0, LOADER_BYTES);
    assert chip.cells[0..LOADER_BYTES] == chip.cells[..][0..LOADER_BYTES];
    assert start[0..LOADER_BYTES] == old(chip.cells[0..LOADER_BYTES]);
    if loaderAfter != loaderBefore {
      return LoaderChanged;
    }
    if !testOk {
      return ReadWriteFailed;
    }
    outcome := PreflightOk;
  }

  // ----- the full rewrite

  /** Consecutive blocks from the start of the flash on, n bytes in all, each reported as erased and blank at both ends. */
  predicate AllBlocks(h: seq<Deed>, n: nat) {
    && ERASE_SIZE * |h| == n
    && forall k :: 0 <= k < |h| ==> BlockErased(h[k]) && h[k].at == ERASE_SIZE * k
  }

  predicate BlockErased(d: Deed) {
    && d.Erased? && d.said && d.at + ERASE_SIZE <= |d.cells|
    && d.cells[d.at] == 0xff && d.cells[d.at + ERASE_SIZE - 1] == 0xff
  }

  /** Only erases since `was`, all of them done. */
  predicate BlocksSince(was: seq<Deed>, h: seq<Deed>, n: nat) {
    was <= h && AllBlocks(h[|was|..], n)
  }

  lemma NoBlocks(h: seq<Deed>)
    ensures BlocksSince(h, h, 0)
  {}

  lemma BlockRecorded(was: seq<Deed>, h: seq<Deed>, d: Deed, n: nat)
    requires BlocksSince(was, h, n) && d.at == n < FLASH_BYTES && n % ERASE_SIZE == 0
    ensures was <= h + [d] && |(h + [d])[|was|..]| <= 256
    ensures BlockErased(d) ==> BlocksSince(was, h + [d], n + ERASE_SIZE)
    ensures !BlockErased(d) ==> !AllBlocks((h + [d])[|was|..], FLASH_BYTES)
  {
    hide BlockErased;
    var blocks := (h + [d])[|was|..];
    assert blocks == h[|was|..] + [d] && blocks[|h| - |was|] == d;
  }

  lemma AllRecordedBlocks(was: seq<Deed>, h: seq<Deed>, n: nat)
    requires BlocksSince(was, h, n)
    ensures was <= h && AllBlocks(h[|was|..], n) && (n == FLASH_BYTES ==> |h| == |was| + 256)
  {}

  /** spi_erase_full: every block, with its first and last byte read back. */
  method EraseFull(chip: Chip) returns (ok: bool)
    requires chip.cells.Length == FLASH_BYTES
    modifies chip, chip.cells
    ensures chip.healthy ==> old(chip.healthy) && ok && chip.cells[..] == Fill(FLASH_BYTES, 0xff)
    ensures old(chip.history) <= chip.history && |chip.history| <= old(|chip.history|) + 256
    ensures ok <==> AllBlocks(chip.history[old(|chip.history|)..], FLASH_BYTES)
  {
    hide SameOutside, AllBlocks, BlocksSince;
    ghost var was := chip.history;
    var at := 0;
    NoBlocks(was);
    while at < FLASH_BYTES
      invariant at <= FLASH_BYTES && at % ERASE_SIZE == 0
      invariant chip.healthy ==> old(chip.healthy) && chip.cells[..at] == Fill(at, 0xff)
      invariant BlocksSince(was, chip.history, at)
    {
      ghost var before, h := chip.cells[..], chip.history;
      ok := chip.EraseBlock(at);
      PrefixStays(before, chip.cells[..], at, ERASE_SIZE);
      BlockRecorded(was, h, Erased(at, ok, chip.cells[..]), at);
      if !ok {
        return;
      }
      ghost var block := chip.cells[at..at + ERASE_SIZE];
      assert block[0] == chip.cells[at] && block[ERASE_SIZE - 1] == chip.cells[at + ERASE_SIZE - 1];
      if chip.cells[at] != 0xff || chip.cells[at + ERASE_SIZE - 1] != 0xff {
        return false;
      }
      assert chip.cells[..at + ERASE_SIZE] == chip.cells[..at] + chip.cells[at..at + ERASE_SIZE];
      at := at + ERASE_SIZE;
    }
    assert chip.cells[..at] == chip.cells[..];
    AllRecordedBlocks(was, chip.history, at);
    ok := true;
  }

  lemma PrefixStays(before: seq<byte>, after: seq<byte>, at: nat, n: nat)
    requires at + n <= |before| && SameOutside(before, after, at, n)
    ensures |after| == |before| && after[..at] == before[..at]
  {}

  /** spi_program_full: every page from the staged image. */
  method ProgramFull(chip: Chip, staging: array<byte>) returns (ok: bool)
    requires chip.cells.Length == FLASH_BYTES == staging.Length && staging != chip.cells
    modifies chip, chip.cells
    ensures chip.healthy ==> old(chip.healthy) && ok && chip.cells[..] == AndAll(old(chip.cells[..]), staging[..])
    ensures Records(old(chip.history), chip.history, chip.cells[..]) && old(|chip.history|) < |chip.history|
    ensures ok <==> AllPages(chip.history[old(|chip.history|)..], 0, FLASH_BYTES)
  {
    hide AndAll, SameOutside, AllPages, Records;
    ghost var start := chip.cells[..];
    assert FLASH_BYTES % PAGE_SIZE == 0;
    var image := staging[..];
    ok := chip.ProgramBuffer(0, image);
    assert chip.cells[0..FLASH_BYTES] == chip.cells[..] && start[0..FLASH_BYTES] == start;
    assert old(chip.cells[0..FLASH_BYTES]) == start;
  }

  /** spi_verify_full: every cell against the staged image, one erase block at a time. */
  method VerifyFull(chip: Chip, staging: array<byte>) returns (ok: bool)
    requires chip.cells.Length == FLASH_BYTES == staging.Length
    ensures ok <==> chip.cells[..] == staging[..]
  {
    var at := 0;
    while at < FLASH_BYTES
      invariant at <= FLASH_BYTES && at % ERASE_SIZE == 0
      invariant chip.cells[..at] == staging[..at]
    {
      var same := chip.Verify(at, staging[at..at + ERASE_SIZE]);
      if !same {
        assert chip.cells[at..at + ERASE_SIZE] == chip.cells[..][at..at + ERASE_SIZE];
        assert staging[at..at + ERASE_SIZE] == staging[..][at..at + ERASE_SIZE];
        return false;
      }
      assert chip.cells[..at + ERASE_SIZE] == chip.cells[..at] + chip.cells[at..at + ERASE_SIZE];
      assert staging[..at + ERASE_SIZE] == staging[..at] + staging[at..at + ERASE_SIZE];
      at := at + ERASE_SIZE;
    }
    assert chip.cells[..at] == chip.cells[..] && staging[..at] == staging[..];
    ok := true;
  }

  /** The history of a rewrite: 256 blocks erased, then 65536 pages programmed, and at the end the image. */
  predicate Rewritten(h: seq<Deed>, image: seq<byte>) {
    && |h| == 256 + 65536
    && AllBlocks(h[..256], FLASH_BYTES) && AllPages(h[256..], 0, FLASH_BYTES)
    && h[|h| - 1].cells == image
  }

  lemma RewriteParts(was: seq<Deed>, erased: seq<Deed>, h: seq<Deed>, cells: seq<byte>)
    requires was <= erased && AllBlocks(erased[|was|..], FLASH_BYTES) && Records(erased, h, cells) && |erased| < |h|
    ensures was <= h && h[|was|..] != []
    ensures Rewritten(h[|was|..], cells) <==> AllPages(h[|erased|..], 0, FLASH_BYTES)
    ensures forall image :: Rewritten(h[|was|..], image) ==> image == cells
  {
    hide BlockErased;
    assert |erased| == |was| + 256;
    var all := h[|was|..];
    assert erased == h[..|erased|];
    assert all[..256] == erased[|was|..] && all[256..] == h[|erased|..];
  }

  /** The three passes: success means the flash is the image, and a healthy chip always succeeds; exactly, it is reported
      when every block and page was reported done, every block was blank at both ends, and the image stands at the end. */
  method Rewrite(chip: Chip, staging: array<byte>) returns (ok: bool)
    requires chip.cells.Length == FLASH_BYTES == staging.Length && staging != chip.cells
    modifies chip, chip.cells
    ensures ok ==> chip.cells[..] == staging[..]
    ensures chip.healthy ==> ok
    ensures old(chip.history) <= chip.history
    ensures ok <==> Rewritten(chip.history[old(|chip.history|)..], staging[..])
  {
    hide Fill, AndAll, Rewritten, AllBlocks, AllPages, Records;
    ghost var was := chip.history;
    ok := EraseFull(chip);
    if !ok {
      StopsEarly(chip.history[|was|..], staging[..]);
      return;
    }
    ghost var erased := chip.history;
    ok := ProgramFull(chip, staging);
    RewriteParts(was, erased, chip.history, chip.cells[..]);
    if !ok {
      return;
    }
    AndErasedAll(FLASH_BYTES, staging[..]);
    ok := VerifyFull(chip, staging);
  }

  lemma StopsEarly(h: seq<Deed>, image: seq<byte>)
    requires |h| <= 256
    ensures !Rewritten(h, image)
  {}
}
