// The millisecond timer over the wrapping CP0 counter: timer_start and timer_expired.
module Clock {
  import opened Arithmetic
  import opened Bytes

  /** The configured COUNT_HZ, in whole ticks for each millisecond. */
  type Rate = r: int | 0 < r <= 0xffff_ffff / 1000 witness 208000

  /** Whole milliseconds in a number of ticks. */
  function Quotient(x: nat, rate: Rate): (q: nat)
    ensures q <= x
  {
    QuotientAtMost(x, rate);
    x / rate
  }

  /** The ticks behind them. */
  function Remainder(x: nat, rate: Rate): (r: nat)
    ensures r < rate
  {
    x % rate
  }

  lemma QuotientAtMost(x: nat, rate: Rate)
    ensures 0 <= x / rate <= x
  {
    assert x == rate * (x / rate) + x % rate;
    MulOrder(x / rate, 1, rate);
  }

  datatype Reading = Reading(last: u32, remainder: u32, elapsed: u32)

  function Started(now: u32): Reading {
    Reading(now, 0, 0)
  }

  /** The timer's fields after one poll that reads the counter as `now`. */
  function Polled(t: Reading, now: u32, rate: Rate): Reading {
    var delta := Wrap(now - t.last);
    var remainder := t.remainder + Remainder(delta, rate);
    if remainder >= rate then Reading(now, Wrap(remainder - rate), Wrap(Wrap(t.elapsed + Quotient(delta, rate)) + 1))
    else Reading(now, Wrap(remainder), Wrap(t.elapsed + Quotient(delta, rate)))
  }

  /** The poll's verdict. */
  predicate Ripe(t: Reading, limit: u32) {
    t.elapsed >= limit
  }

  class Timer {
    const rate: Rate
    var last: u32
    var remainder: u32
    var elapsed: u32

    function Now(): Reading
      reads this
    {
      Reading(last, remainder, elapsed)
    }

    /** timer_start. */
    constructor (rate: Rate, now: u32)
      ensures this.rate == rate && Now() == Started(now)
    {
      this.rate := rate;
      last, remainder, elapsed := now, 0, 0;
    }

    /** timer_expired; `now` is what the counter register reads. */
    method Expired(limit: u32, now: u32) returns (expired: bool)
      requires remainder < rate
      modifies this
      ensures Now() == Polled(old(Now()), now, rate) && remainder < rate
      ensures expired <==> Ripe(Now(), limit)
    {
      hide Wrap, Quotient, Remainder;
      var delta := Wrap(now - last);
      SmallWord(remainder + Remainder(delta, rate));
      SmallWord(remainder + Remainder(delta, rate) - rate);
      var wholeMs := Quotient(delta, rate);
      var rest := Remainder(delta, rate);
      last := now;
      elapsed := Wrap(elapsed + wholeMs);
      remainder := Wrap(remainder + rest);
      if remainder >= rate {
        elapsed := Wrap(elapsed + 1);
        remainder := Wrap(remainder - rate);
      }
      expired := elapsed >= limit;
    }
  }

  // ----- true time, counted without wrapping

  /** The polls of a run: true tick counts, each less than 2^32 ticks behind the one before. */
  predicate Polls(start: nat, times: seq<nat>)
    decreases |times|
  {
    times == [] ||
    (var last := if |times| == 1 then start else times[|times| - 2];
     last <= times[|times| - 1] < last + 0x1_0000_0000 && Polls(start, times[..|times| - 1]))
  }

  function LastPoll(start: nat, times: seq<nat>): nat {
    if times == [] then start else times[|times| - 1]
  }

  /** The timer at the end of the run, seeing only the low 32 bits of each time. */
  function After(start: nat, times: seq<nat>, rate: Rate): Reading
    decreases |times|
  {
    if times == [] then Started(Wrap(start))
    else Polled(After(start, times[..|times| - 1], rate), Wrap(times[|times| - 1]), rate)
  }

  lemma CounterDifference(a: nat, b: nat)
    requires a <= b < a + 0x1_0000_0000
    ensures Wrap(Wrap(b) - Wrap(a)) == b - a
  {
    var p, q := a / 0x1_0000_0000, b / 0x1_0000_0000;
    var d := Wrap(b) - Wrap(a);
    assert d == (b - a) - (q - p) * 0x1_0000_0000;
    assert q == p || q == p + 1;
  }

  /** One poll, over the unbounded counts of milliseconds m and ticks r since the start. */
  lemma PollExact(t: Reading, now: u32, rate: Rate, m: nat, r: nat, gap: u32)
    requires t.elapsed == Wrap(m) && t.remainder == r < rate
    requires gap == Wrap(now - t.last)
    ensures var u := Polled(t, now, rate);
            var m' := m + Quotient(gap, rate) + (if r + Remainder(gap, rate) >= rate then 1 else 0);
            && u.last == now && u.elapsed == Wrap(m')
            && u.remainder < rate && rate * m' + u.remainder == rate * m + r + gap
  {
    DivMod(gap, rate);
    hide Quotient, Remainder;
    var q, rest := Quotient(gap, rate), Remainder(gap, rate);
    WrapSum(m, q);
    WrapSum(m + q, 1);
    SmallWord(r + rest);
    SmallWord(r + rest - rate);
    hide Wrap;
    MulSum(rate, m, q);
    MulNext(rate, m + q);
  }

  lemma DivMod(x: nat, rate: Rate)
    ensures x == rate * Quotient(x, rate) + Remainder(x, rate)
  {}

  lemma MulSum(b: nat, x: nat, y: nat)
    ensures b * (x + y) == b * x + b * y
  {}

  lemma WrapSum(a: nat, b: nat)
    ensures Wrap(Wrap(a) + b) == Wrap(a + b)
  {
    var q := a / 0x1_0000_0000;
    assert a + b == q * 0x1_0000_0000 + (Wrap(a) + b);
    WrapMultiple(Wrap(a) + b, q);
  }

  lemma WrapMultiple(x: int, q: int)
    ensures Wrap(q * 0x1_0000_0000 + x) == Wrap(x)
  {}

  /** Polled often enough, the timer counts true milliseconds and the ticks behind them, across any number of counter wraps. */
  lemma {:induction false} TimerIsExact(start: nat, times: seq<nat>, rate: Rate)
    requires Polls(start, times)
    ensures start <= LastPoll(start, times)
    ensures var t, ticks := After(start, times, rate), LastPoll(start, times) - start;
            && t.last == Wrap(LastPoll(start, times))
            && t.elapsed == Wrap(Quotient(ticks, rate))
            && t.remainder == Remainder(ticks, rate)
    decreases |times|
  {
    hide Wrap, Polled, Quotient, Remainder;
    if times == [] {
      NothingElapsed(rate);
    } else {
      var before, now := times[..|times| - 1], times[|times| - 1];
      TimerIsExact(start, before, rate);
      var last := LastPoll(start, before);
      assert last == if |times| == 1 then start else times[|times| - 2];
      OnePoll(After(start, before, rate), rate, start, last, now);
    }
  }

  lemma NothingElapsed(rate: Rate)
    ensures Wrap(Quotient(0, rate)) == 0 && Remainder(0, rate) == 0
  {}

  lemma OnePoll(t: Reading, rate: Rate, start: nat, last: nat, now: nat)
    requires start <= last <= now < last + 0x1_0000_0000
    requires t.last == Wrap(last) && t.elapsed == Wrap(Quotient(last - start, rate)) && t.remainder == Remainder(last - start, rate)
    ensures Polled(t, Wrap(now), rate) == Reading(Wrap(now), Remainder(now - start, rate), Wrap(Quotient(now - start, rate)))
  {
    hide Wrap, Polled, Quotient, Remainder;
    var ticks, gap := last - start, now - last;
    CounterDifference(last, now);
    DivMod(ticks, rate);
    var m, r := Quotient(ticks, rate), Remainder(ticks, rate);
    PollExact(t, Wrap(now), rate, m, r, gap);
    var m' := m + Quotient(gap, rate) + (if r + Remainder(gap, rate) >= rate then 1 else 0);
    DivisionUnique(now - start, rate, m', Polled(t, Wrap(now), rate).remainder);
  }

  lemma DivisionUnique(x: nat, rate: Rate, q: nat, r: nat)
    requires x == rate * q + r && r < rate
    ensures Quotient(x, rate) == q && Remainder(x, rate) == r
  {
    DivMod(x, rate);
    hide Quotient, Remainder;
    var p := Quotient(x, rate);
    if p < q {
      MulOrder(rate, p + 1, q);
      MulNext(rate, p);
    } else if q < p {
      MulOrder(rate, q + 1, p);
      MulNext(rate, q);
    }
  }

  /** So a poll reports expiry exactly when the true time has reached the limit, as long as the millisecond count
      itself has not wrapped; and once it has wrapped the report is taken from the wrapped count. */
  lemma ExpiryIsExact(start: nat, times: seq<nat>, rate: Rate, limit: u32)
    requires Polls(start, times)
    ensures start <= LastPoll(start, times)
    ensures var ms := Quotient(LastPoll(start, times) - start, rate);
            && (ms < 0x1_0000_0000 ==> (Ripe(After(start, times, rate), limit) <==> ms >= limit))
            && (Ripe(After(start, times, rate), limit) <==> Wrap(ms) >= limit)
  {
    hide After, Polls, Quotient, Remainder;
    TimerIsExact(start, times, rate);
    SmallWord(Quotient(LastPoll(start, times) - start, rate));
  }

  lemma SmallWord(x: int)
    ensures 0 <= x < 0x1_0000_0000 ==> Wrap(x) == x
  {}

  /** The polling distance is sharp: a gap of 2^32 ticks or more is never counted in full. */
  lemma LatePollLosesTime(a: nat, b: nat)
    requires a <= b
    ensures Wrap(Wrap(b) - Wrap(a)) == b - a <==> b - a < 0x1_0000_0000
  {
    if b < a + 0x1_0000_0000 {
      CounterDifference(a, b);
    }
  }
}
