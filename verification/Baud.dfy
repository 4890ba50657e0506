// Baud-rate arithmetic of payloads/uart-firmware-recovery/recovery.c, in 32-bit words.
module Baud {
  import opened Arithmetic
  import opened Bytes

  /** Unsigned division. */
  function Quotient(x: u32, d: u32): u32
    requires d != 0
  {
    QuotientAtMost(x, d);
    x / d
  }

  /** uart_nearest_divisor; the source divides by requested * 16, which must not wrap to zero. */
  function NearestDivisor(clock: u32, requested: u32): u32
    requires requested == 0 || Wrap(requested * 16) != 0
  {
    if requested == 0 then 0xffff
    else
      var divisor := Quotient(Wrap(clock + Wrap(requested * 8)), Wrap(requested * 16));
      if divisor == 0 then 1 else if divisor > 0xffff then 0xffff else divisor
  }

  /** uart_actual_rate, for the divisors uart_set_divisor can set. */
  function ActualRate(clock: u32, divisor: u32): u32
    requires divisor <= 0xffff
  {
    Quotient(clock, 16 * (if divisor == 0 then 1 else divisor))
  }

  /** The rate is the clock over sixteen times the divisor, rounded down; a zero divisor counts as one. */
  lemma RateIsQuotient(clock: u32, divisor: u32)
    requires divisor <= 0xffff
    ensures var steps, rate := if divisor == 0 then 16 else 16 * divisor, ActualRate(clock, divisor);
            steps * rate <= clock < steps * rate + steps
  {
    var steps := if divisor == 0 then 16 else 16 * divisor;
    assert clock == steps * (clock / steps) + clock % steps;
  }

  function Abs(x: int): nat {
    if x < 0 then -x else x
  }

  /** How far a divisor's rate is from the requested one, with the division multiplied out. */
  function Miss(clock: u32, requested: u32, divisor: u32): nat {
    Abs(clock - (16 * requested) * divisor)
  }

  /** The quotient that rounds to the nearest multiple. */
  lemma Rounded(clock: u32, requested: u32) returns (q: nat)
    requires 0 < requested < 0x1000_0000 && clock < 0x8000_0000
    ensures q == (clock + 8 * requested) / (16 * requested)
    ensures (16 * requested) * q <= clock + 8 * requested < (16 * requested) * q + 16 * requested
    ensures Wrap(requested * 16) == 16 * requested && Wrap(clock + Wrap(requested * 8)) == clock + 8 * requested
  {
    var b, x := 16 * requested, clock + 8 * requested;
    q := x / b;
    assert x == b * (x / b) + x % b;
  }

  /** Among all divisors the hardware takes, the computed one is nearest; unclamped, it is within half a step. */
  lemma NearestIsNearest(clock: u32, requested: u32, other: u32)
    requires 0 < requested < 0x1000_0000 && clock < 0x8000_0000
    requires 1 <= other <= 0xffff
    ensures 1 <= NearestDivisor(clock, requested) <= 0xffff
    ensures Miss(clock, requested, NearestDivisor(clock, requested)) <= Miss(clock, requested, other)
    ensures 1 < NearestDivisor(clock, requested) < 0xffff ==> Miss(clock, requested, NearestDivisor(clock, requested)) <= 8 * requested
  {
    var q := Rounded(clock, requested);
    var b := 16 * requested;
    var d := NearestDivisor(clock, requested);
    assert d == if q == 0 then 1 else if q > 0xffff then 0xffff else q;
    if other < q {
      MulOrder(b, other, q - 1);
      MulNext(b, q - 1);
    } else if q < other {
      MulOrder(b, q + 1, other);
      MulNext(b, q);
    }
    if d < q {
      MulOrder(b, d, q - 1);
      MulOrder(b, other, d);
      MulNext(b, q - 1);
    } else if q < d {
      MulOrder(b, d, other);
      MulNext(b, 0);
    }
  }

  /** The difference the offer reports is at most the requested rate, or small because the divisor was clamped. */
  lemma DifferenceBound(clock: u32, requested: u32)
    requires 0 < requested < 0x1000_0000 && clock < 0x8000_0000
    ensures var difference := Abs(ActualRate(clock, NearestDivisor(clock, requested)) - requested);
            difference <= requested || difference <= 4294
  {
    var q := Rounded(clock, requested);
    var d := NearestDivisor(clock, requested);
    var actual := ActualRate(clock, d);
    if q > 0xffff {
      assert actual == clock / 1048560;
    } else if q >= 1 {
      assert clock < (16 * requested) * q + 8 * requested;
      RateBound(clock, requested, q);
    }
  }

  lemma RateBound(clock: u32, requested: u32, q: nat)
    requires 1 <= q && clock < (16 * requested) * q + 8 * requested
    ensures clock / (16 * q) <= 2 * requested
  {
    var b := 16 * q;
    assert (16 * requested) * q == b * requested;
    MulOrder(requested, 1, 2 * q);
    assert requested * (2 * q) == 2 * (requested * q);
    assert b * requested == 16 * (requested * q);
    assert clock < b * (2 * requested);
    QuotientBelow(clock, b, 2 * requested);
  }

  lemma QuotientBelow(x: nat, b: nat, n: nat)
    requires b > 0 && x < b * n
    ensures x / b <= n
  {
    assert x == b * (x / b) + x % b;
    if x / b > n {
      MulOrder(b, n, x / b);
    }
  }

  // ----- the scaled ratio in parts per million

  function Pow2(k: nat): (p: nat)
    ensures p > 0
  {
    if k == 0 then 1 else 2 * Pow2(k - 1)
  }

  /** x / 2^k rounded up. */
  function Ceil(x: nat, k: nat): nat {
    (x + (Pow2(k) - 1)) / Pow2(k)
  }

  lemma CeilBounds(x: nat, k: nat)
    ensures x <= Pow2(k) * Ceil(x, k) < x + Pow2(k)
  {
    var p, y := Pow2(k), x + (Pow2(k) - 1);
    assert y == p * (y / p) + y % p;
  }

  lemma CeilUnique(x: nat, k: nat, c: nat)
    requires x <= Pow2(k) * c < x + Pow2(k)
    ensures c == Ceil(x, k)
  {
    var p := Pow2(k);
    CeilBounds(x, k);
    if c < Ceil(x, k) {
      MulOrder(p, c + 1, Ceil(x, k));
      MulNext(p, c);
    } else if Ceil(x, k) < c {
      MulOrder(p, Ceil(x, k) + 1, c);
      MulNext(p, Ceil(x, k));
    }
  }

  /** Halving with the odd unit kept is halving rounded up. */
  lemma CeilHalves(x: nat, k: nat)
    ensures Ceil(x, k) / 2 + Ceil(x, k) % 2 == Ceil(x, k + 1)
  {
    hide Ceil;
    var c := Ceil(x, k);
    CeilBounds(x, k);
    HalfBounds(x, Pow2(k), c);
    CeilUnique(x, k + 1, c / 2 + c % 2);
  }

  lemma HalfBounds(x: nat, p: nat, c: nat)
    requires x <= p * c < x + p
    ensures x <= (2 * p) * (c / 2 + c % 2) < x + 2 * p
  {
    var h := c / 2 + c % 2;
    TwiceProduct(p, h);
    MulNext(p, c);
    assert 2 * h == c || 2 * h == c + 1;
  }

  lemma TwiceProduct(p: nat, h: nat)
    ensures (2 * p) * h == p * (2 * h)
  {}

  lemma CeilOrder(x: nat, y: nat, k: nat)
    requires x <= y
    ensures Ceil(x, k) <= Ceil(y, k)
  {
    CeilBounds(x, k);
    CeilBounds(y, k);
    var p := Pow2(k);
    if Ceil(y, k) < Ceil(x, k) {
      MulOrder(p, Ceil(y, k) + 1, Ceil(x, k));
      MulNext(p, Ceil(y, k));
    }
  }

  lemma CeilStart(x: nat)
    ensures Ceil(x, 0) == x
  {
    CeilUnique(x, 0, x);
  }

  lemma CeilSmall(x: nat, k: nat)
    ensures Ceil(x, k) <= x
    ensures x > 0 ==> Ceil(x, k) > 0
  {
    CeilBounds(x, k);
    var p, c := Pow2(k), Ceil(x, k);
    if c > x {
      MulOrder(p, x + 1, c);
      MulNext(p, x);
      MulOrder(x, 1, p);
    }
  }

  /** The reported error for a scaled pair, with the product in 32 bits. */
  function Millionths(d: nat, r: nat): nat
    requires r > 0
  {
    Wrap(d * 1000000) / r
  }

  /** k halvings are enough, and no fewer are. */
  predicate Scaled(difference: u32, requested: u32, k: nat) {
    && Ceil(requested, k) > 0
    && (Ceil(difference, k) <= 4294 || Ceil(requested, k) <= 1)
    && (k > 0 ==> Ceil(difference, k - 1) > 4294 && Ceil(requested, k - 1) > 1)
  }

  /** The scaling loop of handle_baud_offer: after k halvings both values are their originals over 2^k, rounded up. */
  method ErrorPpm(difference: u32, requested: u32) returns (ppm: u32)
    requires requested > 0
    ensures exists k: nat :: Scaled(difference, requested, k)
              && ppm == Millionths(Ceil(difference, k), Ceil(requested, k))
              && (difference <= requested || difference <= 4294 ==> Ceil(difference, k) * 1000000 < 0x1_0000_0000)
  {
    hide Ceil, Pow2, Millionths;
    var scaledDifference, scaledRequested := difference, requested;
    ghost var k := 0;
    CeilStart(difference);
    CeilStart(requested);
    while scaledDifference > 0xffffffff / 1000000 && scaledRequested > 1
      invariant scaledDifference == Ceil(difference, k) && scaledRequested == Ceil(requested, k)
      invariant scaledRequested > 0
      invariant k > 0 ==> Ceil(difference, k - 1) > 4294 && Ceil(requested, k - 1) > 1
      decreases scaledDifference
    {
      CeilHalves(difference, k);
      CeilHalves(requested, k);
      scaledDifference := scaledDifference / 2 + scaledDifference % 2;
      scaledRequested := scaledRequested / 2 + scaledRequested % 2;
      k := k + 1;
    }
    CeilSmall(difference, k);
    if difference <= requested {
      CeilOrder(difference, requested, k);
    }
    MillionthsWord(scaledDifference, scaledRequested);
    assert Scaled(difference, requested, k);
    ppm := Millionths(scaledDifference, scaledRequested);
  }

  lemma MillionthsWord(d: nat, r: nat)
    requires r > 0
    ensures Millionths(d, r) < 0x1_0000_0000
    ensures d * 1000000 < 0x1_0000_0000 ==> Millionths(d, r) == d * 1000000 / r
  {
    QuotientAtMost(Wrap(d * 1000000), r);
  }

  lemma QuotientAtMost(x: nat, b: nat)
    requires b > 0
    ensures x / b <= x
  {
    assert x == b * (x / b) + x % b;
    MulOrder(x / b, 1, b);
  }

  lemma Spread(p: nat, d: nat, r: nat, difference: nat, requested: nat)
    requires difference <= p * d < difference + p && requested <= p * r < requested + p
    ensures 0 - p * difference <= p * (d * requested - difference * r) <= p * requested
  {
    var x, y := p * d, p * r;
    assert p * (d * requested - difference * r) == x * requested - difference * y by {
      Regroup(p, d, requested);
      Regroup(p, r, difference);
      Distribute(p, d * requested, r * difference);
    }
    MulOrder(requested, difference, x);
    MulOrder(requested, x, difference + p);
    MulOrder(difference, requested, y);
    MulOrder(difference, y, requested + p);
    Distribute(requested, difference, 0 - p);
    Distribute(difference, requested, 0 - p);
  }

  lemma Regroup(p: int, a: int, b: int)
    ensures p * (a * b) == (p * a) * b
  {}

  lemma Distribute(p: int, a: int, b: int)
    ensures p * (a - b) == p * a - p * b
  {}

  /** Scaling keeps the ratio up to one unit of the scaled denominator. */
  lemma RatioKept(difference: nat, requested: nat, k: nat)
    ensures 0 - difference <= Ceil(difference, k) * requested - difference * Ceil(requested, k) <= requested
  {
    hide Ceil, Pow2;
    var p, d, r := Pow2(k), Ceil(difference, k), Ceil(requested, k);
    CeilBounds(difference, k);
    CeilBounds(requested, k);
    Spread(p, d, r, difference, requested);
    var gap := d * requested - difference * r;
    if gap > requested {
      MulOrder(p, requested + 1, gap);
      MulNext(p, requested);
    } else if gap < 0 - difference {
      MulOrder(p, gap, 0 - difference - 1);
      Distribute(p, 0 - difference, 1);
      Distribute(p, 0, difference);
    }
  }

  /** handle_baud_offer on its two numbers: for every clock and rate of the domain the product by one million fits a word. */
  method Offer(clock: u32, requested: u32) returns (divisor: u32, actual: u32, ppm: u32)
    requires 0 < requested < 0x1000_0000 && clock < 0x8000_0000
    ensures divisor == NearestDivisor(clock, requested) && 1 <= divisor <= 0xffff
    ensures actual == ActualRate(clock, divisor)
    ensures exists k: nat :: Scaled(Abs(actual - requested), requested, k)
              && ppm == Ceil(Abs(actual - requested), k) * 1000000 / Ceil(requested, k)
  {
    NearestIsNearest(clock, requested, 1);
    DifferenceBound(clock, requested);
    hide NearestDivisor, ActualRate, Ceil, Miss, Millionths;
    divisor := NearestDivisor(clock, requested);
    actual := ActualRate(clock, divisor);
    var difference := if actual > requested then actual - requested else requested - actual;
    ppm := ErrorPpm(difference, requested);
    ghost var k :| Scaled(difference, requested, k)
      && ppm == Millionths(Ceil(difference, k), Ceil(requested, k))
      && Ceil(difference, k) * 1000000 < 0x1_0000_0000;
    assert difference == Abs(actual - requested);
    MillionthsWord(Ceil(difference, k), Ceil(requested, k));
  }
}
