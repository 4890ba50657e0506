// The retry bitmap of PMOSREC v3 acknowledgements.
module RetryBitmap {

  /** m & (1 << i), on the binary digits of m. */
  predicate Has(m: nat, i: nat)
    decreases i, m
  {
    if i == 0 then m % 2 == 1 else Has(m / 2, i - 1)
  }

  /** m | (1 << i). */
  function With(m: nat, i: nat): nat
    decreases i, m
  {
    if i == 0 then m / 2 * 2 + 1 else With(m / 2, i - 1) * 2 + m % 2
  }

  /** m & ~(1 << i). */
  function Dropped(m: nat, i: nat): nat
    decreases i, m
  {
    if i == 0 then m / 2 * 2 else Dropped(m / 2, i - 1) * 2 + m % 2
  }

  lemma {:induction false} WithHas(m: nat, i: nat, j: nat)
    ensures Has(With(m, i), j) <==> i == j || Has(m, j)
    decreases i
  {
    if i == 0 {
      Digits(m / 2, 1);
    } else {
      Digits(With(m / 2, i - 1), m % 2);
      if j > 0 {
        WithHas(m / 2, i - 1, j - 1);
      }
    }
  }

  lemma Digits(rest: nat, last: nat)
    requires last < 2
    ensures (rest * 2 + last) / 2 == rest && (rest * 2 + last) % 2 == last
  {}

  lemma {:induction false} DroppedHas(m: nat, i: nat, j: nat)
    ensures Has(Dropped(m, i), j) <==> i != j && Has(m, j)
    decreases i
  {
    if i == 0 {
      Digits(m / 2, 0);
    } else {
      Digits(Dropped(m / 2, i - 1), m % 2);
      if j > 0 {
        DroppedHas(m / 2, i - 1, j - 1);
      }
    }
  }

  lemma {:induction false} EmptyHas(j: nat)
    ensures !Has(0, j)
    decreases j
  {
    if j > 0 {
      EmptyHas(j - 1);
    }
  }
}
