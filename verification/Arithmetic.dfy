// The few facts about products that the solver does not find alone.
module Arithmetic {

  lemma MulOrder(b: nat, x: int, y: int)
    requires x <= y
    ensures b * x <= b * y
  {}

  lemma MulNext(b: nat, x: int)
    ensures b * (x + 1) == b * x + b
  {}
}
