/**
  Python's floor division and remainder on naturals, and the facts about them
  the step arithmetic needs.
 */
module Arith {
  /** Python's `a // b` on naturals: the one `q` with `q b <= a < (q + 1) b`. */
  function FloorQuot(a: nat, b: nat): (q: nat)
    requires b > 0
    ensures q == a / b
    ensures q * b <= a < (q + 1) * b
  {
    var q := a / b;
    FloorDiv(a, b);
    q
  }

  /** Floor division brackets the dividend: `(a // b) b <= a < (a // b + 1) b`, exact when `a % b == 0`. */
  lemma FloorDiv(a: nat, b: nat)
    requires b > 0
    ensures (a / b) * b <= a < (a / b + 1) * b
    ensures a % b == 0 ==> (a / b) * b == a
  {
    var q, r := a / b, a % b;
    assert a == q * b + r;
    assert (q + 1) * b == q * b + b;
  }

  /** For a positive divisor the quotient and remainder are unique. */
  lemma DivModUnique(a: int, b: int, q: int, r: int)
    requires b > 0 && a == q * b + r && 0 <= r < b
    ensures a / b == q && a % b == r
  {
    var e := q - a / b;
    assert e * b == q * b - (a / b) * b;
    assert e * b == a % b - r;
  }
}
