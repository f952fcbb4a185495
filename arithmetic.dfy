/** Small facts about multiplication and division that the solver does not
    find on its own. Each is stated as an implication so that callers can use
    it without first establishing a case. */
module Arithmetic {

  lemma MulMono(x: int, y: int, m: nat)
    ensures x <= y ==> x * m <= y * m
  {
    assert y * m - x * m == (y - x) * m;
  }

  lemma MulStrict(x: int, y: int, m: nat)
    ensures x < y && m > 0 ==> x * m < y * m
  {
    assert y * m - x * m == (y - x) * m;
  }

  lemma MulSucc(x: int, m: int)
    ensures (x + 1) * m == x * m + m
  {
  }

  lemma MulSub(x: int, c: int, m: int)
    ensures (x - c) * m == x * m - c * m
    ensures (x - c + 1) * m == (x + 1) * m - c * m
  {
  }

  /** Euclidean division of naturals brackets the dividend between consecutive multiples. */
  lemma DivBounds(a: nat, b: nat)
    requires b > 0
    ensures (a / b) * b <= a < (a / b + 1) * b
  {
    var q, r := a / b, a % b;
    assert a == q * b + r && 0 <= r < b;
    MulSucc(q, b);
  }

  /** The quotient is the one multiple-bracket the dividend falls in. */
  lemma DivUnique(a: nat, b: int, q: int)
    requires b > 0 && q * b <= a < (q + 1) * b
    ensures a / b == q
  {
    DivBounds(a, b);
    var d := a / b;
    MulMono(d + 1, q, b);
    MulMono(q + 1, d, b);
  }
}
