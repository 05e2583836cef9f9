/** Products, quotients and remainders of variables. */
module Arithmetic {
  lemma {:induction false} Floor(y: nat, a: nat)
    requires a > 0
    ensures y / a * a <= y < y / a * a + a
  {
  }

  lemma {:induction false} Steps(i: nat, j: nat, d: nat)
    requires i < j
    ensures i * d + d <= j * d
    decreases j
  {
    if j > i + 1 {
      Steps(i, j - 1, d);
    }
  }

  lemma {:induction false} QuotientIs(x: nat, b: nat, k: nat)
    requires b > 0 && x == k * b
    ensures x / b == k
  {
    var q := x / b;
    Floor(x, b);
    if q < k {
      Steps(q, k, b);
    } else if k < q {
      Steps(k, q, b);
    }
  }

  lemma {:induction false} MultipleOf(k: nat, b: nat, x: nat)
    requires b > 0 && x == k * b
    ensures x % b == 0
  {
    QuotientIs(x, b, k);
    assert x == x / b * b + x % b;
  }

  lemma {:induction false} MultipleOfFour(k: int, a: int)
    requires a % 4 == 0
    ensures k * a % 4 == 0
  {
    assert k * a == 4 * (k * (a / 4));
  }
}
