// Facts about Euclidean division and remainder by positive divisors, used to
// take little-endian words apart byte by byte.
module Arith {

  /** The division equation. */
  lemma {:induction false} DivMod(a: nat, m: nat) returns (q: nat, r: nat)
    requires 0 < m
    ensures q == a / m && r == a % m
    ensures a == r + m * q && r < m
  {
    q, r := a / m, a % m;
  }

  /** A quotient and remainder that fit the division equation are the quotient and remainder. */
  lemma {:induction false} DivModUnique(a: int, m: int, q: int, r: int)
    requires 0 < m && a == m * q + r && 0 <= r < m
    ensures a / m == q && a % m == r
  {
    var q0, r0 := a / m, a % m;
    var d := q - q0;
    assert m * q0 + r0 == m * q + r;
    assert m * d == r0 - r by {
      assert m * d == m * q - m * q0;
    }
    if d >= 1 {
      MulAtLeast(m, d);
    } else if d <= -1 {
      MulAtLeast(m, -d);
    }
  }

  lemma {:induction false} MulAtLeast(m: int, d: int)
    requires 0 < m && 1 <= d
    ensures m <= m * d
  {
    assert m * d == m * (d - 1) + m;
    assert 0 <= m * (d - 1);
  }

  /** Dividing twice is dividing by the product. */
  lemma {:induction false} DivDiv(a: nat, b: nat, c: nat)
    requires 0 < b && 0 < c
    ensures a / b / c == a / (b * c)
    ensures a % (b * c) == a % b + b * ((a / b) % c)
  {
    var q, r := a / b, a % b;
    var q2, r2 := q / c, q % c;
    assert a == b * q + r;
    assert q == c * q2 + r2;
    MulDist(b, c * q2, r2);
    MulAssoc(b, c, q2);
    assert a == (b * c) * q2 + (b * r2 + r);
    MulRemBound(b, c, r2, r);
    DivModUnique(a, b * c, q2, b * r2 + r);
  }

  lemma {:induction false} MulDist(a: int, b: int, c: int)
    ensures a * (b + c) == a * b + a * c
  {
  }

  /** A remainder below b placed under a digit below c stays below b * c. */
  lemma {:induction false} MulRemBound(b: nat, c: nat, r2: nat, r: nat)
    requires r2 < c && r < b
    ensures b * r2 + r < b * c
  {
    MulDist(b, r2, c - r2);
    assert b * (c - r2) >= b by {
      MulAtLeast(b, c - r2);
    }
  }

  /** Removing a multiple of m changes neither the remainder nor more than that multiple of the quotient. */
  lemma {:induction false} DivAddMultiple(a: nat, m: nat, k: nat)
    requires 0 < m
    ensures (a + m * k) / m == a / m + k
    ensures (a + m * k) % m == a % m
  {
    DivModUnique(a + m * k, m, a / m + k, a % m);
  }

  lemma {:induction false} MulAssoc(a: int, b: int, c: int)
    ensures (a * b) * c == a * (b * c)
  {
  }
}
