/** Facts about Euclidean division that the solver does not find unaided. */
module Arithmetic {

  lemma MulAtLeast(d: int, u: int)
    requires d >= 1 && u >= 1
    ensures d * u >= u
  {
    assert d * u == (d - 1) * u + u;
  }

  /** Quotient and remainder are determined by `a == q * m + r` with `0 <= r < m`. */
  lemma DivModUnique(a: int, m: int, q: int, r: int)
    requires m >= 1 && a == q * m + r && 0 <= r < m
    ensures a / m == q && a % m == r
  {
    var q', r' := a / m, a % m;
    assert a == q' * m + r';
    var d := q - q';
    assert d * m == q * m - q' * m;
    assert d * m == r' - r;
    if d > 0 {
      MulAtLeast(d, m);
    } else if d < 0 {
      MulAtLeast(-d, m);
    }
  }

  /** Adding a multiple of `m` does not change the remainder modulo `m`. */
  lemma ShiftMod(b: int, j: int, m: int)
    requires m >= 1
    ensures (b + j * m) % m == b % m
  {
    var q, r := b / m, b % m;
    assert b + j * m == (q + j) * m + r;
    DivModUnique(b + j * m, m, q + j, r);
  }

  /** A multiple of `m` leaves no remainder. */
  lemma MultipleMod(j: int, m: int)
    requires m >= 1
    ensures j * m % m == 0
  {
    ShiftMod(0, j, m);
  }

  /** What the remainder modulo `m` is, for the wrap-around conversions. */
  lemma RemainderFacts(n: int, m: int)
    requires m >= 1
    ensures (n % m - n) % m == 0
    ensures (n % m - m - n) % m == 0
    ensures 0 <= n < m ==> n % m == n
    ensures -m <= n < 0 ==> n % m == n + m
  {
    var q := n / m;
    assert n == q * m + n % m;
    assert n % m - n == (-q) * m;
    MultipleMod(-q, m);
    assert n % m - m - n == (-q - 1) * m;
    MultipleMod(-q - 1, m);
    if 0 <= n < m {
      DivModUnique(n, m, 0, n);
    } else if -m <= n < 0 {
      DivModUnique(n, m, -1, n + m);
    }
  }

  /** `q * u` is a non-negative multiple of `u` with quotient `q`. */
  lemma MultipleFacts(q: nat, u: int)
    requires u >= 1
    ensures q * u >= 0 && q * u % u == 0 && q * u / u == q
  {
    if q > 0 {
      MulAtLeast(q, u);
    }
    DivModUnique(q * u, u, q, 0);
  }
}
