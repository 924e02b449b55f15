/** Remainders by a divisor that is not a constant. */
module Arith {

  lemma Exceeds(d: int, m: int, r: int)
    requires m > 0 && d * m == r && -m < r < m
    ensures d == 0
  {
  }

  lemma IsRemainder(u: nat, m: nat, q: nat, r: nat)
    requires m > 0 && r < m && u == m * q + r
    ensures u % m == r
  {
    Exceeds(q - u / m, m, u % m - r);
  }

  lemma IsQuotient(u: nat, m: nat, q: nat, r: nat)
    requires m > 0 && u == m * q + r && r < m
    ensures u / m == q
  {
    Exceeds(q - u / m, m, u % m - r);
  }

  lemma Scale(x: nat, k: nat, p: nat)
    ensures x * (k * p) == k * (x * p)
  {
  }

  lemma ModMinus(n: int, m: int)
    requires n >= m > 0
    ensures (n - m) % m == n % m
  {
    var q, q' := n / m, (n - m) / m;
    Exceeds(q - 1 - q', m, (n - m) % m - n % m);
  }

  lemma NextModulo(n: nat, m: nat)
    requires m > 0
    ensures (n + 1) % m == if n % m == m - 1 then 0 else n % m + 1
  {
    var q, q' := n / m, (n + 1) / m;
    if n % m == m - 1 {
      Exceeds(q + 1 - q', m, (n + 1) % m);
    } else {
      Exceeds(q - q', m, (n + 1) % m - n % m - 1);
    }
  }
}
