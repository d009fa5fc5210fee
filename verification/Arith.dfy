/**
 Integer facts the solver is better given than left to find: products, quotients and
 remainders by a variable.
 */
module Arith {
  lemma MulMono(a: int, b: int, c: int)
    requires 0 <= a && b <= c
    ensures a * b <= a * c
  {
  }

  lemma MulDistrib(a: int, b: int, c: int)
    ensures a * (b + c) == a * b + a * c
  {
  }

  lemma MulAssoc(a: int, b: int, c: int)
    ensures (a * b) * c == a * (b * c)
  {
  }

  lemma DivModFacts(x: int, d: int)
    requires d > 0
    ensures x == d * (x / d) + x % d && 0 <= x % d < d
  {
  }

  lemma QuotientUnique(d: int, q: int, r: int, q1: int, r1: int)
    requires 0 <= r < d && 0 <= r1 < d && d * q1 + r1 == d * q + r
    ensures q1 == q && r1 == r
  {
    if q < q1 {
      MulMono(d, q + 1, q1);
    } else if q1 < q {
      MulMono(d, q1 + 1, q);
    }
  }

  lemma DivUnique(x: int, d: int, q: int, r: int)
    requires 0 <= r < d && x == d * q + r
    ensures x / d == q && x % d == r
  {
    DivModFacts(x, d);
    QuotientUnique(d, q, r, x / d, x % d);
  }

  lemma DivDivSplit(c: int, d: int, q: int, r: int, s: int, t: int)
    requires 0 <= r < c && 0 <= t < d && q == d * s + t
    ensures c * q + r == (c * d) * s + (c * t + r) && 0 <= c * t + r < c * d
  {
    MulDistrib(c, d * s, t);
    MulAssoc(c, d, s);
    MulMono(c, t, d - 1);
    MulMono(c, 0, t);
    MulDistrib(c, d, -1);
  }

  lemma DivDiv(x: int, c: int, d: int)
    requires c > 0 && d > 0
    ensures c * d > 0 && (x / c) / d == x / (c * d)
  {
    var q, r := x / c, x % c;
    var s, t := q / d, q % d;
    DivModFacts(x, c);
    DivModFacts(q, d);
    DivDivSplit(c, d, q, r, s, t);
    DivUnique(x, c * d, s, c * t + r);
  }
}
