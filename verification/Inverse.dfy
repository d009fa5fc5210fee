/**
 Binary modular inversion: a gcd computation on (a, b) that drags along the cofactors (u, v)
 of the input, halving modulo an odd modulus.
 */
module Inverse {
  import opened Arith
  import opened Words
  import opened Vli
  import opened Reduce

  // ----- divisibility -----

  /** g is the greatest common divisor of a and b. */
  ghost predicate IsGcd(g: int, a: int, b: int) {
    && g > 0 && a % g == 0 && b % g == 0
    && forall d :: d > 0 && a % d == 0 && b % d == 0 ==> g % d == 0
  }

  lemma Multiple(a: int, d: int, q: int)
    requires d > 0 && a == d * q
    ensures a % d == 0
  {
    DivUnique(a, d, q, 0);
  }

  lemma DividesSum(a: int, b: int, s: int, t: int, d: int)
    requires d > 0 && a % d == 0 && b % d == 0
    ensures (s * a + t * b) % d == 0
  {
    var p, q := a / d, b / d;
    DivModFacts(a, d);
    DivModFacts(b, d);
    MulAssoc(s, d, p);
    MulAssoc(t, d, q);
    MulAssoc(d, s, p);
    MulAssoc(d, t, q);
    MulDistrib(d, s * p, t * q);
    Multiple(s * a + t * b, d, s * p + t * q);
  }

  /** An odd number divides t when it divides 2t. */
  lemma HalveDivides(t: int, m: int)
    requires m > 0 && m % 2 == 1 && (2 * t) % m == 0
    ensures t % m == 0
  {
    DividesSum(2 * t, m, (m + 1) / 2, -t, m) by { DivUnique(m, m, 1, 0); }
    var h := (m + 1) / 2;
    MulAssoc(h, 2, t);
    MulAssoc(2, h, t);
    MulDistrib(t, m, 1);
    assert h * (2 * t) + (-t) * m == t;
  }

  // ----- the pair (a, u): u is a reduced cofactor of the input x for a -----

  ghost predicate Cofactor(u: int, x: int, a: int, m: int)
    requires m > 0
  {
    0 <= u < m && (u * x - a) % m == 0
  }

  /** Half of u modulo an odd m, as vli_modInv_update computes it. */
  ghost function HalfMod(u: int, m: int): int {
    if u % 2 == 0 then u / 2 else (u + m) / 2
  }

  lemma HalveCofactor(u: int, x: int, a: int, m: int)
    requires m > 0 && m % 2 == 1 && a % 2 == 0 && Cofactor(u, x, a, m)
    ensures Cofactor(HalfMod(u, m), x, a / 2, m)
  {
    var h, b := HalfMod(u, m), a / 2;
    var k := if u % 2 == 0 then 0 else 1;
    assert 2 * h == u + k * m;
    DivUnique(m, m, 1, 0);
    DividesSum(u * x - a, m, 1, k * x, m);
    MulAssoc(k, x, m);
    MulAssoc(2, h, x);
    MulDistrib(x, u, k * m);
    MulAssoc(k, m, x);
    assert 2 * (h * x - b) == 1 * (u * x - a) + (k * x) * m;
    HalveDivides(h * x - b, m);
  }

  /** The difference of two cofactors is a cofactor of the difference. */
  lemma DiffCofactor(u: int, v: int, x: int, a: int, b: int, m: int)
    requires m > 0 && Cofactor(u, x, a, m) && Cofactor(v, x, b, m)
    ensures Cofactor((u - v) % m, x, a - b, m)
  {
    var w, q := (u - v) % m, (u - v) / m;
    DivModFacts(u - v, m);
    DividesSum(u * x - a, v * x - b, 1, -1, m);
    DivUnique(m, m, 1, 0);
    var d := 1 * (u * x - a) + (-1) * (v * x - b);
    DividesSum(d, m, 1, -(q * x), m);
    assert w * x == u * x - v * x - (m * q) * x by { MulDistrib(x, u - v, -(m * q)); MulDistrib(x, u, -v); }
    assert (m * q) * x == (q * x) * m by { MulAssoc(m, q, x); }
    assert 1 * d + -(q * x) * m == w * x - (a - b);
  }

  /** Every common divisor of (a, b) divides the input and the modulus. */
  ghost predicate DividesThrough(a: int, b: int, x: int, m: int) {
    forall d :: d > 0 && a % d == 0 && b % d == 0 ==> x % d == 0 && m % d == 0
  }

  lemma StepDivides(a: int, b: int, a1: int, t: int, x: int, m: int)
    requires DividesThrough(a, b, x, m) && a == 2 * a1 + t * b
    ensures DividesThrough(a1, b, x, m)
  {
    forall d | d > 0 && a1 % d == 0 && b % d == 0
      ensures x % d == 0 && m % d == 0
    {
      DividesSum(a1, b, 2, t, d);
    }
  }

  lemma SwapDivides(a: int, b: int, x: int, m: int)
    requires DividesThrough(a, b, x, m)
    ensures DividesThrough(b, a, x, m)
  {
  }

  /** A cofactor, read as an equation. */
  lemma CofactorEquation(u: int, x: int, a: int, m: int) returns (q: int)
    requires m > 0 && Cofactor(u, x, a, m)
    ensures u * x == a + m * q
  {
    q := (u * x - a) / m;
    DivModFacts(u * x - a, m);
  }

  lemma CommonDivisor(d: int, x: int, m: int, u: int, q: int, g: int)
    requires d > 0 && x % d == 0 && m % d == 0 && u * x == g + m * q
    ensures g % d == 0
  {
    DividesSum(x, m, u, -q, d);
    assert u * x + (-q) * m == g;
  }

  /** When the two numbers have met, they are the gcd of the input and the modulus. */
  lemma MeetAtGcd(u: int, g: int, x: int, m: int)
    requires m > 0 && g > 0 && Cofactor(u, x, g, m) && DividesThrough(g, g, x, m)
    ensures IsGcd(g, x, m) && (u * x) % m == g % m
  {
    var q := CofactorEquation(u, x, g, m);
    SubtractMultiple(u * x, m, q);
    assert x % g == 0 && m % g == 0 by { DivUnique(g, g, 1, 0); }
    hide Cofactor, DividesThrough;
    forall d | d > 0 && x % d == 0 && m % d == 0
      ensures g % d == 0
    {
      CommonDivisor(d, x, m, u, q, g);
    }
  }

  /** The input has an inverse modulo m. */
  ghost predicate Unit(x: int, m: int)
    requires m > 0
  {
    exists y: int :: (x * y) % m == 1
  }

  lemma UnitGcd(g: int, x: int, m: int)
    requires m > 1 && IsGcd(g, x, m) && Unit(x, m)
    ensures g == 1
  {
    var y: int :| (x * y) % m == 1;
    DivModFacts(x * y, m);
    CommonDivisor(g, x, m, y, (x * y) / m, 1);
    hide IsGcd;
    if g > 1 { DivUnique(1, g, 0, 1); }
  }

  // ----- the loops -----

  method Even(vli: array<Word>, n: nat) returns (even: bool)
    requires 0 < n <= vli.Length
    ensures even <==> V(vli, n) % 2 == 0
  {
    LowParity(vli[..n]);
    assert vli[..n][0] == vli[0];
    AndPow2(vli[0], 0);
    return And(vli[0], 1) == 0;
  }

  /** Sets the top bit of a number that leaves it free. */
  lemma TopBit(s: seq<Word>, t: seq<Word>, n: nat)
    requires 0 < n && |s| == |t| == n && s[..n - 1] == t[..n - 1] && s[n - 1] < HIGH_BIT_SET
    requires t[n - 1] == s[n - 1] + HIGH_BIT_SET
    ensures 2 * Val(t) == 2 * Val(s) + BPow(n)
  {
    ChangeTop(s, t);
    BPowEven(n);
    MulAssoc(2, BPow(n - 1), HIGH_BIT_SET);
  }

  /** uv becomes its half modulo the odd mod. */
  method ModInvUpdate(uv: array<Word>, mod: array<Word>, n: nat)
    requires 0 < n <= uv.Length && n <= mod.Length && uv != mod
    requires V(mod, n) % 2 == 1 && V(uv, n) < V(mod, n)
    modifies uv
    ensures V(uv, n) == HalfMod(old(V(uv, n)), V(mod, n)) < V(mod, n)
    ensures forall j :: n <= j < uv.Length ==> uv[j] == old(uv[j])
  {
    hide Val, BPow, Or;
    ghost var m, u := V(mod, n), V(uv, n);
    var carry: Word := 0;
    var even := Even(uv, n);
    if !even {
      carry := Add(uv, uv, mod, n);
    }
    ghost var full := V(uv, n);
    assert uv[0..0 + n] == uv[..n];
    RShift1(uv, 0, n);
    assert uv[0..0 + n] == uv[..n];
    if carry != 0 {
      ghost var s := uv[..n];
      ShiftWord(2 * uv[n - 1], 1);
      uv[n - 1] := Or(uv[n - 1], HIGH_BIT_SET);
      TopBit(s, uv[..n], n);
      BPowEven(n);
    }
  }

  /** left = left - right modulo mod, where the word range may be left in between. */
  method SubtractReduced(left: array<Word>, right: array<Word>, mod: array<Word>, n: nat)
    requires 0 < n <= left.Length && n <= right.Length && n <= mod.Length
    requires left != mod && left != right
    requires V(left, n) < V(mod, n) && V(right, n) < V(mod, n)
    modifies left
    ensures V(left, n) == (old(V(left, n)) - V(right, n)) % V(mod, n)
    ensures forall j :: n <= j < left.Length ==> left[j] == old(left[j])
  {
    hide Val, BPow;
    ghost var m, t := V(mod, n), V(left, n) - V(right, n);
    ModNegOnce(t, m);
    ValBound(mod[..n]);
    var carry: Word := 0;
    var c := CmpUnsafe(left, right, n);
    if c < 0 {
      carry := Add(left, left, mod, n);
    }
    var borrow := Sub(left, left, right, n);
    ValBound(left[..n]);
    ghost var b: int := borrow;
    MulDistrib(BPow(n), carry, -b);
    DropCarry(V(left, n), carry - b, BPow(n), t % m);
  }

  /** The state of the loop for input x and modulus m. */
  ghost predicate Inv(a: int, b: int, u: int, v: int, x: int, m: int)
    requires m > 0
  {
    a > 0 && b > 0 && Cofactor(u, x, a, m) && Cofactor(v, x, b, m) && DividesThrough(a, b, x, m)
  }

  lemma InvSwap(a: int, b: int, u: int, v: int, x: int, m: int)
    requires m > 0 && Inv(a, b, u, v, x, m)
    ensures Inv(b, a, v, u, x, m)
  {
    SwapDivides(a, b, x, m);
  }

  lemma InvStart(x: int, m: int)
    requires x > 0 && m > 1
    ensures Inv(x, m, 1, 0, x, m)
  {
    DivUnique(0, m, 0, 0);
    DivUnique(-m, m, -1, 0);
  }

  lemma InvHalve(a: int, b: int, u: int, v: int, x: int, m: int)
    requires m > 0 && m % 2 == 1 && a % 2 == 0 && Inv(a, b, u, v, x, m)
    ensures Inv(a / 2, b, HalfMod(u, m), v, x, m)
  {
    HalveCofactor(u, x, a, m);
    StepDivides(a, b, a / 2, 0, x, m);
  }

  lemma InvSubtract(a: int, b: int, u: int, v: int, x: int, m: int)
    requires m > 0 && m % 2 == 1 && a % 2 == 1 && b % 2 == 1 && a > b && Inv(a, b, u, v, x, m)
    ensures Inv((a - b) / 2, b, HalfMod((u - v) % m, m), v, x, m)
  {
    hide Cofactor, DividesThrough, HalfMod;
    DiffCofactor(u, v, x, a, b, m);
    HalveCofactor((u - v) % m, x, a - b, m);
    StepDivides(a, b, (a - b) / 2, 1, x, m);
  }

  /** The branch for an even a (or, by symmetry, b). */
  method HalveSide(a: array<Word>, u: array<Word>, mod: array<Word>, n: nat, ghost b: int, ghost v: int, ghost x: int)
    requires 0 < n == a.Length == u.Length && n <= mod.Length && a != u && a != mod && u != mod
    requires V(mod, n) % 2 == 1 && V(a, n) % 2 == 0
    requires Inv(V(a, n), b, V(u, n), v, x, V(mod, n))
    modifies a, u
    ensures Inv(V(a, n), b, V(u, n), v, x, V(mod, n))
    ensures V(a, n) < old(V(a, n))
  {
    hide Val, Inv;
    assert V(a, n) > 0 && V(u, n) < V(mod, n) by { InvFacts(V(a, n), b, V(u, n), v, x, V(mod, n)); }
    InvHalve(V(a, n), b, V(u, n), v, x, V(mod, n));
    assert a[0..0 + n] == a[..n];
    RShift1(a, 0, n);
    assert a[0..0 + n] == a[..n];
    ModInvUpdate(u, mod, n);
  }

  lemma InvFacts(a: int, b: int, u: int, v: int, x: int, m: int)
    requires m > 0 && Inv(a, b, u, v, x, m)
    ensures a > 0 && b > 0 && 0 <= u < m && 0 <= v < m
  {
  }

  /** The branch for two odd numbers with a > b (or, by symmetry, b > a). */
  method SubtractSide(a: array<Word>, b: array<Word>, u: array<Word>, v: array<Word>, mod: array<Word>, n: nat, ghost x: int)
    requires 0 < n == a.Length == b.Length == u.Length == v.Length && n <= mod.Length
    requires a != b && a != u && a != v && a != mod && u != b && u != v && u != mod
    requires V(mod, n) % 2 == 1 && V(a, n) % 2 == 1 && V(b, n) % 2 == 1 && V(a, n) > V(b, n)
    requires Inv(V(a, n), V(b, n), V(u, n), V(v, n), x, V(mod, n))
    modifies a, u
    ensures Inv(V(a, n), V(b, n), V(u, n), V(v, n), x, V(mod, n))
    ensures V(a, n) < old(V(a, n))
  {
    hide Val, BPow, Inv;
    InvFacts(V(a, n), V(b, n), V(u, n), V(v, n), x, V(mod, n));
    InvSubtract(V(a, n), V(b, n), V(u, n), V(v, n), x, V(mod, n));
    ghost var d := V(a, n) - V(b, n);
    var borrow := Sub(a, a, b, n);
    ValBound(a[..n]);
    ValBound(b[..n]);
    DropCarry(V(a, n), -(borrow as int), BPow(n), d);
    assert a[0..0 + n] == a[..n];
    RShift1(a, 0, n);
    assert a[0..0 + n] == a[..n];
    SubtractReduced(u, v, mod, n);
    ModInvUpdate(u, mod, n);
  }

  /**
   What inversion computes: r * x is the gcd of x and m, modulo m, so r is the true inverse
   of an x that has one. The inverse of zero is taken to be zero.
   */
  ghost predicate Inverts(r: int, x: int, m: int)
    requires m > 1
  {
    && 0 <= r < m
    && (x == 0 ==> r == 0)
    && (x > 0 ==> exists g :: IsGcd(g, x, m) && (r * x) % m == g % m)
    && (Unit(x, m) ==> (r * x) % m == 1)
  }

  lemma ZeroInverts(m: int)
    requires m > 1
    ensures Inverts(0, 0, m)
  {
    DivUnique(0, m, 0, 0);
  }

  lemma OneValue(s: seq<Word>)
    requires |s| > 0 && s[0] == 1 && forall j :: 0 < j < |s| ==> s[j] == 0
    ensures Val(s) == 1
  {
    ValTail(s, 0);
    assert s[0..] == s;
    ValZero(s[1..]);
  }

  lemma InvEnd(a: int, b: int, u: int, v: int, x: int, m: int)
    requires m > 1 && x > 0 && Inv(a, b, u, v, x, m) && a == b
    ensures Inverts(u, x, m)
  {
    MeetAtGcd(u, a, x, m);
    if Unit(x, m) {
      UnitGcd(a, x, m);
      DivUnique(1, m, 0, 1);
    }
  }

  /** The loop: a + b decreases until the two numbers meet. */
  method GcdLoop(a: array<Word>, b: array<Word>, u: array<Word>, v: array<Word>, mod: array<Word>, n: nat, ghost x: int)
    requires 0 < n == a.Length == b.Length == u.Length == v.Length && n <= mod.Length
    requires a != b && a != u && a != v && a != mod && b != u && b != v && b != mod
    requires u != v && u != mod && v != mod
    requires V(mod, n) % 2 == 1
    requires Inv(V(a, n), V(b, n), V(u, n), V(v, n), x, V(mod, n))
    modifies a, b, u, v
    ensures Inv(V(a, n), V(b, n), V(u, n), V(v, n), x, V(mod, n)) && V(a, n) == V(b, n)
  {
    hide Val, Inv;
    ghost var m := V(mod, n);
    var cmpResult := CmpUnsafe(a, b, n);
    while cmpResult != 0
      invariant V(mod, n) == m && Inv(V(a, n), V(b, n), V(u, n), V(v, n), x, m)
      invariant cmpResult == Sign(V(a, n) - V(b, n))
      decreases V(a, n) + V(b, n)
    {
      var evenA := Even(a, n);
      var evenB := Even(b, n);
      if evenA {
        HalveSide(a, u, mod, n, V(b, n), V(v, n), x);
      } else if evenB {
        InvSwap(V(a, n), V(b, n), V(u, n), V(v, n), x, m);
        HalveSide(b, v, mod, n, V(a, n), V(u, n), x);
        InvSwap(V(b, n), V(a, n), V(v, n), V(u, n), x, m);
      } else if cmpResult > 0 {
        SubtractSide(a, b, u, v, mod, n, x);
      } else {
        InvSwap(V(a, n), V(b, n), V(u, n), V(v, n), x, m);
        SubtractSide(b, a, v, u, mod, n, x);
        InvSwap(V(b, n), V(a, n), V(v, n), V(u, n), x, m);
      }
      cmpResult := CmpUnsafe(a, b, n);
    }
  }

  method CopyOf(src: array<Word>, n: nat) returns (a: array<Word>)
    requires n <= src.Length
    ensures fresh(a) && a.Length == n && V(a, n) == V(src, n)
  {
    a := new Word[n];
    Set(a, 0, src, n);
    assert a[..n] == src[..n];
  }

  method One(n: nat) returns (u: array<Word>)
    requires n > 0
    ensures fresh(u) && u.Length == n && V(u, n) == 1
  {
    u := new Word[n];
    Clear(u, n);
    u[0] := 1;
    OneValue(u[..n]);
  }

  method ModInv(result: array<Word>, input: array<Word>, mod: array<Word>, n: nat)
    requires 0 < n <= result.Length && n <= input.Length && n <= mod.Length && result != mod
    requires V(mod, n) % 2 == 1 && V(mod, n) > 1
    modifies result
    ensures Inverts(V(result, n), old(V(input, n)), V(mod, n))
    ensures forall j :: n <= j < result.Length ==> result[j] == old(result[j])
  {
    hide Val, Inv, Inverts;
    ghost var x, m := V(input, n), V(mod, n);
    var zero := IsZero(input, n);
    if zero {
      Clear(result, n);
      ZeroInverts(m);
      return;
    }
    var a := CopyOf(input, n);
    var b := CopyOf(mod, n);
    var u := One(n);
    var v := new Word[n];
    Clear(v, n);
    InvStart(x, m);
    GcdLoop(a, b, u, v, mod, n, x);
    InvEnd(V(a, n), V(b, n), V(u, n), V(v, n), x, m);
    Set(result, 0, u, n);
    assert result[..n] == u[..n];
  }
}
