/**
 The 32-bit words of the multi-word integers, the bitwise operators the C code applies to
 them, and the number that a little-endian sequence of words stands for.
 */
module Words {
  import opened Arith

  const BASE: nat := 0x1_0000_0000
  const HIGH_BIT_SET: nat := 0x8000_0000

  type Word = w: int | 0 <= w < 0x1_0000_0000

  // ----- powers -----

  function Pow2(k: nat): (r: nat)
    ensures r > 0
  {
    if k == 0 then 1 else 2 * Pow2(k - 1)
  }

  /** The weight of word k. */
  function BPow(k: nat): (r: nat)
    ensures r > 0
  {
    if k == 0 then 1 else 0x1_0000_0000 * BPow(k - 1)
  }

  lemma {:induction false} Pow2Add(j: nat, k: nat)
    ensures Pow2(j + k) == Pow2(j) * Pow2(k)
  {
    assert j > 0 ==> Pow2(j) == 2 * Pow2(j - 1) && Pow2(j + k) == 2 * Pow2(j - 1 + k);
    assert Pow2(0) == 1;
    hide Pow2;
    if j > 0 {
      Pow2Add(j - 1, k);
      MulAssoc(2, Pow2(j - 1), Pow2(k));
    }
  }

  lemma Pow2Of32()
    ensures Pow2(31) == HIGH_BIT_SET && Pow2(32) == BASE
  {
    assert Pow2(8) == 0x100;
    Pow2Add(8, 8);
    Pow2Add(16, 16);
  }

  lemma {:induction false} BPowIsPow2(k: nat)
    ensures BPow(k) == Pow2(32 * k)
  {
    if k > 0 {
      BPowIsPow2(k - 1);
      Pow2Add(32, 32 * (k - 1));
      Pow2Of32();
    }
  }

  lemma {:induction false} BPowAdd(j: nat, k: nat)
    ensures BPow(j + k) == BPow(j) * BPow(k)
  {
    assert j > 0 ==> BPow(j) == 0x1_0000_0000 * BPow(j - 1) && BPow(j + k) == 0x1_0000_0000 * BPow(j - 1 + k);
    assert BPow(0) == 1;
    hide BPow;
    if j > 0 {
      BPowAdd(j - 1, k);
      MulAssoc(0x1_0000_0000, BPow(j - 1), BPow(k));
    }
  }

  lemma {:induction false} Pow2Mono(j: nat, k: nat)
    requires j <= k
    ensures Pow2(j) <= Pow2(k)
  {
    if j < k { Pow2Mono(j, k - 1); }
  }

  // ----- bitwise operators -----

  /** x | y */
  function Or(x: nat, y: nat): nat
    decreases x + y
  {
    if x == 0 && y == 0 then 0
    else 2 * Or(x / 2, y / 2) + (if x % 2 == 1 || y % 2 == 1 then 1 else 0)
  }

  /** x & y */
  function And(x: nat, y: nat): nat
    decreases x + y
  {
    if x == 0 && y == 0 then 0
    else 2 * And(x / 2, y / 2) + (if x % 2 == 1 && y % 2 == 1 then 1 else 0)
  }

  /** x ^ y */
  function Xor(x: nat, y: nat): nat
    decreases x + y
  {
    if x == 0 && y == 0 then 0
    else 2 * Xor(x / 2, y / 2) + (if x % 2 != y % 2 then 1 else 0)
  }

  /** Or of numbers with no common bit is their sum. */
  lemma {:induction false} OrDisjoint(a: nat, y: nat, k: nat)
    requires y < Pow2(k)
    ensures Or(a * Pow2(k), y) == a * Pow2(k) + y
    decreases k, a
  {
    var x := a * Pow2(k);
    if k == 0 {
      OrZeroRight(x);
    } else if x + y > 0 {
      assert x == 2 * (a * Pow2(k - 1));
      OrDisjoint(a, y / 2, k - 1);
    }
  }

  lemma {:induction false} OrZeroRight(x: nat)
    ensures Or(x, 0) == x && Or(0, x) == x
  {
    if x > 0 { OrZeroRight(x / 2); }
  }

  lemma {:induction false} OrIsZero(x: nat, y: nat)
    ensures Or(x, y) == 0 <==> x == 0 && y == 0
    decreases x + y
  {
    if x + y > 0 { OrIsZero(x / 2, y / 2); }
  }

  lemma {:induction false} XorIsZero(x: nat, y: nat)
    ensures Xor(x, y) == 0 <==> x == y
    decreases x + y
  {
    if x + y > 0 { XorIsZero(x / 2, y / 2); }
  }

  lemma {:induction false} BitwiseBound(x: nat, y: nat, k: nat)
    requires x < Pow2(k) && y < Pow2(k)
    ensures Or(x, y) < Pow2(k) && Xor(x, y) < Pow2(k) && And(x, y) < Pow2(k)
  {
    if k > 0 && x + y > 0 { BitwiseBound(x / 2, y / 2, k - 1); }
  }

  lemma WordBitwise(x: Word, y: Word)
    ensures Or(x, y) < BASE && Xor(x, y) < BASE && And(x, y) < BASE
  {
    Pow2Of32();
    BitwiseBound(x, y, 32);
  }

  /** Bit j of x, as a number. */
  function Bit(x: int, j: nat): (r: int)
    ensures 0 <= r <= 1
    decreases j
  {
    if j == 0 then x % 2 else Bit(x / 2, j - 1)
  }

  lemma {:induction false} BitIsDiv(x: int, j: nat)
    ensures Bit(x, j) == (x / Pow2(j)) % 2
    decreases j
  {
    if j > 0 {
      BitIsDiv(x / 2, j - 1);
      DivDiv(x, 2, Pow2(j - 1));
    }
  }

  lemma {:induction false} BitShift(x: int, k: nat, j: nat)
    ensures Bit(x, k + j) == Bit(x / Pow2(k), j)
    decreases k
  {
    if k > 0 {
      BitShift(x / 2, k - 1, j);
      DivDiv(x, 2, Pow2(k - 1));
    }
  }

  lemma {:induction false} BitLow(w: int, h: int, j: nat, m: nat)
    requires j < m
    ensures Bit(w + Pow2(m) * h, j) == Bit(w, j)
    decreases j
  {
    MulAssoc(2, Pow2(m - 1), h);
    HalfShift(w, Pow2(m - 1) * h);
    if j > 0 {
      BitLow(w / 2, h, j - 1, m - 1);
    }
  }

  lemma HalfShift(w: int, t: int)
    ensures (w + 2 * t) / 2 == w / 2 + t && (w + 2 * t) % 2 == w % 2
  {
  }

  /** The test (x & (1 << j)) != 0 is the test of bit j. */
  lemma {:induction false} AndPow2(x: nat, j: nat)
    ensures And(x, Pow2(j)) != 0 <==> Bit(x, j) == 1
  {
    if j == 0 {
      AndZero(x / 2);
    } else {
      AndPow2(x / 2, j - 1);
    }
  }

  lemma {:induction false} AndZero(x: nat)
    ensures And(x, 0) == 0
  {
    if x > 0 { AndZero(x / 2); }
  }

  /** And with a mask of j ones keeps the j low bits. */
  lemma {:induction false} AndMask(x: nat, j: nat)
    ensures And(x, Pow2(j) - 1) == x % Pow2(j)
    decreases j
  {
    assert j > 0 ==> Pow2(j) == 2 * Pow2(j - 1);
    assert Pow2(0) == 1;
    hide Pow2, And;
    if j == 0 {
      AndZero(x);
    } else {
      AndMask(x / 2, j - 1);
      AndMaskStep(x, Pow2(j - 1));
    }
  }

  lemma AndMaskStep(x: nat, c: nat)
    requires c > 0 && And(x / 2, c - 1) == (x / 2) % c
    ensures And(x, 2 * c - 1) == x % (2 * c)
  {
    hide And;
    AndOdd(x, c - 1);
    ModDouble(x, c);
  }

  lemma AndOdd(x: nat, m: nat)
    ensures And(x, 2 * m + 1) == 2 * And(x / 2, m) + x % 2
  {
    assert (2 * m + 1) / 2 == m && (2 * m + 1) % 2 == 1;
  }

  lemma ModDouble(x: int, c: int)
    requires c > 0
    ensures x % (2 * c) == 2 * ((x / 2) % c) + x % 2
  {
    var h := x / 2;
    DivModFacts(h, c);
    MulAssoc(2, c, h / c);
    DivUnique(x, 2 * c, h / c, 2 * (h % c) + x % 2);
  }

  /** The bit length of a number. */
  function BitLength(m: nat): nat {
    if m == 0 then 0 else 1 + BitLength(m / 2)
  }

  lemma {:induction false} BitLengthUnique(m: nat, r: nat)
    requires m < Pow2(r) && (r > 0 ==> Pow2(r - 1) <= m)
    ensures BitLength(m) == r
  {
    if r == 1 {
      assert Pow2(1) == 2 && Pow2(0) == 1 && BitLength(0) == 0;
    } else if r > 1 {
      assert Pow2(r) == 2 * Pow2(r - 1) && Pow2(r - 1) == 2 * Pow2(r - 2);
      BitLengthUnique(m / 2, r - 1);
    }
  }

  // ----- values of word sequences -----

  /** The number a little-endian sequence of words stands for. */
  ghost function Val(s: seq<Word>): nat
  {
    if |s| == 0 then 0 else Val(s[..|s| - 1]) + BPow(|s| - 1) * s[|s| - 1]
  }

  lemma ValEmpty(s: seq<Word>)
    requires |s| == 0
    ensures Val(s) == 0
  {
  }

  lemma ValStep(s: seq<Word>, i: nat)
    requires i < |s|
    ensures Val(s[..i + 1]) == Val(s[..i]) + BPow(i) * s[i]
  {
    assert s[..i + 1][..i] == s[..i];
  }

  lemma {:induction false} ValBound(s: seq<Word>)
    ensures Val(s) < BPow(|s|)
  {
    if |s| > 0 {
      var n := |s| - 1;
      ValBound(s[..n]);
      DigitBound(BPow(n), s[n], Val(s[..n]));
    }
  }

  lemma DigitBound(p: nat, w: Word, v: int)
    requires v < p
    ensures v + p * w < BASE * p
  {
    MulMono(p, w, BASE - 1);
  }

  lemma {:induction false} ValSplit(s: seq<Word>, i: nat)
    requires i <= |s|
    ensures Val(s) == Val(s[..i]) + BPow(i) * Val(s[i..])
  {
    if i == |s| {
      assert s[..i] == s;
    } else {
      var n := |s| - 1;
      ValSplit(s[..n], i);
      assert s[..n][..i] == s[..i];
      assert s[i..][..n - i] == s[..n][i..];
      BPowAdd(i, n - i);
      SplitDigit(BPow(i), BPow(n - i), Val(s[..n][i..]), s[n]);
    }
  }

  lemma SplitDigit(p: int, q: int, v: int, w: int)
    ensures p * (v + q * w) == p * v + (p * q) * w
  {
    MulDistrib(p, v, q * w);
    MulAssoc(p, q, w);
  }

  /** Peeling the least significant word. */
  lemma ValTail(s: seq<Word>, i: nat)
    requires i < |s|
    ensures Val(s[i..]) == s[i] + BASE * Val(s[i + 1..])
  {
    var t := s[i..];
    ValSplit(t, 1);
    assert t[1..] == s[i + 1..];
    assert t[..1][..0] == [];
    assert Val(t[..1]) == t[0];
    assert BPow(1) == BASE;
  }

  lemma {:induction false} ValInjective(s: seq<Word>, t: seq<Word>)
    requires |s| == |t| && Val(s) == Val(t)
    ensures s == t
  {
    if |s| > 0 {
      var n := |s| - 1;
      ValBound(s[..n]);
      ValBound(t[..n]);
      QuotientUnique(BPow(n), s[n], Val(s[..n]), t[n], Val(t[..n]));
      ValInjective(s[..n], t[..n]);
      assert s == s[..n] + [s[n]] && t == t[..n] + [t[n]];
    }
  }

  lemma {:induction false} ValZero(s: seq<Word>)
    ensures Val(s) == 0 <==> forall i :: 0 <= i < |s| ==> s[i] == 0
  {
    if |s| > 0 {
      var n := |s| - 1;
      ValZero(s[..n]);
      assert forall i :: 0 <= i < n ==> s[..n][i] == s[i];
      if s[n] > 0 {
        MulMono(BPow(n), 1, s[n]);
      }
    }
  }

  /** The value held by the first n words of an array. */
  ghost function V(a: array<Word>, n: nat): nat
    requires n <= a.Length
    reads a
  {
    Val(a[..n])
  }
}
