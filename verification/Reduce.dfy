/**
 Modular addition and subtraction, and the generic shift-and-subtract reduction.
 */
module Reduce {
  import opened Arith
  import opened Words
  import opened Vli
  import opened Product

  lemma ModOnce(x: int, m: int)
    requires 0 <= x < 2 * m
    ensures x % m == if x < m then x else x - m
  {
    DivUnique(x, m, if x < m then 0 else 1, if x < m then x else x - m);
  }

  lemma ModNegOnce(x: int, m: int)
    requires -m <= x < m
    ensures x % m == if x < 0 then x + m else x
  {
    DivUnique(x, m, if x < 0 then -1 else 0, if x < 0 then x + m else x);
  }

  /** A value modulo the word range, when a carry of at most one word is dropped. */
  lemma DropCarry(x: int, c: int, p: int, y: int)
    requires 0 <= x < p && 0 <= y < p && x + p * c == y && -1 <= c <= 1
    ensures x == y
  {
  }

  method ModAdd(result: array<Word>, left: array<Word>, right: array<Word>, mod: array<Word>, n: nat)
    requires n <= result.Length && n <= left.Length && n <= right.Length && n <= mod.Length
    requires result != mod
    requires V(left, n) < V(mod, n) && V(right, n) < V(mod, n)
    modifies result
    ensures V(result, n) == (old(V(left, n)) + old(V(right, n))) % V(mod, n)
    ensures forall j :: n <= j < result.Length ==> result[j] == old(result[j])
  {
    hide Val, BPow;
    ghost var m, t := V(mod, n), V(left, n) + V(right, n);
    ModOnce(t, m);
    var carry := Add(result, left, right, n);
    ValBound(mod[..n]);
    var c := CmpUnsafe(mod, result, n);
    if carry != 0 || c != 1 {
      ghost var r0 := V(result, n);
      ValBound(result[..n]);
      var borrow := Sub(result, result, mod, n);
      ValBound(result[..n]);
      ghost var b: int := borrow;
      MulDistrib(BPow(n), carry, -b);
      DropCarry(V(result, n), carry - b, BPow(n), t - m);
    }
  }

  method ModSub(result: array<Word>, left: array<Word>, right: array<Word>, mod: array<Word>, n: nat)
    requires n <= result.Length && n <= left.Length && n <= right.Length && n <= mod.Length
    requires result != mod
    requires V(left, n) < V(mod, n) && V(right, n) < V(mod, n)
    modifies result
    ensures V(result, n) == (old(V(left, n)) - old(V(right, n))) % V(mod, n)
    ensures forall j :: n <= j < result.Length ==> result[j] == old(result[j])
  {
    hide Val, BPow;
    ghost var m, t := V(mod, n), V(left, n) - V(right, n);
    ModNegOnce(t, m);
    var borrow := Sub(result, left, right, n);
    ValBound(mod[..n]);
    ValBound(result[..n]);
    if borrow != 0 {
      var carry := Add(result, result, mod, n);
      ValBound(result[..n]);
      ghost var b: int := borrow;
      MulDistrib(BPow(n), carry, -b);
      DropCarry(V(result, n), carry - b, BPow(n), t + m);
    }
  }

  // ----- shift-and-subtract reduction -----

  /** One word of the left shift by k bits. */
  lemma ShiftLeftWord(w: Word, k: nat, carry: nat) returns (out: nat)
    requires 0 < k < 32 && carry < Pow2(k)
    ensures Pow2(32 - k) > 0 && out == w / Pow2(32 - k) < Pow2(k)
    ensures Or((w * Pow2(k)) % BASE, carry) == (w * Pow2(k)) % BASE + carry < BASE
    ensures Or((w * Pow2(k)) % BASE, carry) + BASE * out == Pow2(k) * w + carry
  {
    hide Or, Pow2;
    Pow2Of32();
    Pow2Add(k, 32 - k);
    SplitWord(w, Pow2(k), Pow2(32 - k));
    OrDisjoint(w % Pow2(32 - k), carry, k);
    out := w / Pow2(32 - k);
  }

  lemma SplitWord(w: Word, p: nat, s: nat)
    requires p > 0 && s > 0 && p * s == BASE
    ensures var q, r := w / s, w % s;
      && 0 <= q < p
      && (w * p) % BASE == r * p <= BASE - p
      && r * p + BASE * q == p * w
  {
    DivModFacts(w, s);
    ShiftedParts(p, s, w / s, w % s, w);
    DivUnique(w * p, BASE, w / s, (w % s) * p);
  }

  /** p * s is the word range; w splits into its high part q and low part r. */
  lemma ShiftedParts(p: int, s: int, q: int, r: int, w: Word)
    requires p > 0 && s > 0 && p * s == BASE && 0 <= r < s && w == s * q + r
    ensures 0 <= q < p
    ensures w * p == BASE * q + r * p && 0 <= r * p <= BASE - p
  {
    if q < 0 { MulMono(s, q, -1); }
    if q >= p { MulMono(s, p, q); }
    MulAssoc(p, s, q);
    MulDistrib(p, s * q, r);
    MulMono(p, r, s - 1);
    MulMono(p, 0, r);
    MulDistrib(p, s, -1);
  }

  lemma ShiftLeftStep(low: seq<Word>, d: Word, M: seq<Word>, i: nat, s: int, carry: int, out: int)
    requires |low| == i < |M|
    requires Val(low) + BPow(i) * carry == s * Val(M[..i])
    requires d + BASE * out == s * M[i] + carry
    ensures Val(low + [d]) + BPow(i + 1) * out == s * Val(M[..i + 1])
  {
    ValSnoc(low, d);
    ValStep(M, i);
    assert BPow(i + 1) == BASE * BPow(i);
    hide Val, BPow;
    ShiftedDigit(BPow(i), s, Val(low), carry, d, out, Val(M[..i]), M[i]);
  }

  lemma ShiftedDigit(p: int, s: int, v: int, carry: int, d: int, out: int, t: int, m: int)
    requires v + p * carry == s * t && d + BASE * out == s * m + carry
    ensures (v + p * d) + (BASE * p) * out == s * (t + p * m)
  {
    MulDistrib(p, d, BASE * out);
    MulDistrib(p, s * m, carry);
    MulDistrib(s, t, p * m);
    MulAssoc(s, p, m);
    MulAssoc(p, s, m);
  }

  /** The loop of the shift, with the carry that is left over. */
  method ShiftWords(multiple: array<Word>, mod: array<Word>, n: nat, bitShift: nat) returns (carry: Word)
    requires multiple.Length == 2 * n && n <= mod.Length && multiple != mod && 0 < bitShift < 32
    modifies multiple
    ensures Val(multiple[n..2 * n]) + BPow(n) * carry == Pow2(bitShift) * V(mod, n)
    ensures multiple[..n] == old(multiple[..n])
  {
    hide Val, BPow, Pow2, Or;
    ghost var M, low, s := mod[..n], multiple[..n], Pow2(bitShift);
    carry := 0;
    var index := 0;
    StartShift(multiple[n..n], M[..0], BPow(0), s);
    while index < n
      invariant index <= n && carry < s && mod[..n] == M && multiple[..n] == low
      invariant Val(multiple[n..n + index]) + BPow(index) * carry == s * Val(M[..index])
    {
      ghost var out := ShiftLeftWord(mod[index], bitShift, carry);
      ghost var done := multiple[n..n + index];
      var d := Or((mod[index] * Pow2(bitShift)) % BASE, carry);
      ShiftLeftStep(done, d, M, index, s, carry, out);
      multiple[n + index] := d;
      assert multiple[n..n + index + 1] == done + [d];
      carry := mod[index] / Pow2(32 - bitShift);
      index := index + 1;
    }
    assert M[..n] == M;
  }

  lemma StartShift(e: seq<Word>, f: seq<Word>, p: int, s: int)
    requires |e| == |f| == 0
    ensures Val(e) + p * 0 == s * Val(f)
  {
    ValEmpty(e);
    ValEmpty(f);
  }

  /** Writes mod, shifted left by bitShift bits, into the upper half of multiple. */
  method ShiftIn(multiple: array<Word>, mod: array<Word>, n: nat, bitShift: nat)
    requires multiple.Length == 2 * n && n <= mod.Length && multiple != mod && bitShift < 32
    requires Pow2(bitShift) * V(mod, n) < BPow(n)
    modifies multiple
    ensures V(multiple, 2 * n) == BPow(n) * (Pow2(bitShift) * V(mod, n))
  {
    hide Val, BPow, Pow2;
    Clear(multiple, n);
    ghost var low := multiple[..n];
    if bitShift > 0 {
      var carry := ShiftWords(multiple, mod, n, bitShift);
      NoCarry(BPow(n), Val(multiple[n..2 * n]), carry);
    } else {
      Set(multiple, n, mod, n);
      assert multiple[n..2 * n] == mod[..n] && multiple[..n] == low;
      Pow2Zero();
    }
    assert multiple[..2 * n][..n] == low && multiple[..2 * n][n..] == multiple[n..2 * n];
    UpperHalf(multiple[..2 * n], n);
  }

  lemma UpperHalf(s: seq<Word>, n: nat)
    requires n <= |s| && Val(s[..n]) == 0
    ensures Val(s) == BPow(n) * Val(s[n..])
  {
    ValSplit(s, n);
  }

  lemma NoCarry(p: int, x: int, c: int)
    requires 0 < p && 0 <= x && x + p * c < p && 0 <= c
    ensures c == 0
  {
    if c > 0 { MulMono(p, 1, c); }
  }

  /** Halving a double-length number half by half, with the middle bit carried over. */
  lemma HalvesJoin(p: int, lo: int, hi: int, h: int)
    requires p == 2 * h
    ensures (lo + p * hi) / 2 == lo / 2 + h * (hi % 2) + p * (hi / 2)
  {
    MulAssoc(2, h, hi);
    MulDistrib(h, 2 * (hi / 2), hi % 2);
    MulAssoc(h, 2, hi / 2);
    assert lo + p * hi == lo + 2 * (h * hi);
    HalfShift(lo, h * hi);
  }

  lemma {:induction false} BPowEven(n: nat)
    requires n > 0
    ensures BPow(n) == 2 * (BPow(n - 1) * HIGH_BIT_SET)
  {
  }

  /** The value when only the top word of n is changed. */
  lemma ChangeTop(s: seq<Word>, t: seq<Word>)
    requires |s| == |t| > 0 && s[..|s| - 1] == t[..|s| - 1]
    ensures Val(t) == Val(s) + BPow(|s| - 1) * (t[|s| - 1] as int - s[|s| - 1] as int)
  {
    var n := |s| - 1;
    assert Val(t) == Val(s[..n]) + BPow(n) * t[n] && Val(s) == Val(s[..n]) + BPow(n) * s[n];
    hide Val, BPow;
    MulDistrib(BPow(|s| - 1), t[|s| - 1], -(s[|s| - 1] as int));
  }

  lemma LowParity(s: seq<Word>)
    requires |s| > 0
    ensures Val(s) % 2 == s[0] % 2
  {
    hide Val;
    ValTail(s, 0);
    assert s[0..] == s;
    WordParity(s[0], Val(s[1..]));
  }

  lemma WordParity(w: int, v: int)
    ensures (w + BASE * v) % 2 == w % 2
  {
    assert w + BASE * v == w + 2 * (0x8000_0000 * v);
    HalfShift(w, 0x8000_0000 * v);
  }

  /** Shifts the whole 2n-word multiple right by one bit, in two halves. */
  method HalveMultiple(multiple: array<Word>, n: nat)
    requires n > 0 && multiple.Length == 2 * n
    modifies multiple
    ensures V(multiple, 2 * n) == old(V(multiple, 2 * n)) / 2
  {
    hide Val, BPow, Or;
    ghost var lo, hi := multiple[0..n], multiple[n..n + n];
    HalvesValue(multiple[..2 * n], lo, hi, n);
    HalveLower(multiple, n);
    ghost var lo2 := multiple[0..n];
    assert multiple[n..n + n] == hi;
    RShift1(multiple, n, n);
    assert multiple[0..n] == lo2;
    HalvesValue(multiple[..2 * n], lo2, multiple[n..n + n], n);
    BPowEven(n);
    HalvesJoin(BPow(n), Val(lo), Val(hi), BPow(n - 1) * HIGH_BIT_SET);
  }

  lemma HalvesValue(s: seq<Word>, lo: seq<Word>, hi: seq<Word>, n: nat)
    requires |s| == 2 * n && lo == s[..n] && hi == s[n..]
    ensures Val(s) == Val(lo) + BPow(n) * Val(hi)
  {
    ValSplit(s, n);
  }

  /** The lower half is shifted right, and the low bit of the upper half enters at its top. */
  method HalveLower(multiple: array<Word>, n: nat)
    requires n > 0 && multiple.Length == 2 * n
    modifies multiple
    ensures var hi := Val(old(multiple[n..n + n]));
      Val(multiple[0..n]) == old(Val(multiple[0..n])) / 2 + (BPow(n - 1) * HIGH_BIT_SET) * (hi % 2)
    ensures multiple[n..n + n] == old(multiple[n..n + n])
  {
    hide Val, BPow, Or;
    ghost var hi := multiple[n..n + n];
    RShift1(multiple, 0, n);
    ghost var lo1 := multiple[0..n];
    ShiftWord(2 * multiple[n - 1], multiple[n] % 2);
    ShiftWord(multiple[n], 0);
    multiple[n - 1] := Or(multiple[n - 1], (multiple[n] * HIGH_BIT_SET) % BASE);
    ChangeTop(lo1, multiple[0..n]);
    LowParity(hi);
    assert multiple[n..n + n] == hi;
    MulAssoc(BPow(n - 1), HIGH_BIT_SET, Val(hi) % 2);
  }

  /** A double-length number below the modulus has all its words in the lower half. */
  lemma LowHalf(s: seq<Word>, n: nat)
    requires n <= |s| && Val(s) < BPow(n)
    ensures Val(s[..n]) == Val(s)
  {
    hide Val, BPow;
    ValSplit(s, n);
    if Val(s[n..]) > 0 {
      MulMono(BPow(n), 1, Val(s[n..]));
    }
  }

  /** One conditional subtraction: the remainder keeps its residue and halves its bound. */
  lemma ReduceStep(x: int, d: int, w: int, borrow: int, p: int, m: int, k: nat)
    requires 0 <= x < p && 0 <= d < p && 0 <= borrow <= 1 && w == m * Pow2(k)
    requires d - p * borrow == x - w && x < m * Pow2(k + 1) && m > 0
    ensures borrow == 1 <==> x < w
    ensures var y := if borrow == 0 then d else x;
      y < m * Pow2(k) && y % m == x % m
  {
    assert m * Pow2(k + 1) == 2 * w by { MulAssoc(2, m, Pow2(k)); MulAssoc(m, 2, Pow2(k)); }
    hide Pow2;
    BorrowIsLess(x - w, d, p, borrow);
    if borrow == 0 {
      MulMono(m, 0, Pow2(k));
      SubtractMultiple(x, m, Pow2(k));
    }
  }

  lemma BorrowIsLess(t: int, d: int, p: int, borrow: int)
    requires 0 <= borrow <= 1 && 0 <= d < p && d - p * borrow == t
    ensures borrow == 1 <==> t < 0
  {
  }

  lemma SubtractMultiple(x: int, m: int, q: int)
    requires m > 0
    ensures (x - m * q) % m == x % m
  {
    DivModFacts(x, m);
    MulDistrib(m, x / m, -q);
    DivUnique(x - m * q, m, x / m - q, x % m);
  }

  /** The modulus, shifted so that its highest set bit is at the top of 2n words. */
  method TopMultiple(mod: array<Word>, n: nat) returns (multiple: array<Word>, shift: nat)
    requires 0 < n <= mod.Length && mod[n - 1] != 0
    ensures fresh(multiple) && multiple.Length == 2 * n
    ensures V(multiple, 2 * n) == V(mod, n) * Pow2(shift)
    ensures BPow(2 * n) <= V(mod, n) * Pow2(shift + 1)
  {
    hide Val, BPow, Pow2;
    multiple := new Word[2 * n];
    var bits := NumBits(mod, n);
    shift := 64 * n - bits;
    TopPosition(V(mod, n), n, bits);
    ShiftIn(multiple, mod, n, shift % 32);
  }

  /** One round of the reduction: a conditional subtraction into the other buffer. */
  method SubtractOnce(dst: array<Word>, src: array<Word>, multiple: array<Word>, n: nat, ghost m: int, ghost k: nat)
    returns (borrow: Word)
    requires dst.Length == src.Length == multiple.Length == 2 * n && dst != src && dst != multiple && m > 0
    requires V(multiple, 2 * n) == m * Pow2(k) && V(src, 2 * n) < m * Pow2(k + 1)
    modifies dst
    ensures borrow <= 1 && (borrow == 1 <==> V(src, 2 * n) < V(multiple, 2 * n))
    ensures var y := if borrow == 0 then V(dst, 2 * n) else V(src, 2 * n);
      y < m * Pow2(k) && y % m == V(src, 2 * n) % m
  {
    hide Val, BPow, Pow2;
    ghost var x, w := V(src, 2 * n), V(multiple, 2 * n);
    borrow := Sub(dst, src, multiple, 2 * n);
    ValBound(dst[..2 * n]);
    ValBound(src[..2 * n]);
    ReduceStep(x, V(dst, 2 * n), w, borrow, BPow(2 * n), m, k);
  }

  /** result = product % mod; product is used as working space. */
  method Mmod(result: array<Word>, product: array<Word>, mod: array<Word>, n: nat)
    requires n > 0 && n <= result.Length && 2 * n == product.Length && n <= mod.Length
    requires result != product && result != mod && product != mod
    requires mod[n - 1] != 0 && V(mod, n) > 0
    modifies result, product
    ensures V(result, n) == old(V(product, 2 * n)) % V(mod, n)
    ensures forall j :: n <= j < result.Length ==> result[j] == old(result[j])
  {
    hide Val, BPow, Pow2, Xor;
    ghost var m, x0 := V(mod, n), V(product, 2 * n);
    var tmp := new Word[2 * n];
    var v := [tmp, product];
    var multiple, top := TopMultiple(mod, n);
    var shift: int := top;
    ValBound(product[..2 * n]);
    var index := 1;
    ghost var x := x0;
    while shift >= 0
      invariant -1 <= shift && 0 <= index <= 1
      invariant shift >= 0 ==> V(multiple, 2 * n) == m * Pow2(shift)
      invariant x == V(v[index], 2 * n) && x % m == x0 % m && x < m * Pow2(shift + 1)
      invariant V(mod, n) == m
      invariant forall j :: n <= j < result.Length ==> result[j] == old(result[j])
    {
      var borrow := SubtractOnce(v[1 - index], v[index], multiple, n, m, shift);
      XorIsZero(index, borrow);
      index := B2n(Xor(index, borrow) == 0);
      x := V(v[index], 2 * n);
      HalveMultiple(multiple, n);
      HalvePower(m, shift);
      shift := shift - 1;
    }
    Pow2Zero();
    ValBound(mod[..n]);
    LowHalf(v[index][..2 * n], n);
    assert v[index][..2 * n][..n] == v[index][..n];
    Set(result, 0, v[index], n);
    assert result[..n] == v[index][..n];
    DivUnique(x, m, 0, x);
  }

  lemma Pow2Zero()
    ensures Pow2(0) == 1
  {
  }

  lemma HalvePower(m: int, k: nat)
    ensures k > 0 ==> (m * Pow2(k)) / 2 == m * Pow2(k - 1)
  {
    if k > 0 {
      assert Pow2(k) == 2 * Pow2(k - 1);
      MulAssoc(m, 2, Pow2(k - 1));
      MulAssoc(2, m, Pow2(k - 1));
    }
  }

  /** Shifting by 64n minus the bit length puts the top bit of the modulus at the top. */
  lemma TopPosition(m: int, n: nat, bits: nat)
    requires n > 0 && 32 * (n - 1) < bits <= 32 * n && Pow2(bits - 1) <= m < Pow2(bits)
    ensures var shift := 64 * n - bits;
      && Pow2(shift % 32) * m < BPow(n)
      && BPow(n) * (Pow2(shift % 32) * m) == m * Pow2(shift)
      && BPow(2 * n) <= m * Pow2(shift + 1)
  {
    hide Pow2, BPow;
    var k := (64 * n - bits) % 32;
    assert 64 * n - bits == 32 * n + k && k + bits == 32 * n;
    BPowIsPow2(n);
    Pow2Add(k, bits);
    Pow2Add(32 * n, k);
    AlignedBounds(m, Pow2(k), Pow2(bits), BPow(n));
    FullRange(m, n, bits);
  }

  lemma FullRange(m: int, n: nat, bits: nat)
    requires 0 < bits <= 32 * n && Pow2(bits - 1) <= m
    ensures BPow(2 * n) <= m * Pow2(64 * n - bits + 1)
  {
    hide Pow2, BPow;
    BPowIsPow2(2 * n);
    Pow2Add(bits - 1, 64 * n - bits + 1);
    MulMono(Pow2(64 * n - bits + 1), Pow2(bits - 1), m);
  }

  lemma AlignedBounds(m: int, s: int, t: int, p: int)
    requires s > 0 && m < t && s * t == p
    ensures s * m < p && p * (s * m) == m * (p * s)
  {
    MulMono(s, m + 1, t);
    MulDistrib(s, m, 1);
    MulAssoc(p, s, m);
  }

  method ModMult(result: array<Word>, left: array<Word>, right: array<Word>, mod: array<Word>, n: nat)
    requires 1 <= n <= BASE
    requires n <= result.Length && n <= left.Length && n <= right.Length && n <= mod.Length
    requires result != mod && mod[n - 1] != 0 && V(mod, n) > 0
    modifies result
    ensures V(result, n) == (old(V(left, n)) * old(V(right, n))) % V(mod, n)
    ensures forall j :: n <= j < result.Length ==> result[j] == old(result[j])
  {
    var product := new Word[2 * n];
    Mult(product, left, right, n);
    Mmod(result, product, mod, n);
  }
}
