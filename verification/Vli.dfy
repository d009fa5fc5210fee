/**
 The basic loops over multi-word integers: clearing, tests, comparisons, carry and borrow
 chains and the one-bit shift. An operand pointer of the C code is an array here, and the
 result array may be the same array as an operand.
 */
module Vli {
  import opened Arith
  import opened Words

  method Clear(vli: array<Word>, n: nat)
    requires n <= vli.Length
    modifies vli
    ensures V(vli, n) == 0
    ensures forall j :: 0 <= j < vli.Length ==> vli[j] == if j < n then 0 else old(vli[j])
  {
    var i := 0;
    while i < n
      invariant i <= n
      invariant forall j :: 0 <= j < vli.Length ==> vli[j] == if j < i then 0 else old(vli[j])
    {
      vli[i] := 0;
      i := i + 1;
    }
    ValZero(vli[..n]);
  }

  method IsZero(vli: array<Word>, n: nat) returns (zero: bool)
    requires n <= vli.Length
    ensures zero <==> V(vli, n) == 0
  {
    var bits: Word := 0;
    var i := 0;
    while i < n
      invariant i <= n
      invariant bits == 0 <==> forall j :: 0 <= j < i ==> vli[j] == 0
    {
      WordBitwise(bits, vli[i]);
      OrIsZero(bits, vli[i]);
      bits := Or(bits, vli[i]);
      i := i + 1;
    }
    ValZero(vli[..n]);
    return bits == 0;
  }

  /** Bit b of a word sequence sits in word b / 32. */
  lemma BitOfVal(s: seq<Word>, b: nat)
    requires b / 32 < |s|
    ensures Bit(Val(s), b) == Bit(s[b / 32], b % 32)
  {
    hide Val, BPow, Pow2, Bit;
    var w, j := b / 32, b % 32;
    ValSplit(s, w);
    ValBound(s[..w]);
    DivUnique(Val(s), BPow(w), Val(s[w..]), Val(s[..w]));
    BPowIsPow2(w);
    BitShift(Val(s), 32 * w, j);
    ValTail(s, w);
    Pow2Of32();
    BitLow(s[w], Val(s[w + 1..]), j, 32);
  }

  method TestBit(vli: array<Word>, bit: nat) returns (r: Word)
    requires bit / 32 < vli.Length
    ensures r != 0 <==> Bit(Val(vli[..]), bit) == 1
  {
    var mask := Pow2(bit % 32);
    Pow2Of32();
    Pow2Mono(bit % 32, 31);
    WordBitwise(vli[bit / 32], mask);
    AndPow2(vli[bit / 32], bit % 32);
    BitOfVal(vli[..], bit);
    return And(vli[bit / 32], mask);
  }

  /** The number of words up to the most significant non-zero one. */
  method NumDigits(vli: array<Word>, maxWords: nat) returns (digits: nat)
    requires maxWords <= vli.Length
    ensures digits <= maxWords
    ensures forall j :: digits <= j < maxWords ==> vli[j] == 0
    ensures digits > 0 ==> vli[digits - 1] != 0
  {
    var i := maxWords - 1;
    while i >= 0 && vli[i] == 0
      invariant -1 <= i < maxWords
      invariant forall j :: i < j < maxWords ==> vli[j] == 0
    {
      i := i - 1;
    }
    return i + 1;
  }

  /** The bit length of one word. */
  method DigitBits(word: Word) returns (i: nat)
    requires word > 0
    ensures i > 0 && Pow2(i - 1) <= word < Pow2(i)
  {
    var digit := word;
    i := 0;
    while digit > 0
      invariant Pow2(i) * digit <= word < Pow2(i) * (digit as int + 1)
      invariant i > 0 ==> Pow2(i - 1) <= word
      invariant digit == 0 ==> i > 0
      decreases digit
    {
      HalveDigit(Pow2(i), digit, word);
      digit := digit / 2;
      i := i + 1;
    }
  }

  /** The bit length: the least r with V(vli) < 2^r. */
  method NumBits(vli: array<Word>, maxWords: nat) returns (r: nat)
    requires maxWords <= vli.Length
    ensures V(vli, maxWords) < Pow2(r)
    ensures r > 0 ==> Pow2(r - 1) <= V(vli, maxWords)
    ensures maxWords > 0 && vli[maxWords - 1] != 0 ==> 32 * (maxWords - 1) < r <= 32 * maxWords
  {
    var digits := NumDigits(vli, maxWords);
    if digits == 0 {
      ValZero(vli[..maxWords]);
      return 0;
    }
    var i := DigitBits(vli[digits - 1]);
    hide Val, Pow2;
    LengthOfVal(vli[..maxWords], digits - 1, i);
    return 32 * (digits - 1) + i;
  }

  /** The bit length of a sequence whose last non-zero word is word k, of bit length i. */
  lemma LengthOfVal(s: seq<Word>, k: nat, i: nat)
    requires k < |s| && i > 0 && Pow2(i - 1) <= s[k] < Pow2(i)
    requires forall j :: k < j < |s| ==> s[j] == 0
    ensures i <= 32
    ensures Pow2(32 * k + i - 1) <= Val(s) < Pow2(32 * k + i)
  {
    TopWordLength(s[k], i);
    ValStep(s, k);
    ValBound(s[..k]);
    LengthOfTop(Val(s[..k]), s[k], k, i);
    HighZeros(s, k + 1);
  }

  lemma HalveDigit(p: int, d: int, t: int)
    requires p > 0 && d > 0 && p * d <= t < p * (d + 1)
    ensures p <= t && (2 * p) * (d / 2) <= t < (2 * p) * (d / 2 + 1)
  {
    MulMono(p, 1, d);
    MulMono(p, 2 * (d / 2), d);
    MulMono(p, d + 1, 2 * (d / 2 + 1));
    MulAssoc(p, 2, d / 2);
    MulAssoc(p, 2, d / 2 + 1);
  }

  lemma TopWordLength(w: Word, i: nat)
    requires i > 0 && Pow2(i - 1) <= w
    ensures i <= 32
  {
    if i > 32 {
      Pow2Mono(32, i - 1);
      Pow2Of32();
    }
  }

  /** The bit length of a number whose top word is word k and has bit length i. */
  lemma LengthOfTop(v: int, w: Word, k: nat, i: nat)
    requires 0 <= v < BPow(k) && i > 0 && Pow2(i - 1) <= w < Pow2(i)
    ensures Pow2(32 * k + i - 1) <= v + BPow(k) * w < Pow2(32 * k + i)
  {
    BPowIsPow2(k);
    Pow2Add(32 * k, i - 1);
    Pow2Add(32 * k, i);
    MulMono(BPow(k), Pow2(i - 1), w);
    MulMono(BPow(k), w + 1, Pow2(i));
    MulDistrib(BPow(k), w, 1);
  }

  lemma HighZeros(s: seq<Word>, d: nat)
    requires d <= |s| && forall j :: d <= j < |s| ==> s[j] == 0
    ensures Val(s) == Val(s[..d])
  {
    ValSplit(s, d);
    ValZero(s[d..]);
  }

  method Set(dest: array<Word>, at: nat, src: array<Word>, n: nat)
    requires at + n <= dest.Length && n <= src.Length && dest != src
    modifies dest
    ensures forall j :: 0 <= j < dest.Length ==>
      dest[j] == if at <= j < at + n then src[j - at] else old(dest[j])
  {
    var i := 0;
    while i < n
      invariant i <= n
      invariant forall j :: 0 <= j < dest.Length ==>
        dest[j] == if at <= j < at + i then src[j - at] else old(dest[j])
    {
      dest[at + i] := src[i];
      i := i + 1;
    }
  }

  function Sign(x: int): int {
    if x > 0 then 1 else if x < 0 then -1 else 0
  }

  /** The most significant differing word decides. */
  lemma ValLess(s: seq<Word>, t: seq<Word>, i: nat)
    requires |s| == |t| && i < |s| && s[i] < t[i]
    requires s[i + 1..] == t[i + 1..]
    ensures Val(s) < Val(t)
  {
    ValSplit(s, i);
    ValSplit(t, i);
    ValTail(s, i);
    ValTail(t, i);
    ValBound(s[..i]);
    HighDecides(BPow(i), Val(s[..i]), Val(s[i..]), Val(t[..i]), Val(t[i..]));
  }

  lemma HighDecides(p: int, a: int, x: int, b: int, y: int)
    requires a < p && 0 <= b && x < y
    ensures 0 <= p ==> a + p * x < b + p * y
  {
    if 0 <= p {
      MulMono(p, x + 1, y);
      MulDistrib(p, x, 1);
    }
  }

  method CmpUnsafe(left: array<Word>, right: array<Word>, n: nat) returns (r: int)
    requires n <= left.Length && n <= right.Length
    ensures r == Sign(V(left, n) - V(right, n))
  {
    var i := n - 1;
    while i >= 0
      invariant -1 <= i < n
      invariant forall j :: i < j < n ==> left[j] == right[j]
    {
      ghost var s, t := left[..n], right[..n];
      assert s[i + 1..] == t[i + 1..];
      if left[i] > right[i] {
        ValLess(t, s, i);
        return 1;
      } else if left[i] < right[i] {
        ValLess(s, t, i);
        return -1;
      }
      i := i - 1;
    }
    assert left[..n] == right[..n];
    return 0;
  }

  /** Despite its name in the C code, true when the two numbers differ. */
  method Differ(left: array<Word>, right: array<Word>, n: nat) returns (r: bool)
    requires n <= left.Length && n <= right.Length
    ensures r <==> V(left, n) != V(right, n)
  {
    var diff: Word := 0;
    var i := n - 1;
    while i >= 0
      invariant -1 <= i < n
      invariant diff == 0 <==> forall j :: i < j < n ==> left[j] == right[j]
    {
      WordBitwise(left[i], right[i]);
      XorIsZero(left[i], right[i]);
      WordBitwise(diff, Xor(left[i], right[i]));
      OrIsZero(diff, Xor(left[i], right[i]));
      diff := Or(diff, Xor(left[i], right[i]));
      i := i - 1;
    }
    if diff == 0 {
      assert left[..n] == right[..n];
    } else if V(left, n) == V(right, n) {
      ValInjective(left[..n], right[..n]);
      assert forall j :: 0 <= j < n ==> left[j] == left[..n][j] && right[j] == right[..n][j];
      assert false;
    }
    return diff != 0;
  }

  /** Selection without a branch. */
  method CondSet(pTrue: Word, pFalse: Word, cond: nat) returns (r: Word)
    requires cond <= 1
    ensures r == if cond == 1 then pTrue else pFalse
  {
    OrZeroRight(pTrue);
    OrZeroRight(pFalse);
    return Or(pTrue * cond, pFalse * (1 - cond));
  }

  function B2n(b: bool): nat { if b then 1 else 0 }

  /** The borrow rule of the chain: comparing the difference with the left word. */
  lemma BorrowRule(l: Word, r: Word, b: int, d: int)
    requires 0 <= b <= 1 && d == (l - r - b) % BASE
    ensures l - r - b == d - BASE * (if d != l then B2n(d > l) else b)
  {
  }

  lemma CarryRule(l: Word, r: Word, c: int, d: int)
    requires 0 <= c <= 1 && d == (l + r + c) % BASE
    ensures l + r + c == d + BASE * (if d != l then B2n(d < l) else c)
  {
  }

  /** One step of the addition chain, seen on the values. */
  lemma AddStep(low: seq<Word>, d: Word, L: seq<Word>, R: seq<Word>, i: nat, c: int, c1: int)
    requires |low| == i < |L| == |R|
    requires Val(low) + BPow(i) * c == Val(L[..i]) + Val(R[..i])
    requires L[i] + R[i] + c == d + BASE * c1
    ensures Val(low + [d]) + BPow(i + 1) * c1 == Val(L[..i + 1]) + Val(R[..i + 1])
  {
    ChainValues(low, d, L, R, i);
    assert BPow(i + 1) == BASE * BPow(i);
    hide BPow, Val;
    ChainStep(BPow(i), L[i], R[i], c, d, c1);
  }

  /** One step of the subtraction chain, seen on the values. */
  lemma SubStep(low: seq<Word>, d: Word, L: seq<Word>, R: seq<Word>, i: nat, b: int, b1: int)
    requires |low| == i < |L| == |R|
    requires Val(low) - BPow(i) * b == Val(L[..i]) - Val(R[..i])
    requires L[i] - R[i] - b == d - BASE * b1
    ensures Val(low + [d]) - BPow(i + 1) * b1 == Val(L[..i + 1]) - Val(R[..i + 1])
  {
    ChainValues(low, d, L, R, i);
    assert BPow(i + 1) == BASE * BPow(i);
    hide BPow, Val;
    BorrowStep(BPow(i), L[i], R[i], b, d, b1);
  }

  lemma ChainValues(low: seq<Word>, d: Word, L: seq<Word>, R: seq<Word>, i: nat)
    requires |low| == i < |L| == |R|
    ensures Val(low + [d]) == Val(low) + BPow(i) * d
    ensures Val(L[..i + 1]) == Val(L[..i]) + BPow(i) * L[i]
    ensures Val(R[..i + 1]) == Val(R[..i]) + BPow(i) * R[i]
  {
    assert (low + [d])[..i] == low && (low + [d])[..i + 1] == low + [d];
    ValStep(low + [d], i);
    ValStep(L, i);
    ValStep(R, i);
  }

  lemma BorrowStep(p: int, l: int, r: int, b: int, d: int, b1: int)
    requires l - r - b == d - BASE * b1
    ensures p * l - p * r - p * b == p * d - (BASE * p) * b1
  {
    ChainStep(p, l, -r, -b, d, -b1);
  }

  lemma ChainStep(p: int, l: int, r: int, c: int, d: int, c1: int)
    requires l + r + c == d + BASE * c1
    ensures p * l + p * r + p * c == p * d + (BASE * p) * c1
  {
    MulDistrib(p, l + r, c);
    MulDistrib(p, l, r);
    MulDistrib(p, d, BASE * c1);
  }

  /** The full subtraction chain; the borrow is exact. */
  method Sub(result: array<Word>, left: array<Word>, right: array<Word>, n: nat)
    returns (borrow: Word)
    requires n <= result.Length && n <= left.Length && n <= right.Length
    modifies result
    ensures borrow <= 1
    ensures V(result, n) - BPow(n) * borrow == old(V(left, n)) - old(V(right, n))
    ensures forall j :: n <= j < result.Length ==> result[j] == old(result[j])
  {
    hide BPow, Val;
    borrow := 0;
    var i := 0;
    ghost var L, R := left[..n], right[..n];
    ValEmpty(result[..0]);
    ValEmpty(L[..0]);
    ValEmpty(R[..0]);
    while i < n
      invariant i <= n && borrow <= 1
      invariant Val(result[..i]) - BPow(i) * borrow == Val(L[..i]) - Val(R[..i])
      invariant forall j :: i <= j < n ==> left[j] == L[j] && right[j] == R[j]
      invariant forall j :: n <= j < result.Length ==> result[j] == old(result[j])
    {
      var diff := (left[i] - right[i] - borrow) % BASE;
      var val := B2n(diff > left[i]);
      BorrowRule(left[i], right[i], borrow, diff);
      ghost var low, borrow0 := result[..i], borrow;
      borrow := CondSet(val, borrow, B2n(diff != left[i]));
      SubStep(low, diff, L, R, i, borrow0, borrow);
      result[i] := diff;
      assert result[..i + 1] == low + [diff];
      i := i + 1;
    }
    assert L[..n] == L && R[..n] == R;
  }

  /** The full addition chain; the carry is exact. */
  method Add(result: array<Word>, left: array<Word>, right: array<Word>, n: nat)
    returns (carry: Word)
    requires n <= result.Length && n <= left.Length && n <= right.Length
    modifies result
    ensures carry <= 1
    ensures V(result, n) + BPow(n) * carry == old(V(left, n)) + old(V(right, n))
    ensures forall j :: n <= j < result.Length ==> result[j] == old(result[j])
  {
    hide BPow, Val;
    carry := 0;
    var i := 0;
    ghost var L, R := left[..n], right[..n];
    ValEmpty(result[..0]);
    ValEmpty(L[..0]);
    ValEmpty(R[..0]);
    while i < n
      invariant i <= n && carry <= 1
      invariant Val(result[..i]) + BPow(i) * carry == Val(L[..i]) + Val(R[..i])
      invariant forall j :: i <= j < n ==> left[j] == L[j] && right[j] == R[j]
      invariant forall j :: n <= j < result.Length ==> result[j] == old(result[j])
    {
      var sum := (left[i] + right[i] + carry) % BASE;
      var val := B2n(sum < left[i]);
      CarryRule(left[i], right[i], carry, sum);
      ghost var low, carry0 := result[..i], carry;
      carry := CondSet(val, carry, B2n(sum != left[i]));
      AddStep(low, sum, L, R, i, carry0, carry);
      result[i] := sum;
      assert result[..i + 1] == low + [sum];
      i := i + 1;
    }
    assert L[..n] == L && R[..n] == R;
  }

  /** The comparison through a subtraction gives the same sign as the top-down one. */
  method Cmp(left: array<Word>, right: array<Word>, n: nat) returns (r: int)
    requires n <= left.Length && n <= right.Length
    ensures r == Sign(V(left, n) - V(right, n))
  {
    var tmp := new Word[n];
    ghost var l, d := V(left, n), V(right, n);
    var neg := Sub(tmp, left, right, n);
    var equal := IsZero(tmp, n);
    assert tmp[..n] == tmp[..];
    ValBound(tmp[..n]);
    ValBound(left[..n]);
    ValBound(right[..n]);
    return B2n(!equal) - 2 * neg;
  }

  /** Shifts n words starting at index at right by one bit. */
  method RShift1(vli: array<Word>, at: nat, n: nat)
    requires at + n <= vli.Length
    modifies vli
    ensures Val(vli[at..at + n]) == old(Val(vli[at..at + n])) / 2
    ensures forall j :: 0 <= j < vli.Length && !(at <= j < at + n) ==> vli[j] == old(vli[j])
    ensures n > 0 ==> vli[at + n - 1] == old(vli[at + n - 1]) / 2
  {
    hide Val, Or;
    var carry: Word := 0;
    var i := n;
    ghost var S := vli[at..at + n];
    ghost var c := 0;
    ValEmpty(vli[at + i..at + n]);
    ValEmpty(S[i..]);
    while i > 0
      invariant 0 <= i <= n
      invariant 0 <= c <= 1 && carry == c * HIGH_BIT_SET
      invariant 2 * Val(vli[at + i..at + n]) + c == Val(S[i..])
      invariant i == n ==> c == 0
      invariant forall j :: 0 <= j < vli.Length && !(at + i <= j < at + n) ==> vli[j] == old(vli[j])
      invariant i < n ==> vli[at + n - 1] == S[n - 1] / 2
    {
      i := i - 1;
      var temp := vli[at + i];
      assert temp == S[i];
      ghost var high := vli[at + i + 1..at + n];
      ShiftWord(temp, c);
      vli[at + i] := Or(temp / 2, carry);
      carry := (temp * HIGH_BIT_SET) % BASE;
      c := temp % 2;
      assert vli[at + i..at + n][1..] == high;
      ValTail(vli[at + i..at + n], 0);
      assert vli[at + i..at + n][0..] == vli[at + i..at + n];
      ValTail(S, i);
    }
    assert S[0..] == S;
  }

  /** One word of the shift: the bit shifted in lands in the free top bit. */
  lemma ShiftWord(temp: Word, c: int)
    requires 0 <= c <= 1
    ensures Or(temp / 2, c * HIGH_BIT_SET) == temp / 2 + c * HIGH_BIT_SET < BASE
    ensures (temp * HIGH_BIT_SET) % BASE == (temp % 2) * HIGH_BIT_SET
  {
    Pow2Of32();
    OrDisjoint(c, temp / 2, 31);
    OrComm(temp / 2, c * HIGH_BIT_SET);
    DivUnique(temp * HIGH_BIT_SET, BASE, temp / 2, (temp % 2) * HIGH_BIT_SET);
  }

  lemma {:induction false} OrComm(x: nat, y: nat)
    ensures Or(x, y) == Or(y, x)
    decreases x + y
  {
    if x + y > 0 { OrComm(x / 2, y / 2); }
  }
}
