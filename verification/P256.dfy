/**
 The constants of the curve NIST P-256 and the reduction modulo its prime (appendix D.2.3 of
 FIPS 186-4): nine shuffled sums of the upper words, followed by a few additions or
 subtractions of the prime.
 */
module P256 {
  import opened Arith
  import opened Words
  import opened Vli

  const P_WORDS: seq<Word> := [
    0xFFFF_FFFF, 0xFFFF_FFFF, 0xFFFF_FFFF, 0, 0, 0, 1, 0xFFFF_FFFF]
  const N_WORDS: seq<Word> := [
    0xFC63_2551, 0xF3B9_CAC2, 0xA717_9E84, 0xBCE6_FAAD, 0xFFFF_FFFF, 0xFFFF_FFFF, 0, 0xFFFF_FFFF]
  const B_WORDS: seq<Word> := [
    0x27D2_604B, 0x3BCE_3C3E, 0xCC53_B0F6, 0x651D_06B0, 0x7698_86BC, 0xB3EB_BD55, 0xAA3A_93E7, 0x5AC6_35D8]
  const GX_WORDS: seq<Word> := [
    0xD898_C296, 0xF4A1_3945, 0x2DEB_33A0, 0x7703_7D81, 0x63A4_40F2, 0xF8BC_E6E5, 0xE12C_4247, 0x6B17_D1F2]
  const GY_WORDS: seq<Word> := [
    0x37BF_51F5, 0xCBB6_4068, 0x6B31_5ECE, 0x2BCE_3357, 0x7C0F_9E16, 0x8EE7_EB4A, 0xFE1A_7F9B, 0x4FE3_42E2]

  /** 2^256 */
  const R: int := 0x1_0000_0000_0000_0000_0000_0000_0000_0000_0000_0000_0000_0000_0000_0000_0000_0000
  type Modulus = m: int | m > 3 witness 5

  /** The prime of the curve: the number its words stand for. */
  ghost const PRIME: Modulus := (ValEight(P_WORDS); Val(P_WORDS))

  /** The value of eight words, least significant first. */
  function Eight(w0: int, w1: int, w2: int, w3: int, w4: int, w5: int, w6: int, w7: int): int {
    w0 + 0x1_0000_0000 * w1 + 0x1_0000_0000_0000_0000 * w2 + 0x1_0000_0000_0000_0000_0000_0000 * w3
    + 0x1_0000_0000_0000_0000_0000_0000_0000_0000 * w4 + 0x1_0000_0000_0000_0000_0000_0000_0000_0000_0000_0000 * w5
    + 0x1_0000_0000_0000_0000_0000_0000_0000_0000_0000_0000_0000_0000 * w6 + 0x1_0000_0000_0000_0000_0000_0000_0000_0000_0000_0000_0000_0000_0000_0000 * w7
  }

  lemma BPowValues()
    ensures BPow(0) == 1 && BPow(1) == 0x1_0000_0000 && BPow(2) == 0x1_0000_0000_0000_0000 && BPow(3) == 0x1_0000_0000_0000_0000_0000_0000
    ensures BPow(4) == 0x1_0000_0000_0000_0000_0000_0000_0000_0000 && BPow(5) == 0x1_0000_0000_0000_0000_0000_0000_0000_0000_0000_0000
    ensures BPow(6) == 0x1_0000_0000_0000_0000_0000_0000_0000_0000_0000_0000_0000_0000 && BPow(7) == 0x1_0000_0000_0000_0000_0000_0000_0000_0000_0000_0000_0000_0000_0000_0000
    ensures BPow(8) == R
  {
    assert BPow(4) == 0x1_0000_0000_0000_0000_0000_0000_0000_0000;
  }

  lemma ValEight(s: seq<Word>)
    requires |s| == 8
    ensures Val(s) == Eight(s[0], s[1], s[2], s[3], s[4], s[5], s[6], s[7])
  {
    BPowValues();
    ValFour(s[..4]);
    ValStep(s, 4);
    ValStep(s, 5);
    ValStep(s, 6);
    ValStep(s, 7);
    assert s[..8] == s;
  }

  lemma ValFour(s: seq<Word>)
    requires |s| == 4
    ensures Val(s) == s[0] + 0x1_0000_0000 * (s[1] as int) + 0x1_0000_0000_0000_0000 * (s[2] as int) + 0x1_0000_0000_0000_0000_0000_0000 * (s[3] as int)
  {
    BPowValues();
    ValEmpty(s[..0]);
    ValStep(s, 0);
    ValStep(s, 1);
    ValStep(s, 2);
    ValStep(s, 3);
    assert s[..4] == s;
  }

  /** 2^256 - 2^224 + 2^192 + 2^96 - 1 */
  lemma PrimeValue()
    ensures Val(P_WORDS) == PRIME
    ensures PRIME == R - 0x1_0000_0000_0000_0000_0000_0000_0000_0000_0000_0000_0000_0000_0000_0000
      + 0x1_0000_0000_0000_0000_0000_0000_0000_0000_0000_0000_0000_0000 + 0x1_0000_0000_0000_0000_0000_0000 - 1
  {
    ValEight(P_WORDS);
  }

  // ----- the sums of appendix D.2.3 of FIPS 186-4, over a 16-word product c -----

  type Wide = c: seq<Word> | |c| == 16 witness seq(16, _ => 0)

  function T(c: Wide): int { Eight(c[0], c[1], c[2], c[3], c[4], c[5], c[6], c[7]) }
  function S1(c: Wide): int { Eight(0, 0, 0, c[11], c[12], c[13], c[14], c[15]) }
  function S2(c: Wide): int { Eight(0, 0, 0, c[12], c[13], c[14], c[15], 0) }
  function S3(c: Wide): int { Eight(c[8], c[9], c[10], 0, 0, 0, c[14], c[15]) }
  function S4(c: Wide): int { Eight(c[9], c[10], c[11], c[13], c[14], c[15], c[13], c[8]) }
  function D1(c: Wide): int { Eight(c[11], c[12], c[13], 0, 0, 0, c[8], c[10]) }
  function D2(c: Wide): int { Eight(c[12], c[13], c[14], c[15], 0, 0, c[9], c[11]) }
  function D3(c: Wide): int { Eight(c[13], c[14], c[15], c[8], c[9], c[10], 0, c[12]) }
  function D4(c: Wide): int { Eight(c[14], c[15], 0, c[9], c[10], c[11], 0, c[13]) }

  function FastSum(c: Wide): int {
    T(c) + 2 * S1(c) + 2 * S2(c) + S3(c) + S4(c) - D1(c) - D2(c) - D3(c) - D4(c)
  }

  /** The multiple of the prime by which the sums fall short of the product. */
  function FastQuotient(c8: int, c9: int, c10: int, c11: int, c12: int, c13: int, c14: int, c15: int): int {
    c8
    + 0x1_0000_0001 * c9
    + 0x1_0000_0001_0000_0000 * c10
    + 0x1_0000_0000_ffff_ffff_ffff_ffff * c11
    + 0x1_0000_0000_ffff_ffff_ffff_fffe_ffff_ffff * c12
    + 0x1_0000_0000_ffff_ffff_ffff_fffe_ffff_fffe_ffff_ffff * c13
    + 0x1_0000_0000_ffff_ffff_ffff_fffe_ffff_fffe_ffff_fffe_ffff_ffff * c14
    + 0x1_0000_0000_ffff_ffff_ffff_fffe_ffff_fffe_ffff_fffe_ffff_ffff_0000_0000 * c15
  }

  lemma UpperWords(c8: int, c9: int, c10: int, c11: int, c12: int, c13: int, c14: int, c15: int)
    ensures 0x1_0000_0000_0000_0000_0000_0000_0000_0000_0000_0000_0000_0000_0000_0000_0000_0000 * Eight(c8, c9, c10, c11, c12, c13, c14, c15)
      == 2 * Eight(0, 0, 0, c11, c12, c13, c14, c15) + 2 * Eight(0, 0, 0, c12, c13, c14, c15, 0)
       + Eight(c8, c9, c10, 0, 0, 0, c14, c15) + Eight(c9, c10, c11, c13, c14, c15, c13, c8)
       - Eight(c11, c12, c13, 0, 0, 0, c8, c10) - Eight(c12, c13, c14, c15, 0, 0, c9, c11)
       - Eight(c13, c14, c15, c8, c9, c10, 0, c12) - Eight(c14, c15, 0, c9, c10, c11, 0, c13)
       + 0xffff_ffff_0000_0001_0000_0000_0000_0000_0000_0000_ffff_ffff_ffff_ffff_ffff_ffff * FastQuotient(c8, c9, c10, c11, c12, c13, c14, c15)
  {
  }

  lemma Literals(x: int, q: int)
    ensures R * x == 0x1_0000_0000_0000_0000_0000_0000_0000_0000_0000_0000_0000_0000_0000_0000_0000_0000 * x
    ensures PRIME * q == 0xffff_ffff_0000_0001_0000_0000_0000_0000_0000_0000_ffff_ffff_ffff_ffff_ffff_ffff * q
  {
    PrimeValue();
  }

  lemma FastSumIsProduct(c: Wide)
    ensures Val(c) == FastSum(c) + PRIME * FastQuotient(c[8], c[9], c[10], c[11], c[12], c[13], c[14], c[15])
  {
    hide Val, BPow, Eight, FastQuotient;
    ValSplit(c, 8);
    ValEight(c[..8]);
    ValEight(c[8..]);
    BPowValues();
    UpperWords(c[8], c[9], c[10], c[11], c[12], c[13], c[14], c[15]);
    Literals(Eight(c[8], c[9], c[10], c[11], c[12], c[13], c[14], c[15]),
             FastQuotient(c[8], c[9], c[10], c[11], c[12], c[13], c[14], c[15]));
  }

  // ----- the reduction -----

  /** The number a signed carry and eight words stand for together. */
  ghost function Signed(v: int, carry: int): int {
    v + 0x1_0000_0000_0000_0000_0000_0000_0000_0000_0000_0000_0000_0000_0000_0000_0000_0000 * carry
  }

  lemma SplitThree(s: seq<Word>)
    requires |s| == 8
    ensures Val(s) == Val(s[..3]) + 0x1_0000_0000_0000_0000_0000_0000 * Val(s[3..])
    ensures Val(s[..3]) < 0x1_0000_0000_0000_0000_0000_0000
    ensures Val(s[..3]) == 0 <==> s[0] == s[1] == s[2] == 0
  {
    ValSplit(s, 3);
    ValBound(s[..3]);
    BPowValues();
    ValZero(s[..3]);
    assert s[0] == s[..3][0] && s[1] == s[..3][1] && s[2] == s[..3][2];
  }

  /** Three zero words stay zero when the number is doubled. */
  lemma LowZeros(s: seq<Word>, t: seq<Word>, carry: int)
    requires |s| == |t| == 8 && s[0] == s[1] == s[2] == 0
    requires Signed(Val(t), carry) == 2 * Val(s)
    ensures t[0] == t[1] == t[2] == 0
  {
    hide Val;
    SplitThree(s);
    SplitThree(t);
    SmallMultiple(Val(t[..3]), 2 * Val(s[3..]) - Val(t[3..]) - 0x1_0000_0000_0000_0000_0000_0000_0000_0000_0000_0000 * carry);
  }

  lemma SmallMultiple(w: int, x: int)
    requires 0 <= w < 0x1_0000_0000_0000_0000_0000_0000
    requires w == 0x1_0000_0000_0000_0000_0000_0000 * x
    ensures w == 0
  {
  }

  lemma CarryWeight(c: int)
    ensures BPow(8) * c == 0x1_0000_0000_0000_0000_0000_0000_0000_0000_0000_0000_0000_0000_0000_0000_0000_0000 * c
  {
    BPowValues();
  }

  method Load(tmp: array<Word>, w0: Word, w1: Word, w2: Word, w3: Word, w4: Word, w5: Word, w6: Word, w7: Word)
    requires tmp.Length == 8
    modifies tmp
    ensures tmp[..] == [w0, w1, w2, w3, w4, w5, w6, w7]
    ensures V(tmp, 8) == Eight(w0, w1, w2, w3, w4, w5, w6, w7)
  {
    tmp[0], tmp[1], tmp[2], tmp[3] := w0, w1, w2, w3;
    tmp[4], tmp[5], tmp[6], tmp[7] := w4, w5, w6, w7;
    hide Val, Eight;
    ValEight(tmp[..8]);
  }

  /** Adds the number in tmp to result. */
  method AddTerm(result: array<Word>, tmp: array<Word>, carry: int) returns (carry1: int)
    requires result.Length == tmp.Length == 8 && result != tmp
    modifies result
    ensures Signed(V(result, 8), carry1) == Signed(old(V(result, 8)), carry) + V(tmp, 8)
  {
    hide Val, BPow;
    var c := Add(result, result, tmp, 8);
    CarryWeight(c);
    carry1 := carry + c;
  }

  /** Subtracts the number in tmp from result. */
  method SubTerm(result: array<Word>, tmp: array<Word>, carry: int) returns (carry1: int)
    requires result.Length == tmp.Length == 8 && result != tmp
    modifies result
    ensures Signed(V(result, 8), carry1) == Signed(old(V(result, 8)), carry) - V(tmp, 8)
  {
    hide Val, BPow;
    var b := Sub(result, result, tmp, 8);
    CarryWeight(b);
    carry1 := carry - b;
  }

  /** tmp becomes twice itself, and the lost top bit is returned. */
  method Double(tmp: array<Word>) returns (carry: Word)
    requires tmp.Length == 8
    modifies tmp
    ensures Signed(V(tmp, 8), carry) == 2 * old(V(tmp, 8))
    ensures old(tmp[0] == tmp[1] == tmp[2] == 0) ==> tmp[0] == tmp[1] == tmp[2] == 0
  {
    hide Val, BPow;
    ghost var s := tmp[..8];
    carry := Add(tmp, tmp, tmp, 8);
    CarryWeight(carry);
    if s[0] == s[1] == s[2] == 0 { LowZeros(s, tmp[..8], carry); }
  }

  /** Doubles the number in tmp and adds it to result; three zero words stay zero. */
  method AddDoubled(result: array<Word>, tmp: array<Word>, carry: int) returns (carry1: int)
    requires result.Length == tmp.Length == 8 && result != tmp
    modifies result, tmp
    ensures Signed(V(result, 8), carry1) == Signed(old(V(result, 8)), carry) + 2 * old(V(tmp, 8))
    ensures old(tmp[0] == tmp[1] == tmp[2] == 0) ==> tmp[0] == tmp[1] == tmp[2] == 0
  {
    hide Val;
    var top := Double(tmp);
    carry1 := AddTerm(result, tmp, carry + top);
  }

  /** The first three of the nine sums, T + 2 S1 + 2 S2. */
  method FastDoubles(result: array<Word>, tmp: array<Word>, c: array<Word>) returns (carry: int)
    requires result.Length == tmp.Length == 8 && c.Length == 16
    requires result != tmp && result != c && tmp != c
    modifies result, tmp
    ensures Signed(V(result, 8), carry) == T(c[..]) + 2 * S1(c[..]) + 2 * S2(c[..])
  {
    hide Val, Eight;
    Set(result, 0, c, 8);
    ValEight(result[..8]);
    Load(tmp, 0, 0, 0, c[11], c[12], c[13], c[14], c[15]);
    carry := AddDoubled(result, tmp, 0);
    Load(tmp, tmp[0], tmp[1], tmp[2], c[12], c[13], c[14], c[15], 0);
    carry := AddDoubled(result, tmp, carry);
  }

  /** The four sums to be subtracted. */
  method FastSubtractions(result: array<Word>, tmp: array<Word>, c: array<Word>, carry0: int) returns (carry: int)
    requires result.Length == tmp.Length == 8 && c.Length == 16
    requires result != tmp && result != c && tmp != c
    modifies result, tmp
    ensures Signed(V(result, 8), carry)
         == Signed(old(V(result, 8)), carry0) - D1(c[..]) - D2(c[..]) - D3(c[..]) - D4(c[..])
  {
    hide Val, Eight, Signed;
    Load(tmp, c[11], c[12], c[13], 0, 0, 0, c[8], c[10]);
    carry := SubTerm(result, tmp, carry0);
    Load(tmp, c[12], c[13], c[14], c[15], 0, 0, c[9], c[11]);
    carry := SubTerm(result, tmp, carry);
    Load(tmp, c[13], c[14], c[15], c[8], c[9], c[10], 0, c[12]);
    carry := SubTerm(result, tmp, carry);
    Load(tmp, c[14], c[15], 0, c[9], c[10], c[11], 0, c[13]);
    carry := SubTerm(result, tmp, carry);
  }

  /** The nine sums, with all carries and borrows collected in one signed carry. */
  method FastTerms(result: array<Word>, c: array<Word>) returns (carry: int)
    requires result.Length == 8 && c.Length == 16 && result != c
    modifies result
    ensures Signed(V(result, 8), carry) == FastSum(c[..])
  {
    hide Val, Eight, Signed;
    var tmp := new Word[8];
    carry := FastDoubles(result, tmp, c);
    Load(tmp, c[8], c[9], c[10], 0, 0, 0, c[14], c[15]);
    carry := AddTerm(result, tmp, carry);
    Load(tmp, c[9], c[10], c[11], c[13], c[14], c[15], c[13], c[8]);
    carry := AddTerm(result, tmp, carry);
    hide D1, D2, D3, D4;
    carry := FastSubtractions(result, tmp, c, carry);
  }

  /** Adding or subtracting a multiple of the prime does not change the residue. */
  lemma SameResidue(x: int, y: int, q: int)
    requires x == y + PRIME * q && 0 <= x < PRIME
    ensures y % PRIME == x
  {
    Literals(0, q);
    DivUnique(y, PRIME, -q, x);
  }

  /**
   result = product % PRIME. The first loop runs on a negative carry, the second on a
   non-negative one; both stop with a zero carry and a result below the prime.
   */
  method MmodFast(result: array<Word>, product: array<Word>, p: array<Word>)
    requires result.Length == 8 && product.Length == 16 && p.Length == 8
    requires result != product && result != p && p[..] == P_WORDS
    modifies result
    ensures V(result, 8) == V(product, 16) % PRIME
  {
    hide Val, Eight, FastSum, FastQuotient;
    ghost var c: Wide := product[..];
    assert c == product[..16];
    FastSumIsProduct(c);
    PrimeValue();
    assert p[..8] == P_WORDS;
    var carry := FastTerms(result, product);
    ghost var q := -FastQuotient(c[8], c[9], c[10], c[11], c[12], c[13], c[14], c[15]);
    Literals(0, q);
    ValBound(result[..8]);
    BPowValues();
    if carry < 0 {
      while carry < 0
        invariant p[..8] == P_WORDS && V(result, 8) < R
        invariant Signed(V(result, 8), carry) == Val(c) + PRIME * q
        invariant carry >= 0 ==> carry == 0 && V(result, 8) < PRIME
        decreases -Signed(V(result, 8), carry)
      {
        carry := AddTerm(result, p, carry);
        ValBound(result[..8]);
        q := q + 1;
      }
    } else {
      var cmp := CmpUnsafe(p, result, 8);
      while carry != 0 || cmp != 1
        invariant p[..8] == P_WORDS && V(result, 8) < R && carry >= 0
        invariant Signed(V(result, 8), carry) == Val(c) + PRIME * q
        invariant cmp == Sign(PRIME - V(result, 8))
        decreases Signed(V(result, 8), carry)
      {
        carry := SubTerm(result, p, carry);
        ValBound(result[..8]);
        q := q - 1;
        cmp := CmpUnsafe(p, result, 8);
      }
    }
    SameResidue(V(result, 8), Val(c), q);
  }
}
