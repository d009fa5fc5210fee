/**
 Scalar regularisation on P-256, and the exact set of scalars for which the ladder meets a
 degenerate addition.
 */
module Scalar {
  import opened Arith
  import opened Words
  import opened Vli
  import opened P256
  import opened Field
  import opened CurveGroup
  import opened CoZ
  import opened Ladder

  /** The order of the base point. */
  const ORDER: int := 0xffff_ffff_0000_0000_ffff_ffff_ffff_ffff_bce6_faad_a717_9e84_f3b9_cac2_fc63_2551
  /** The constant term of the curve equation. */
  const COEFF_B: int := 0x5ac6_35d8_aa3a_93e7_b3eb_bd55_7698_86bc_651d_06b0_cc53_b0f6_3bce_3c3e_27d2_604b
  ghost const P256_CURVE: Curve := Curve(PRIME, COEFF_B)

  /** The number of bits the ladder is run with: those of the order and one more. */
  const LADDER_BITS: nat := 257

  lemma OrderValue()
    ensures Val(N_WORDS) == ORDER
  {
    ValEight(N_WORDS);
  }

  lemma CoeffValue()
    ensures Val(B_WORDS) == COEFF_B
  {
    ValEight(B_WORDS);
  }

  /** The scalar as regularised: k + n or k + 2n, whichever first reaches 2^256. */
  function Regular(k: nat): nat {
    if k + ORDER >= R then k + ORDER else k + 2 * ORDER
  }

  /**
   regularize_k. The array selected by the carry, read under an implied leading one, is the
   regularised scalar. k0 may be the same array as k. The order fills all 256 bits, so the second
   half of the carry test (a bit of k0 above the order) never applies.
   */
  method RegularizeK(k: array<Word>, k0: array<Word>, k1: array<Word>, n: array<Word>) returns (carry: bool)
    requires k.Length == k0.Length == k1.Length == n.Length == 8
    requires n[..] == N_WORDS && k0 != n && k1 != n && k0 != k1 && k != k1
    modifies k0, k1
    ensures R + V(if carry then k0 else k1, 8) == Regular(old(V(k, 8)))
    ensures carry <==> old(V(k, 8)) + ORDER >= R
  {
    hide Val, BPow, N_WORDS;
    assert n[..8] == N_WORDS;
    OrderValue();
    BPowValues();
    ValBound(k[..8]);
    var c := Vli.Add(k0, k, n, 8);
    ValBound(k0[..8]);
    CarryWeight(c);
    carry := c != 0;
    ghost var v0 := V(k0, 8);
    var c1 := Vli.Add(k1, k0, n, 8);
    ValBound(k1[..8]);
    CarryWeight(c1);
    assert V(k0, 8) == v0;
  }

  // ----- which scalars are safe -----

  /** The scalars the ladder cannot handle: -2, -1, 0 and 1 modulo the order. */
  ghost predicate Exceptional(k: nat) {
    k % ORDER == 0 || k % ORDER == 1 || k % ORDER == ORDER - 1 || k % ORDER == ORDER - 2
  }

  /** In terms of the regularised scalar, the exceptions are four consecutive numbers. */
  lemma ExceptionalRegular(k: nat)
    requires k < R
    ensures Exceptional(k) <==> 2 * ORDER - 2 <= Regular(k) <= 2 * ORDER + 1
    ensures R <= Regular(k) < 2 * R
  {
    DivUnique(k, ORDER, if k < ORDER then 0 else 1, if k < ORDER then k else k - ORDER);
  }

  lemma PowersOfTwo()
    ensures Pow2(256) == R
    ensures Pow2(255) == 0x8000_0000_0000_0000_0000_0000_0000_0000_0000_0000_0000_0000_0000_0000_0000_0000
    ensures Pow2(254) == 0x4000_0000_0000_0000_0000_0000_0000_0000_0000_0000_0000_0000_0000_0000_0000_0000
    ensures Pow2(253) == 0x2000_0000_0000_0000_0000_0000_0000_0000_0000_0000_0000_0000_0000_0000_0000_0000
  {
    BPowIsPow2(8);
    BPowValues();
    assert Pow2(256) == 2 * Pow2(255) && Pow2(255) == 2 * Pow2(254) && Pow2(254) == 2 * Pow2(253);
  }

  lemma {:induction false} PrefixBounds(x: nat, i: nat, m: nat)
    requires i <= m && Pow2(m) <= x < 2 * Pow2(m)
    ensures Pow2(m - i) <= Prefix(x, i) < 2 * Pow2(m - i)
    decreases i
  {
    if i > 0 { PrefixBounds(x / 2, i - 1, m - 1); }
  }

  lemma SmallSafe(k: nat)
    requires 0 < k && 2 * k + 1 < ORDER
    ensures StepSafe(ORDER, k)
  {
    DivUnique(k, ORDER, 0, k);
    DivUnique(k + 1, ORDER, 0, k + 1);
    DivUnique(2 * k + 1, ORDER, 0, 2 * k + 1);
  }

  /** All steps but the last two are safe for every scalar. */
  lemma EarlySafe(full: nat, j: nat)
    requires R <= full < 2 * R && 2 <= j < 256
    ensures SafeAt(ORDER, full, j)
  {
    PowersOfTwo();
    PrefixBounds(full, j + 1, 256);
    Pow2Mono(255 - j, 253);
    hide Pow2, StepSafe;
    SmallSafe(Prefix(full, j + 1));
  }

  lemma LatePrefixes(full: nat)
    ensures Prefix(full, 1) == full / 2 && Prefix(full, 2) == full / 4
  {
    assert Prefix(full, 2) == Prefix(full / 2, 1) == Prefix(full / 2 / 2, 0);
  }

  /** The last two steps are safe exactly outside the four exceptions. */
  lemma LateSafe(full: nat)
    requires R <= full < 2 * R && !(2 * ORDER - 2 <= full <= 2 * ORDER + 1)
    ensures SafeAt(ORDER, full, 1) && SafeAt(ORDER, full, 0)
  {
    LatePrefixes(full);
    var k, l := full / 4, full / 2;
    if 2 * k + 1 < ORDER {
      SmallSafe(k);
    } else {
      DivUnique(k, ORDER, 0, k);
      DivUnique(k + 1, ORDER, 0, k + 1);
      DivUnique(2 * k + 1, ORDER, 1, 2 * k + 1 - ORDER);
    }
    LastPrefixSafe(l);
  }

  lemma LastPrefixSafe(l: nat)
    requires R <= 2 * l < 2 * R && l != ORDER && l + 1 != ORDER
    ensures StepSafe(ORDER, l)
  {
    DivUnique(l, ORDER, if l < ORDER then 0 else 1, if l < ORDER then l else l - ORDER);
    DivUnique(l + 1, ORDER, if l + 1 < ORDER then 0 else 1, if l + 1 < ORDER then l + 1 else l + 1 - ORDER);
    var q := if 2 * l + 1 < 2 * ORDER then 1 else 2;
    DivUnique(2 * l + 1, ORDER, q, 2 * l + 1 - q * ORDER);
  }

  // ----- the exact result of a multiplication by a regularised scalar -----

  /** A point as the source encodes it: the pair (0, 0) is infinity. */
  function Encode(a: Point): Coords {
    match a
    case Infinity => Coords(0, 0)
    case Affine(x, y) => Coords(x, y)
  }

  lemma FullOfWords(s: nat, k: nat)
    requires s < R && R + s == Regular(k)
    ensures FullScalar(s, LADDER_BITS) == Regular(k)
  {
    PowersOfTwo();
    hide Pow2;
    DivUnique(s, R, 0, s);
  }

  /** The regularised scalar is the scalar plus one or two orders. */
  lemma RegularMultiple(c: Curve, a: Point, k: nat)
    requires GoodPoint(c, a, ORDER)
    ensures c.p > 0 && Mul(c.p, Regular(k), a) == Mul(c.p, k, a)
  {
    GoodFacts(c, a, ORDER);
    MulPeriod(c, k, 1, a, ORDER);
    MulPeriod(c, k, 2, a, ORDER);
  }

  /**
   The central result. For a point of the curve of the right order, every 256-bit scalar k and
   every initial denominator, the ladder on the regularised scalar returns k times the point,
   except that it returns (0, 0) when the abscissa of the point is zero or k is congruent to
   -2, -1, 0 or 1 modulo the order.
   */
  lemma RegularMult(c: Curve, a: Point, k: nat, s: nat, z: int, out: Coords)
    requires GoodPoint(c, a, ORDER) && a.Affine? && c.p > 1 && 0 < z < c.p
    requires k < R && s < R && R + s == Regular(k)
    requires IsPointMult(c.p, Coords(a.x, a.y), s, z, LADDER_BITS, out)
    ensures out == if a.x == 0 || Exceptional(k) then Coords(0, 0) else Encode(Mul(c.p, k, a))
  {
    var full := Regular(k);
    hide GoodPoint, Mul, IsPointMult, FullScalar, SafeAt, Regular, Exceptional;
    FullOfWords(s, k);
    ExceptionalRegular(k);
    RegularMultiple(c, a, k);
    forall j | 2 <= j < 256
      ensures SafeAt(ORDER, full, j)
    {
      EarlySafe(full, j);
    }
    if Exceptional(k) {
      ExceptionalRun(c, a, full);
      assert StepSafe(ORDER, 1) by { SmallSafe(1); }
      DegenerateMult(c, a, ORDER, s, z, LADDER_BITS, out);
    } else {
      LateSafe(full);
      assert SafeRun(ORDER, full, LADDER_BITS);
      SafeMult(c, a, ORDER, s, z, LADDER_BITS, out);
    }
  }

  lemma ExceptionalRun(c: Curve, a: Point, full: nat)
    requires GoodPoint(c, a, ORDER) && 2 * ORDER - 2 <= full <= 2 * ORDER + 1
    ensures c.p > 0 && Mul(c.p, 2 * Prefix(full, 2) + 1, a) == Infinity
  {
    GoodFacts(c, a, ORDER);
    LatePrefixes(full);
    assert full / 4 == (ORDER - 1) / 2;
    DivUnique(ORDER, ORDER, 1, 0);
  }

  /** The multiple is infinity exactly for the scalars that are multiples of the order. */
  lemma MultipleVanishes(c: Curve, a: Point, k: nat)
    requires GoodPoint(c, a, ORDER)
    ensures c.p > 0 && (Mul(c.p, k, a) == Infinity <==> k % ORDER == 0)
  {
    GoodFacts(c, a, ORDER);
  }

  /** No affine point of the curve is encoded as (0, 0). */
  lemma AffineNotZero(a: Point)
    requires OnCurve(P256_CURVE, a) && a.Affine?
    ensures Encode(a) != Coords(0, 0)
  {
    hide OnCurve;
    PrimeValue();
    NotTheOrigin(P256_CURVE, a);
  }

  lemma NotTheOrigin(c: Curve, a: Point)
    requires 0 < c.b < c.p && OnCurve(c, a) && a.Affine?
    ensures a.x != 0 || a.y != 0
  {
    if a.x == 0 && a.y == 0 {
      assert Equation(c.b, 0, 0) == c.b;
      ResSmall(c.p, c.b);
      ResSmall(c.p, 0);
    }
  }

  /**
   When the result is right: for a multiple of the order, and otherwise exactly when the
   abscissa of the point is not zero and k is not congruent to 1, -1 or -2.
   */
  lemma CorrectExactly(a: Point, k: nat, s: nat, z: int, out: Coords)
    requires GoodPoint(P256_CURVE, a, ORDER) && a.Affine? && 0 < z < PRIME
    requires k < R && s < R && R + s == Regular(k)
    requires IsPointMult(PRIME, Coords(a.x, a.y), s, z, LADDER_BITS, out)
    ensures out == Encode(Mul(PRIME, k, a)) <==> k % ORDER == 0 || (a.x != 0 && !Exceptional(k))
  {
    hide GoodPoint, Mul, IsPointMult, Regular, OnCurve, Encode;
    RegularMult(P256_CURVE, a, k, s, z, out);
    MultipleVanishes(P256_CURVE, a, k);
    assert Encode(Infinity) == Coords(0, 0) by { EncodeInfinity(); }
    if k % ORDER != 0 {
      MultipleOnCurve(P256_CURVE, a, k);
      AffineNotZero(Mul(PRIME, k, a));
    }
  }

  lemma EncodeInfinity()
    ensures Encode(Infinity) == Coords(0, 0)
  {
  }

  lemma MultipleOnCurve(c: Curve, a: Point, k: nat)
    requires GoodPoint(c, a, ORDER)
    ensures c.p > 0 && OnCurve(c, Mul(c.p, k, a))
  {
    GoodFacts(c, a, ORDER);
    MulOnCurve(c, k, a);
  }

  /** A non-zero result is never wrong: what is not computed is reported as (0, 0). */
  lemma NonZeroIsCorrect(a: Point, k: nat, s: nat, z: int, out: Coords)
    requires GoodPoint(P256_CURVE, a, ORDER) && a.Affine? && 0 < z < PRIME
    requires k < R && s < R && R + s == Regular(k)
    requires IsPointMult(PRIME, Coords(a.x, a.y), s, z, LADDER_BITS, out)
    ensures out != Coords(0, 0) <==> a.x != 0 && !Exceptional(k)
    ensures out != Coords(0, 0) ==> out == Encode(Mul(PRIME, k, a))
  {
    hide GoodPoint, Mul, IsPointMult, Regular, OnCurve, Encode;
    RegularMult(P256_CURVE, a, k, s, z, out);
    MultipleVanishes(P256_CURVE, a, k);
    if a.x != 0 && !Exceptional(k) {
      MultipleOnCurve(P256_CURVE, a, k);
      AffineNotZero(Mul(PRIME, k, a));
    }
  }

  // ----- agreement -----

  /** When the order is prime, every multiple that is not infinity has that order too. */
  lemma MultipleIsGood(c: Curve, a: Point, k: nat)
    requires GoodPoint(c, a, ORDER) && PrimeField(ORDER) && k % ORDER != 0
    ensures c.p > 0 && Mul(c.p, k, a).Affine? && GoodPoint(c, Mul(c.p, k, a), ORDER)
  {
    var b := Mul(c.p, k, a);
    MultipleVanishes(c, a, k);
    MultipleOnCurve(c, a, k);
    forall j: nat
      ensures Mul(c.p, j, b) == Infinity <==> j % ORDER == 0
    {
      hide GoodPoint, Mul, OnCurve, PrimeField;
      MulMulGood(c, a, j, k);
      MultipleVanishes(c, a, j * k);
      ProductVanishes(j, k);
    }
  }

  lemma MulMulGood(c: Curve, a: Point, j: nat, k: nat)
    requires GoodPoint(c, a, ORDER)
    ensures c.p > 0 && j * k >= 0 && Mul(c.p, j, Mul(c.p, k, a)) == Mul(c.p, j * k, a)
  {
    GoodFacts(c, a, ORDER);
    MulMul(c, j, k, a);
  }

  lemma ProductVanishes(j: nat, k: nat)
    requires PrimeField(ORDER) && k % ORDER != 0
    ensures (j * k) % ORDER == 0 <==> j % ORDER == 0
  {
    ResSmall(ORDER, 0);
    NonZeroUnit(ORDER, k);
    hide PrimeField;
    assert k * j == j * k;
    if Cong(ORDER, j * k, 0) { Cancel(ORDER, k, j); }
    if Cong(ORDER, j, 0) { CongMul(ORDER, k, k, j, 0); }
  }

  /**
   Two parties with keys ka and kb, each multiplying the other's public point, get the same
   point ka * kb * G whenever neither result is (0, 0), whatever the initial denominators.
   */
  lemma Agreement(g: Point, ka: nat, kb: nat, sa: nat, sb: nat, za: int, zb: int, outA: Coords, outB: Coords)
    requires GoodPoint(P256_CURVE, g, ORDER) && PrimeField(ORDER)
    requires ka < R && kb < R && ka % ORDER != 0 && kb % ORDER != 0
    requires sa < R && sb < R && R + sa == Regular(ka) && R + sb == Regular(kb)
    requires 0 < za < PRIME && 0 < zb < PRIME
    requires IsPointMult(PRIME, Encode(Mul(PRIME, kb, g)), sa, za, LADDER_BITS, outA)
    requires IsPointMult(PRIME, Encode(Mul(PRIME, ka, g)), sb, zb, LADDER_BITS, outB)
    requires outA != Coords(0, 0) && outB != Coords(0, 0)
    ensures ka * kb >= 0 && outA == outB == Encode(Mul(PRIME, ka * kb, g))
  {
    hide GoodPoint, PrimeField, Mul, IsPointMult, Regular, Exceptional;
    MultipleIsGood(P256_CURVE, g, ka);
    MultipleIsGood(P256_CURVE, g, kb);
    NonZeroIsCorrect(Mul(PRIME, kb, g), ka, sa, za, outA);
    NonZeroIsCorrect(Mul(PRIME, ka, g), kb, sb, zb, outB);
    MulMulGood(P256_CURVE, g, ka, kb);
    MulMulGood(P256_CURVE, g, kb, ka);
    assert ka * kb == kb * ka;
  }
}
