/**
 The entry points above the ladder: point validation, public keys, key pairs and the shared
 secret (section 5.7.1.2 of NIST SP 800-56A). The random number generator is a parameter: the
 answers it gives, in order.
 */
module Ecdh {
  import opened Arith
  import opened Words
  import opened Vli
  import opened Reduce
  import opened P256
  import opened Field
  import opened CurveGroup
  import opened Points
  import opened Bytes
  import opened Scalar
  import CoZ
  import Ladder

  /** The arrays of the constant curve structure. */
  datatype CurveArrays = CurveArrays(p: array<Word>, n: array<Word>, gx: array<Word>, gy: array<Word>, b: array<Word>) {
    ghost predicate Valid()
      reads p, n, gx, gy, b
    {
      && IsModulus(p) && n[..] == N_WORDS && gx[..] == GX_WORDS && gy[..] == GY_WORDS && b[..] == B_WORDS
      && n.Length == gx.Length == gy.Length == b.Length == 8
    }
  }

  // ----- point validation -----

  /** x_side_default: x^3 - 3x + b. */
  method XSide(result: array<Word>, x: array<Word>, p: array<Word>, b: array<Word>)
    requires IsModulus(p) && b[..] == B_WORDS && result.Length == x.Length == 8
    requires result != x && result != p && result != b
    modifies result
    ensures Fe(result) == Res(PRIME, Fe(x) * (Fe(x) * Fe(x)) - 3 * Fe(x) + COEFF_B)
  {
    hide Val, Fe, P_WORDS, IsModulus, FMul, FSub, FAdd, Res, B_WORDS;
    var three := new Word[8];
    Clear(three, 8);
    three[0] := 3;
    ThreeInArray(three);
    CoeffInArray(b);
    PrimeValue();
    ghost var t := Fe(x);
    FieldMul(result, x, x, p);
    FieldSub(result, result, three, p);
    FieldMul(result, result, x, p);
    FieldAdd(result, result, b, p);
    XSideValue(PRIME, t, COEFF_B);
  }

  lemma ThreeInArray(a: array<Word>)
    requires a.Length == 8 && a[0] == 3 && forall j :: 0 < j < 8 ==> a[j] == 0
    ensures Fe(a) == 3
  {
    ValTail(a[..8], 0);
    assert a[..8][0..] == a[..8];
    ValZero(a[..8][1..]);
  }

  lemma CoeffInArray(b: array<Word>)
    requires b[..] == B_WORDS
    ensures b.Length == 8 && Fe(b) == COEFF_B
  {
    assert |b[..]| == 8;
    assert b[..8] == B_WORDS;
    CoeffValue();
  }

  lemma XSideValue(p: int, x: int, b: int)
    requires p > 3 && 0 <= b < p
    ensures FAdd(p, FMul(p, FSub(p, FMul(p, x, x), 3), x), b) == Res(p, x * (x * x) - 3 * x + b)
  {
    hide FAdd, FSub, FMul, Res;
    ResSmall(p, 3);
    ResSmall(p, b);
    MulLift(p, x, x);
    SubLift(p, x * x, 3);
    MulLift(p, x * x - 3, x);
    AddLift(p, (x * x - 3) * x, b);
    assert (x * x - 3) * x == x * (x * x) - 3 * x;
  }

  /** EccPoint_isZero */
  method PointIsZero(x: array<Word>, y: array<Word>) returns (zero: bool)
    requires x.Length == y.Length == 8
    ensures zero <==> Fe(x) == 0 && Fe(y) == 0
  {
    var zx := IsZero(x, 8);
    var zy := IsZero(y, 8);
    return zx && zy;
  }

  /** uECC_valid_point: 0 exactly for the affine points of the curve. */
  method ValidPoint(x: array<Word>, y: array<Word>, curve: CurveArrays) returns (r: int)
    requires curve.Valid() && x.Length == y.Length == 8
    ensures r == 0 <==> OnCurve(P256_CURVE, Affine(Fe(x), Fe(y)))
    ensures r == -1 <==> Fe(x) == 0 && Fe(y) == 0
    ensures r == -2 <==> Fe(x) >= PRIME || Fe(y) >= PRIME
    ensures r in {0, -1, -2, -3}
  {
    hide Val, P_WORDS, N_WORDS, GX_WORDS, GY_WORDS, B_WORDS, FMul, Res, Equation;
    ModulusValue(curve.p);
    var zero := PointIsZero(x, y);
    ZeroNotOnCurve();
    if zero {
      return -1;
    }
    var cx := CmpUnsafe(curve.p, x, 8);
    var cy := CmpUnsafe(curve.p, y, 8);
    if cx != 1 || cy != 1 {
      return -2;
    }
    var tmp1, tmp2 := new Word[8], new Word[8];
    FieldMul(tmp1, y, y, curve.p);
    XSide(tmp2, x, curve.p, curve.b);
    EquationIsSides(PRIME, COEFF_B, Fe(x), Fe(y));
    var differ := Differ(tmp1, tmp2, 8);
    if differ {
      return -3;
    }
    return 0;
  }

  lemma ZeroNotOnCurve()
    ensures !OnCurve(P256_CURVE, Affine(0, 0))
  {
    if OnCurve(P256_CURVE, Affine(0, 0)) { AffineNotZero(Affine(0, 0)); }
  }

  /** The two sides are equal exactly when the equation holds. */
  lemma EquationIsSides(p: int, b: int, x: int, y: int)
    requires p > 0
    ensures FMul(p, y, y) == Res(p, x * (x * x) - 3 * x + b) <==> Cong(p, Equation(b, x, y), 0)
  {
    hide Res, FMul;
    MulLift(p, y, y);
    CongZero(p, x * (x * x) - 3 * x + b, y * y);
  }

  // ----- random denominators -----

  /** One answer of the random number generator: a failure, or some words. */
  datatype Draw = Refused | Drawn(words: seq<Word>)

  datatype Option<T> = None | Some(value: T)

  const RNG_MAX_TRIES: nat := 64

  /** The generator can answer at least as often as it is asked, with n words each time. */
  ghost predicate Answers(rng: Option<seq<Draw>>, n: nat) {
    rng.Some? ==> |rng.value| >= RNG_MAX_TRIES && forall d :: d in rng.value && d.Drawn? ==> |d.words| == n
  }

  /** The bits of a draw that the mask keeps: as many as the top value has. */
  ghost function Masked(d: Draw, top: nat): nat
    requires d.Drawn?
  {
    DivModFacts(Val(d.words), Pow2(BitLength(top)));
    Val(d.words) % Pow2(BitLength(top))
  }

  ghost predicate InRange(d: Draw, top: nat) {
    d.Drawn? && 0 < Masked(d, top) < top
  }

  /** A masked draw in the range 1 to top-1 comes in time and before any refusal. */
  ghost predicate Succeeds(draws: seq<Draw>, top: nat)
    requires |draws| >= RNG_MAX_TRIES
  {
    exists t :: 0 <= t < RNG_MAX_TRIES && InRange(draws[t], top) && forall u :: 0 <= u < t ==> draws[u].Drawn?
  }

  /** The value is the first masked draw in range. */
  ghost predicate FirstInRange(draws: seq<Draw>, top: nat, value: nat)
    requires |draws| >= RNG_MAX_TRIES
  {
    exists t :: 0 <= t < RNG_MAX_TRIES && InRange(draws[t], top) && value == Masked(draws[t], top)
      && forall u :: 0 <= u < t ==> draws[u].Drawn? && !InRange(draws[u], top)
  }

  /** For a top value of r bits, the mask keeps the r low bits of a draw. */
  lemma MaskKeepsLowBits(d: Draw, top: nat, r: nat)
    requires d.Drawn? && top < Pow2(r) && (r > 0 ==> Pow2(r - 1) <= top)
    ensures Pow2(r) > 0 && Masked(d, top) == Val(d.words) % Pow2(r)
  {
    hide Pow2, Val, BitLength;
    BitLengthUnique(top, r);
  }

  /** For the prime, which fills all 256 bits, the mask keeps the whole draw. */
  lemma PrimeMask(d: Draw)
    requires d.Drawn? && |d.words| == 8
    ensures Masked(d, PRIME) == Val(d.words)
  {
    PowersOfTwo();
    PrimeValue();
    BPowValues();
    ValBound(d.words);
    hide Pow2, Val, BitLength;
    BitLengthUnique(PRIME, 256);
    DivUnique(Val(d.words), Pow2(256), 0, Val(d.words));
  }

  method LoadWords(dest: array<Word>, words: seq<Word>)
    requires dest.Length == |words|
    modifies dest
    ensures dest[..] == words
  {
    var i := 0;
    while i < |words|
      invariant i <= |words| && dest[..i] == words[..i]
    {
      dest[i] := words[i];
      i := i + 1;
    }
  }

  /** The mask of the source, shifted right by k bits, keeps the low 32 - k bits of a word. */
  lemma MaskWord(w: Word, k: nat)
    requires k < 32
    ensures And(w, 0xFFFF_FFFF / Pow2(k)) == w % Pow2(32 - k)
  {
    Pow2Of32();
    Pow2Add(k, 32 - k);
    hide Pow2;
    MulDistrib(Pow2(k), Pow2(32 - k), -1);
    DivUnique(0xFFFF_FFFF, Pow2(k), Pow2(32 - k) - 1, Pow2(k) - 1);
    AndMask(w, 32 - k);
  }

  /** Masking the top word to j bits keeps the low bits of the number. */
  lemma MaskValue(s: seq<Word>, t: seq<Word>, j: nat)
    requires |s| == |t| > 0 && t[..|s| - 1] == s[..|s| - 1] && t[|s| - 1] == s[|s| - 1] % Pow2(j)
    ensures Val(t) == Val(s) % Pow2(32 * (|s| - 1) + j)
  {
    var n := |s| - 1;
    ValStep(s, n);
    ValStep(t, n);
    assert s[..n + 1] == s && t[..n + 1] == t;
    BPowIsPow2(n);
    Pow2Add(32 * n, j);
    ValBound(s[..n]);
    hide Val, Pow2, BPow;
    DivModFacts(s[n], Pow2(j));
    DivDivSplit(BPow(n), Pow2(j), s[n], Val(s[..n]), s[n] / Pow2(j), s[n] % Pow2(j));
    DivUnique(Val(s), BPow(n) * Pow2(j), s[n] / Pow2(j), Val(t));
  }

  /** One draw, written to random and masked. */
  method TakeDraw(random: array<Word>, d: Draw, n: nat, bits: nat, ghost top: nat)
    requires d.Drawn? && |d.words| == random.Length == n > 0
    requires 32 * (n - 1) < bits <= 32 * n && BitLength(top) == bits
    modifies random
    ensures V(random, n) == Masked(d, top)
  {
    hide Val, Pow2, And, BitLength;
    LoadWords(random, d.words);
    MaskWord(random[n - 1], 32 * n - bits);
    DivModFacts(random[n - 1], Pow2(32 - (32 * n - bits)));
    ghost var s := random[..];
    WordBitwise(random[n - 1], MaskOf(32 * n - bits));
    random[n - 1] := And(random[n - 1], MaskOf(32 * n - bits));
    assert random[..n - 1] == s[..n - 1] && random[..n] == random[..];
    MaskValue(s, random[..], bits - 32 * (n - 1));
  }

  /** mask >> k */
  function MaskOf(k: nat): (m: Word)
    ensures m == 0xFFFF_FFFF / Pow2(k)
  {
    DivModFacts(0xFFFF_FFFF, Pow2(k));
    MulMono(0xFFFF_FFFF / Pow2(k), 1, Pow2(k));
    0xFFFF_FFFF / Pow2(k)
  }

  /** uECC_generate_random_int: the first masked draw in the range 1 to top-1, or failure. */
  method GenerateRandomInt(random: array<Word>, top: array<Word>, n: nat, rng: Option<seq<Draw>>) returns (ok: bool)
    requires 0 < n == random.Length <= top.Length && random != top && top[n - 1] != 0 && Answers(rng, n)
    modifies random
    ensures ok <==> rng.Some? && Succeeds(rng.value, V(top, n))
    ensures ok ==> FirstInRange(rng.value, V(top, n), V(random, n)) && 0 < V(random, n) < V(top, n)
  {
    hide Val, Pow2, BitLength, Masked;
    ghost var m := V(top, n);
    var bits := NumBits(top, n);
    BitLengthUnique(m, bits);
    if rng.None? {
      return false;
    }
    var tries := 0;
    while tries < RNG_MAX_TRIES
      invariant tries <= RNG_MAX_TRIES && V(top, n) == m
      invariant forall u :: 0 <= u < tries ==> rng.value[u].Drawn? && !InRange(rng.value[u], m)
    {
      var d := rng.value[tries];
      if d.Refused? {
        return false;
      }
      assert d in rng.value;
      TakeDraw(random, d, n, bits, m);
      var zero := IsZero(random, n);
      var c := Cmp(top, random, n);
      if !zero && c == 1 {
        assert InRange(rng.value[tries], m);
        return true;
      }
      tries := tries + 1;
    }
    return false;
  }

  // ----- scalar multiplication with a regularised scalar -----

  /** out is a result of multiplying pt by the regularised key, for some initial denominator. */
  ghost predicate KeyMult(pt: CoZ.Coords, key: nat, out: CoZ.Coords) {
    exists z: int, s: nat ::
      && 0 < z < PRIME && s < R && R + s == Regular(key)
      && Ladder.IsPointMult(PRIME, pt, s, z, LADDER_BITS, out)
  }

  ghost function PointOf(x: array<Word>, y: array<Word>): CoZ.Coords
    requires x.Length == y.Length == 8
    reads x, y
  {
    CoZ.Coords(Fe(x), Fe(y))
  }

  /** EccPoint_compute_public_key */
  method ComputePublicKey(resultX: array<Word>, resultY: array<Word>, priv: array<Word>, curve: CurveArrays) returns (ok: bool)
    requires curve.Valid() && resultX.Length == resultY.Length == priv.Length == 8
    requires resultX != resultY && resultX != curve.p && resultY != curve.p
    modifies resultX, resultY
    ensures KeyMult(BASE_COORDS, old(Fe(priv)), PointOf(resultX, resultY))
    ensures ok <==> PointOf(resultX, resultY) != CoZ.Coords(0, 0)
    ensures Fe(resultX) < PRIME && Fe(resultY) < PRIME
  {
    hide Val, P_WORDS, N_WORDS, GX_WORDS, GY_WORDS, B_WORDS, Regular, Ladder.IsPointMult, BASE_COORDS;
    ghost var key := Fe(priv);
    BaseInArrays(curve);
    var tmp1, tmp2 := new Word[8], new Word[8];
    var carry := RegularizeK(priv, tmp1, tmp2, curve.n);
    var scalar := if carry then tmp1 else tmp2;
    assert scalar[..] == scalar[..8];
    ValBound(scalar[..8]);
    BPowValues();
    ghost var s := Val(scalar[..]);
    EccPointMult(resultX, resultY, curve.gx, curve.gy, scalar, null, LADDER_BITS, curve.p);
    assert Ladder.IsPointMult(PRIME, BASE_COORDS, s, 1, LADDER_BITS, PointOf(resultX, resultY));
    var zero := PointIsZero(resultX, resultY);
    return !zero;
  }

  ghost const BASE_COORDS: CoZ.Coords := CoZ.Coords(Val(GX_WORDS), Val(GY_WORDS))

  lemma BaseInArrays(curve: CurveArrays)
    requires curve.Valid()
    ensures PointOf(curve.gx, curve.gy) == BASE_COORDS
  {
    assert curve.gx[..8] == GX_WORDS && curve.gy[..8] == GY_WORDS;
  }

  // ----- the shared secret -----

  /** The numbers in the two halves of a public key. */
  ghost function PublicPoint(publicKey: seq<Byte>): CoZ.Coords
    requires |publicKey| == 64
  {
    CoZ.Coords(BigEndian(publicKey[..32]), BigEndian(publicKey[32..]))
  }

  /** The secret is the abscissa of key * point, and the flag says whether the point is not (0, 0). */
  ghost predicate IsSharedSecret(publicKey: seq<Byte>, privateKey: seq<Byte>, secret: seq<Byte>, ok: bool)
    requires |publicKey| == 64 && |privateKey| == 32
  {
    exists out ::
      && KeyMult(PublicPoint(publicKey), BigEndian(privateKey), out)
      && 0 <= out.x < PRIME && secret == LowBytes(out.x, 32)
      && (ok <==> out != CoZ.Coords(0, 0))
  }

  lemma TopWord(p: array<Word>)
    requires IsModulus(p)
    ensures p[7] != 0
  {
    assert p[7] == p[..][7];
  }

  /** The multiplication of a point, in place, with any initial denominator. */
  method MultiplyByKey(x: array<Word>, y: array<Word>, scalar: array<Word>, initialZ: array?<Word>, p: array<Word>, ghost key: nat)
    requires IsModulus(p) && x.Length == y.Length == scalar.Length == 8 && x != y && x != p && y != p
    requires initialZ != null ==> Residue(initialZ, p) && Fe(initialZ) > 0
    requires R + Fe(scalar) == Regular(key)
    modifies x, y
    ensures KeyMult(old(PointOf(x, y)), key, PointOf(x, y))
    ensures Fe(x) < PRIME && Fe(y) < PRIME
  {
    hide Val, P_WORDS, Regular, Ladder.IsPointMult;
    assert scalar[..] == scalar[..8];
    ValBound(scalar[..8]);
    BPowValues();
    EccPointMult(x, y, x, y, scalar, initialZ, LADDER_BITS, p);
  }

  /** The words of a private key and of the two halves of a public key. */
  method LoadKeys(publicKey: array<Byte>, privateKey: array<Byte>)
    returns (priv: array<Word>, publicX: array<Word>, publicY: array<Word>)
    requires publicKey.Length == 64 && privateKey.Length == 32
    ensures fresh(priv) && fresh(publicX) && fresh(publicY) && priv != publicX && priv != publicY && publicX != publicY
    ensures priv.Length == publicX.Length == publicY.Length == 8
    ensures Fe(priv) == BigEndian(privateKey[..]) && PointOf(publicX, publicY) == PublicPoint(publicKey[..])
  {
    hide Val, BigEndian;
    priv, publicX, publicY := new Word[8], new Word[8], new Word[8];
    BytesToNative(priv, privateKey, 0, 32);
    BytesToNative(publicX, publicKey, 0, 32);
    BytesToNative(publicY, publicKey, 32, 32);
    assert privateKey[0..0 + 32] == privateKey[..];
    assert publicKey[0..0 + 32] == publicKey[..][..32] && publicKey[32..32 + 32] == publicKey[..][32..];
  }

  /**
   uECC_shared_secret. The buffer that is not the scalar receives the random denominator, so the
   scalar survives until it is used.
   */
  method SharedSecret(publicKey: array<Byte>, privateKey: array<Byte>, secret: array<Byte>,
                      curve: CurveArrays, rng: Option<seq<Draw>>) returns (r: bool)
    requires curve.Valid() && Answers(rng, 8)
    requires publicKey.Length == 64 && privateKey.Length == 32 && secret.Length == 32
    modifies secret
    ensures if rng.None? || Succeeds(rng.value, PRIME)
      then IsSharedSecret(old(publicKey[..]), old(privateKey[..]), secret[..], r)
      else !r && secret[..] == old(secret[..])
  {
    hide Val, P_WORDS, N_WORDS, GX_WORDS, GY_WORDS, B_WORDS, Regular, KeyMult, LowBytes, BigEndian, Succeeds, FirstInRange;
    ghost var pub, key := publicKey[..], privateKey[..];
    var priv, publicX, publicY := LoadKeys(publicKey, privateKey);
    var tmp := new Word[8];
    ghost var pt := PublicPoint(pub);

    var carry := RegularizeK(priv, priv, tmp, curve.n);
    var scalar, other := if carry then priv else tmp, if carry then tmp else priv;
    ghost var s := Fe(scalar);

    var initialZ: array?<Word> := null;
    if rng.Some? {
      ModulusValue(curve.p);
      TopWord(curve.p);
      var ok := GenerateRandomInt(other, curve.p, 8, rng);
      if !ok {
        return false;
      }
      initialZ := other;
    }
    assert Fe(scalar) == s && PointOf(publicX, publicY) == pt;
    MultiplyByKey(publicX, publicY, scalar, initialZ, curve.p, BigEndian(key));
    NativeToBytes(secret, 0, 32, publicX);
    assert publicX[..8] == publicX[..] && secret[0..0 + 32] == secret[..];
    var zero := PointIsZero(publicX, publicY);
    r := !zero;
  }

  // ----- key pairs -----

  /** The private key bytes of a number below the order, and the public key computed from it. */
  ghost predicate IsKeyPairFor(key: nat, publicKey: seq<Byte>, privateKey: seq<Byte>) {
    exists out ::
      && key < ORDER && KeyMult(BASE_COORDS, key, out) && out != CoZ.Coords(0, 0)
      && 0 <= out.x < PRIME && 0 <= out.y < PRIME
      && privateKey == LowBytes(key, 32) && publicKey == LowBytes(out.x, 32) + LowBytes(out.y, 32)
  }

  ghost predicate IsKeyPair(publicKey: seq<Byte>, privateKey: seq<Byte>) {
    exists key: nat :: IsKeyPairFor(key, publicKey, privateKey)
  }

  /** The key taken from a draw. */
  ghost function DrawnKey(d: Draw): nat
    requires d.Drawn?
  {
    OrderValue();
    Val(d.words) % ORDER
  }

  /** A draw whose key has no usable public key. */
  ghost predicate Degenerate(d: Draw) {
    d.Drawn? && KeyMult(BASE_COORDS, DrawnKey(d), CoZ.Coords(0, 0))
  }

  /** The pair comes from the first draw that is not degenerate. */
  ghost predicate FirstKeyPair(draws: seq<Draw>, publicKey: seq<Byte>, privateKey: seq<Byte>)
    requires |draws| >= RNG_MAX_TRIES
  {
    exists t :: 0 <= t < RNG_MAX_TRIES && draws[t].Drawn? && IsKeyPairFor(DrawnKey(draws[t]), publicKey, privateKey)
      && forall u :: 0 <= u < t ==> Degenerate(draws[u])
  }

  /** The private key bytes are below the order and congruent to the first draw that is not degenerate. */
  ghost predicate TakenFromDraw(draws: seq<Draw>, privateKey: seq<Byte>)
    requires |draws| >= RNG_MAX_TRIES
  {
    exists t :: 0 <= t < RNG_MAX_TRIES && draws[t].Drawn?
      && BigEndian(privateKey) < ORDER && (Val(draws[t].words) - BigEndian(privateKey)) % ORDER == 0
      && forall u :: 0 <= u < t ==> Degenerate(draws[u])
  }

  /** Only degenerate draws come before a refusal, or there are too many of them. */
  ghost predicate NoKeyPair(draws: seq<Draw>)
    requires |draws| >= RNG_MAX_TRIES
  {
    exists t :: 0 <= t <= RNG_MAX_TRIES && (t < RNG_MAX_TRIES ==> draws[t].Refused?)
      && forall u :: 0 <= u < t ==> Degenerate(draws[u])
  }

  lemma OrderInArray(n: array<Word>)
    requires n[..] == N_WORDS
    ensures n.Length == 8 && Fe(n) == ORDER > 0 && n[7] != 0
  {
    assert |n[..]| == 8;
    assert n[..8] == N_WORDS && n[7] == N_WORDS[7];
    OrderValue();
  }

  /** uECC_make_key: draws until a key is found whose public key is not (0, 0). */
  method MakeKey(publicKey: array<Byte>, privateKey: array<Byte>, curve: CurveArrays, rng: Option<seq<Draw>>) returns (r: bool)
    requires curve.Valid() && Answers(rng, 16) && publicKey.Length == 64 && privateKey.Length == 32
    requires publicKey != privateKey
    modifies publicKey, privateKey
    ensures r ==> rng.Some? && FirstKeyPair(rng.value, publicKey[..], privateKey[..]) && IsKeyPair(publicKey[..], privateKey[..])
    ensures r ==> TakenFromDraw(rng.value, privateKey[..])
    ensures !r ==> rng.None? || NoKeyPair(rng.value)
    ensures !r ==> publicKey[..] == old(publicKey[..]) && privateKey[..] == old(privateKey[..])
  {
    hide Val, P_WORDS, N_WORDS, GX_WORDS, GY_WORDS, B_WORDS, BASE_COORDS, KeyMult, LowBytes, ORDER, TakenFromDraw;
    if rng.None? {
      return false;
    }
    var random := new Word[16];
    var priv, publicX, publicY := new Word[8], new Word[8], new Word[8];
    var tries := 0;
    while tries < RNG_MAX_TRIES
      invariant tries <= RNG_MAX_TRIES && curve.Valid()
      invariant publicKey[..] == old(publicKey[..]) && privateKey[..] == old(privateKey[..])
      invariant forall u :: 0 <= u < tries ==> Degenerate(rng.value[u])
    {
      if rng.value[tries].Refused? {
        NoKeyPairBefore(rng.value, tries);
        return false;
      }
      assert rng.value[tries] in rng.value;
      TakeKey(priv, random, rng.value[tries], curve);
      ghost var key := Fe(priv);
      var ok := ComputePublicKey(publicX, publicY, priv, curve);
      if ok {
        ghost var out := PointOf(publicX, publicY);
        StoreKeys(publicKey, privateKey, publicX, publicY, priv);
        assert IsKeyPairFor(key, publicKey[..], privateKey[..]);
        KeyOfDraw(rng.value, tries, privateKey[..]);
        return true;
      }
      tries := tries + 1;
    }
    NoKeyPairBefore(rng.value, tries);
    return false;
  }

  /** The double-length draw, reduced modulo the order. */
  method TakeKey(priv: array<Word>, random: array<Word>, d: Draw, curve: CurveArrays)
    requires curve.Valid() && d.Drawn? && |d.words| == random.Length == 16 && priv.Length == 8
    requires priv != random && priv != curve.n && random != curve.n
    modifies priv, random
    ensures Fe(priv) == DrawnKey(d) < ORDER
  {
    hide Val, P_WORDS, N_WORDS, GX_WORDS, GY_WORDS, B_WORDS;
    LoadWords(random, d.words);
    assert random[..16] == d.words;
    OrderInArray(curve.n);
    Mmod(priv, random, curve.n, 8);
  }

  lemma NoKeyPairBefore(draws: seq<Draw>, t: nat)
    requires |draws| >= RNG_MAX_TRIES && t <= RNG_MAX_TRIES && (t < RNG_MAX_TRIES ==> draws[t].Refused?)
    requires forall u :: 0 <= u < t ==> Degenerate(draws[u])
    ensures NoKeyPair(draws)
  {
  }

  /** The private key bytes stand for a number below the order that is congruent to the draw. */
  lemma KeyOfDraw(draws: seq<Draw>, t: nat, privateKey: seq<Byte>)
    requires |draws| >= RNG_MAX_TRIES > t && draws[t].Drawn? && privateKey == LowBytes(DrawnKey(draws[t]), 32)
    requires forall u :: 0 <= u < t ==> Degenerate(draws[u])
    ensures TakenFromDraw(draws, privateKey)
  {
    hide Val, Pow2, BigEndian, LowBytes, Degenerate;
    var d := draws[t];
    PowersOfTwo();
    NativeRoundTrip(DrawnKey(d), 32);
    DivModFacts(Val(d.words), ORDER);
    DivUnique(Val(d.words) - BigEndian(privateKey), ORDER, Val(d.words) / ORDER, 0);
  }

  method StoreKeys(publicKey: array<Byte>, privateKey: array<Byte>, publicX: array<Word>, publicY: array<Word>, priv: array<Word>)
    requires publicKey.Length == 64 && privateKey.Length == 32 && publicKey != privateKey
    requires publicX.Length == publicY.Length == priv.Length == 8
    modifies publicKey, privateKey
    ensures privateKey[..] == LowBytes(Fe(priv), 32)
    ensures publicKey[..] == LowBytes(Fe(publicX), 32) + LowBytes(Fe(publicY), 32)
  {
    hide Val, LowBytes;
    NativeToBytes(privateKey, 0, 32, priv);
    NativeToBytes(publicKey, 0, 32, publicX);
    ghost var x := publicKey[0..0 + 32];
    NativeToBytes(publicKey, 32, 32, publicY);
    assert publicX[..8] == publicX[..] && publicY[..8] == publicY[..] && priv[..8] == priv[..];
    assert publicKey[0..32] == x && publicKey[..] == publicKey[0..32] + publicKey[32..32 + 32];
    assert privateKey[0..0 + 32] == privateKey[..];
  }
}
