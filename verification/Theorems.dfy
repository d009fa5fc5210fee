/**
 What the ECDH entry points guarantee to their callers, under the stated hypotheses on the
 curve: P-256 is a group over a prime field and the points used have its prime order.
 */
module Theorems {
  import opened Arith
  import opened Words
  import opened P256
  import opened Field
  import opened CurveGroup
  import opened CoZ
  import opened Ladder
  import opened Bytes
  import opened Scalar
  import opened Ecdh

  /** The hypotheses for a point of P-256. */
  ghost predicate Hypotheses(a: Point) {
    GoodPoint(P256_CURVE, a, ORDER) && a.Affine? && PrimeField(ORDER)
  }

  /** Multiplying by a key gives the multiple, or (0, 0) in the exceptional cases. */
  lemma KeyMultCorrect(a: Point, key: nat, out: Coords)
    requires Hypotheses(a) && key < R && KeyMult(Coords(a.x, a.y), key, out)
    ensures out == if a.x == 0 || Exceptional(key) then Coords(0, 0) else Encode(Mul(PRIME, key, a))
    ensures out != Coords(0, 0) <==> a.x != 0 && !Exceptional(key)
  {
    hide GoodPoint, Mul, IsPointMult, Regular, Exceptional, Encode;
    var z: int, s: nat :| 0 < z < PRIME && s < R && R + s == Regular(key)
      && IsPointMult(PRIME, Coords(a.x, a.y), s, z, LADDER_BITS, out);
    RegularMult(P256_CURVE, a, key, s, z, out);
    NonZeroIsCorrect(a, key, s, z, out);
  }

  lemma PrivateKeyRange(s: seq<Byte>)
    requires |s| == 32
    ensures BigEndian(s) < R
  {
    BigEndianBound(s);
    PowersOfTwo();
  }

  /**
   The shared secret with a valid point: success is reported exactly when the abscissa of the
   point is not zero and the key is not exceptional, and then the secret is the abscissa of the
   key times the point. A reported success is never wrong.
   */
  lemma SecretCorrect(a: Point, publicKey: seq<Byte>, privateKey: seq<Byte>, secret: seq<Byte>, ok: bool)
    requires Hypotheses(a) && |publicKey| == 64 && |privateKey| == 32
    requires PublicPoint(publicKey) == Coords(a.x, a.y)
    requires IsSharedSecret(publicKey, privateKey, secret, ok)
    ensures ok <==> a.x != 0 && !Exceptional(BigEndian(privateKey))
    ensures ok ==> var q := Mul(PRIME, BigEndian(privateKey), a);
      q.Affine? && 0 <= q.x < PRIME && secret == LowBytes(q.x, 32)
  {
    hide Hypotheses, KeyMult, Mul, BigEndian, LowBytes, Exceptional, PublicPoint, Encode;
    var key := BigEndian(privateKey);
    var out :| KeyMult(PublicPoint(publicKey), key, out) && 0 <= out.x < PRIME
      && secret == LowBytes(out.x, 32) && (ok <==> out != Coords(0, 0));
    PrivateKeyRange(privateKey);
    KeyMultCorrect(a, key, out);
    if ok {
      EncodedAffine(a, key, out);
    }
  }

  /** A secret that is reported as a failure is all zero bytes. */
  lemma FailedSecretIsZero(publicKey: seq<Byte>, privateKey: seq<Byte>, secret: seq<Byte>)
    requires |publicKey| == 64 && |privateKey| == 32 && IsSharedSecret(publicKey, privateKey, secret, false)
    ensures |secret| == 32 && forall i :: 0 <= i < 32 ==> secret[i] == 0
  {
    hide KeyMult, BigEndian, PublicPoint, Pow2;
    assert secret == LowBytes(0, 32);
    forall i | 0 <= i < 32
      ensures secret[i] == 0
    {
      DivUnique(0, Pow2(8 * (31 - i)), 0, 0);
    }
  }

  lemma EncodedAffine(a: Point, key: nat, out: Coords)
    requires Hypotheses(a) && out != Coords(0, 0) && out == Encode(Mul(PRIME, key, a))
    ensures Mul(PRIME, key, a).Affine? && Mul(PRIME, key, a).x == out.x
  {
  }

  /** A generated key pair belongs together, and its private key is not exceptional. */
  lemma KeyPairCorrect(publicKey: seq<Byte>, privateKey: seq<Byte>)
    requires Hypotheses(Affine(BASE_COORDS.x, BASE_COORDS.y)) && IsKeyPair(publicKey, privateKey)
    ensures |publicKey| == 64 && |privateKey| == 32 && !Exceptional(BigEndian(privateKey))
    ensures PublicPoint(publicKey) == Encode(Mul(PRIME, BigEndian(privateKey), Affine(BASE_COORDS.x, BASE_COORDS.y)))
  {
    hide Hypotheses, KeyMult, Mul, Exceptional, BASE_COORDS, Encode;
    var g := Affine(BASE_COORDS.x, BASE_COORDS.y);
    var key: nat, out :|
      && key < ORDER && KeyMult(BASE_COORDS, key, out) && out != Coords(0, 0)
      && 0 <= out.x < PRIME && 0 <= out.y < PRIME
      && privateKey == LowBytes(key, 32) && publicKey == LowBytes(out.x, 32) + LowBytes(out.y, 32);
    PowersOfTwo();
    PrimeValue();
    hide Pow2, BigEndian, LowBytes;
    NativeRoundTrip(key, 32);
    NativeRoundTrip(out.x, 32);
    NativeRoundTrip(out.y, 32);
    assert publicKey[..32] == LowBytes(out.x, 32) && publicKey[32..] == LowBytes(out.y, 32);
    assert BASE_COORDS == Coords(g.x, g.y);
    KeyMultCorrect(g, key, out);
  }

  /**
   Two parties with generated key pairs who exchange public keys and both succeed hold the same
   secret, with or without random denominators. Each succeeds unless the public key it received
   has abscissa zero.
   */
  lemma KeyAgreement(pubA: seq<Byte>, privA: seq<Byte>, pubB: seq<Byte>, privB: seq<Byte>,
                     secretA: seq<Byte>, secretB: seq<Byte>, okA: bool, okB: bool)
    requires Hypotheses(Affine(BASE_COORDS.x, BASE_COORDS.y))
    requires IsKeyPair(pubA, privA) && IsKeyPair(pubB, privB)
    requires |pubA| == |pubB| == 64 && |privA| == |privB| == 32
    requires IsSharedSecret(pubB, privA, secretA, okA) && IsSharedSecret(pubA, privB, secretB, okB)
    ensures okA <==> BigEndian(pubB[..32]) != 0
    ensures okB <==> BigEndian(pubA[..32]) != 0
    ensures okA && okB ==> secretA == secretB
  {
    hide Mul, BigEndian, LowBytes, Exceptional, Encode, BASE_COORDS, IsSharedSecret, IsKeyPair, GoodPoint, PrimeField;
    var g := Affine(BASE_COORDS.x, BASE_COORDS.y);
    var ka, kb := BigEndian(privA), BigEndian(privB);
    KeyPairCorrect(pubA, privA);
    KeyPairCorrect(pubB, privB);
    var qa, qb := Mul(PRIME, ka, g), Mul(PRIME, kb, g);
    PointHypotheses(g, ka);
    PointHypotheses(g, kb);
    SecretCorrect(qb, pubB, privA, secretA, okA);
    SecretCorrect(qa, pubA, privB, secretB, okB);
    MulMulGood(P256_CURVE, g, ka, kb);
    MulMulGood(P256_CURVE, g, kb, ka);
    assert ka * kb == kb * ka;
  }

  lemma PointHypotheses(g: Point, k: nat)
    requires Hypotheses(g) && !Exceptional(k)
    ensures Mul(PRIME, k, g).Affine? && Hypotheses(Mul(PRIME, k, g))
    ensures Encode(Mul(PRIME, k, g)) == Coords(Mul(PRIME, k, g).x, Mul(PRIME, k, g).y)
  {
    MultipleIsGood(P256_CURVE, g, k);
  }

  /** The base point in the curve structure is the one of P-256: a point of the curve with this abscissa and an odd ordinate. */
  lemma BasePointOnCurve()
    ensures OnCurve(P256_CURVE, Affine(BASE_COORDS.x, BASE_COORDS.y))
    ensures BASE_COORDS.x == 0x6b17_d1f2_e12c_4247_f8bc_e6e5_63a4_40f2_7703_7d81_2deb_33a0_f4a1_3945_d898_c296
    ensures BASE_COORDS.y % 2 == 1
  {
    ValEight(GX_WORDS);
    ValEight(GY_WORDS);
    PrimeValue();
    var x, y := 0x6b17_d1f2_e12c_4247_f8bc_e6e5_63a4_40f2_7703_7d81_2deb_33a0_f4a1_3945_d898_c296, 0x4fe3_42e2_fe1a_7f9b_8ee7_eb4a_7c0f_9e16_2bce_3357_6b31_5ece_cbb6_4068_37bf_51f5;
    var q := 0x12bd_d1ad_23df_c833_dccf_5f61_41d6_bb4a_1f36_5dc1_430b_0e60_0b52_dd85_1938_d2d6_9331_06a7_2efb_f035_fdaf_4396_3b37_fd54_56e9_0c65_81a8_fb7a_0d8a_46a3_629f_0458;
    assert BASE_COORDS == Coords(x, y);
    assert Equation(COEFF_B, x, y) == 0 + PRIME * q;
    ResAddMultiple(PRIME, 0, q);
  }

  /** The witness for the exceptional scalars: with the private key 1 every secret is refused. */
  lemma KeyOneFails(a: Point, publicKey: seq<Byte>, secret: seq<Byte>, ok: bool)
    requires Hypotheses(a) && |publicKey| == 64 && PublicPoint(publicKey) == Coords(a.x, a.y)
    requires IsSharedSecret(publicKey, LowBytes(1, 32), secret, ok)
    ensures !ok && Mul(PRIME, 1, a) == a
  {
    hide GoodPoint, PrimeField, BigEndian, LowBytes, PublicPoint, IsSharedSecret, Mul, Pow2;
    PowersOfTwo();
    NativeRoundTrip(1, 32);
    OneIsExceptional();
    MulOne(PRIME, a);
    hide Exceptional;
    SecretCorrect(a, publicKey, LowBytes(1, 32), secret, ok);
  }

  lemma OneIsExceptional()
    ensures Exceptional(1)
  {
    DivUnique(1, ORDER, 0, 1);
  }

  /** The witness for the other exception: a point of the curve with abscissa zero. */
  const ZERO_ABSCISSA_Y: int := 0x6648_5c78_0e2f_83d7_2433_bd5d_84a0_6bb6_541c_2af3_1dae_8717_28bf_856a_174f_93f4

  lemma ZeroAbscissaOnCurve()
    ensures OnCurve(P256_CURVE, Affine(0, ZERO_ABSCISSA_Y))
  {
    PrimeValue();
    var y, q := ZERO_ABSCISSA_Y, -18484299446284197684144414341734473199757642899935467386529302760226016477115;
    assert Equation(COEFF_B, 0, y) == 0 + PRIME * q;
    ResAddMultiple(PRIME, 0, q);
  }

  /** Whatever the private key, the secret with that point is refused, although its multiples are points. */
  lemma ZeroAbscissaFails(publicKey: seq<Byte>, privateKey: seq<Byte>, secret: seq<Byte>, ok: bool)
    requires Hypotheses(Affine(0, ZERO_ABSCISSA_Y)) && |publicKey| == 64 && |privateKey| == 32
    requires PublicPoint(publicKey) == Coords(0, ZERO_ABSCISSA_Y) && BigEndian(privateKey) % ORDER != 0
    requires IsSharedSecret(publicKey, privateKey, secret, ok)
    ensures !ok && Mul(PRIME, BigEndian(privateKey), Affine(0, ZERO_ABSCISSA_Y)).Affine?
  {
    hide PrimeField, BigEndian, LowBytes, PublicPoint, IsSharedSecret, Mul, Exceptional;
    var a := Affine(0, ZERO_ABSCISSA_Y);
    SecretCorrect(a, publicKey, privateKey, secret, ok);
    MultipleIsGood(P256_CURVE, a, BigEndian(privateKey));
  }
}
