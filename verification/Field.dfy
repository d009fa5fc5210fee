/**
 Arithmetic modulo p on the residues 0 to p-1. A residue with integer lift t is t % p; the
 lifting lemmas carry a computation on residues over to the integers and back.
 */
module Field {
  import opened Arith
  import opened Reduce
  import opened Inverse

  function FAdd(p: int, a: int, b: int): (r: int)
    requires p > 0
    ensures 0 <= r < p
  {
    (a + b) % p
  }

  function FSub(p: int, a: int, b: int): (r: int)
    requires p > 0
    ensures 0 <= r < p
  {
    (a - b) % p
  }

  function FMul(p: int, a: int, b: int): (r: int)
    requires p > 0
    ensures 0 <= r < p
  {
    (a * b) % p
  }

  /** The residue of an integer. */
  function Res(p: int, t: int): (r: int)
    requires p > 0
    ensures 0 <= r < p
  {
    t % p
  }

  /** Integers that differ by a multiple of p. */
  ghost predicate Cong(p: int, t: int, u: int)
    requires p > 0
  {
    Res(p, t) == Res(p, u)
  }

  lemma ResAddMultiple(p: int, t: int, q: int)
    requires p > 0
    ensures Res(p, t + p * q) == Res(p, t)
  {
    SubtractMultiple(t, p, -q);
  }

  lemma ResSmall(p: int, t: int)
    requires 0 <= t < p
    ensures Res(p, t) == t
  {
    DivUnique(t, p, 0, t);
  }

  lemma ResDecompose(p: int, t: int) returns (q: int)
    requires p > 0
    ensures t == Res(p, t) + p * q
  {
    q := t / p;
    DivModFacts(t, p);
  }

  lemma FieldDefs(p: int, a: int, b: int)
    requires p > 0
    ensures FAdd(p, a, b) == Res(p, a + b)
    ensures FSub(p, a, b) == Res(p, a - b)
    ensures FMul(p, a, b) == Res(p, a * b)
  {
  }

  lemma LeftLift(p: int, t: int, u: int)
    requires p > 0
    ensures Res(p, Res(p, t) * u) == Res(p, t * u)
  {
    hide Res;
    var q := ResDecompose(p, t);
    ProductOffset(Res(p, t), p * q, u);
    MulAssoc(p, q, u);
    ResAddMultiple(p, Res(p, t) * u, q * u);
  }

  lemma ProductOffset(a: int, k: int, u: int)
    ensures (a + k) * u == a * u + k * u
  {
  }

  lemma MulLift(p: int, t: int, u: int)
    requires p > 0
    ensures FMul(p, Res(p, t), Res(p, u)) == Res(p, t * u)
    ensures FMul(p, Res(p, t), u) == Res(p, t * u)
    ensures FMul(p, t, u) == Res(p, t * u)
  {
    FieldDefs(p, Res(p, t), Res(p, u));
    FieldDefs(p, Res(p, t), u);
    FieldDefs(p, t, u);
    hide Res, FMul;
    LeftLift(p, t, u);
    LeftLift(p, u, Res(p, t));
  }

  lemma AddLift(p: int, t: int, u: int)
    requires p > 0
    ensures FAdd(p, Res(p, t), Res(p, u)) == Res(p, t + u)
  {
    FieldDefs(p, Res(p, t), Res(p, u));
    hide Res, FAdd;
    var q := ResDecompose(p, t);
    var s := ResDecompose(p, u);
    ResAddMultiple(p, Res(p, t) + u, q);
    ResAddMultiple(p, Res(p, t) + Res(p, u), s);
  }

  lemma SubLift(p: int, t: int, u: int)
    requires p > 0
    ensures FSub(p, Res(p, t), Res(p, u)) == Res(p, t - u)
  {
    FieldDefs(p, Res(p, t), Res(p, u));
    hide Res, FSub;
    var q := ResDecompose(p, t);
    var s := ResDecompose(p, u);
    ResAddMultiple(p, Res(p, t) - u, q);
    ResAddMultiple(p, Res(p, t) - u, s);
  }

  // ----- congruences -----

  lemma CongMul(p: int, t: int, u: int, v: int, w: int)
    requires p > 0 && Cong(p, t, u) && Cong(p, v, w)
    ensures Cong(p, t * v, u * w)
  {
    MulLift(p, t, v);
    MulLift(p, u, w);
  }

  lemma CongAdd(p: int, t: int, u: int, v: int, w: int)
    requires p > 0 && Cong(p, t, u) && Cong(p, v, w)
    ensures Cong(p, t + v, u + w) && Cong(p, t - v, u - w)
  {
    AddLift(p, t, v);
    AddLift(p, u, w);
    SubLift(p, t, v);
    SubLift(p, u, w);
  }

  lemma CongRes(p: int, t: int)
    requires p > 0
    ensures Cong(p, Res(p, t), t)
  {
    ResSmall(p, Res(p, t));
  }

  lemma CongZero(p: int, t: int, u: int)
    requires p > 0
    ensures Cong(p, t, u) <==> Cong(p, t - u, 0)
  {
    SubLift(p, t, u);
    ResSmall(p, 0);
    var a, b := Res(p, t), Res(p, u);
    if a == b {
      assert FSub(p, a, b) == Res(p, 0);
    } else if Cong(p, t - u, 0) {
      ModNegOnce(a - b, p);
    }
  }

  // ----- inverses -----

  /** Every non-zero residue has an inverse: the one consequence of p being prime that is used. */
  ghost predicate PrimeField(p: int) {
    p > 3 && forall a {:trigger Unit(a, p)} :: 0 < a < p ==> Unit(a, p)
  }

  /** An inverse of a modulo p, and 0 when there is none. */
  ghost function InverseOf(p: int, a: int): int
    requires p > 0
  {
    if Unit(a, p) then
      var y: int :| (a * y) % p == 1; y
    else 0
  }

  lemma InverseOfUnit(p: int, a: int)
    requires p > 1 && Unit(a, p)
    ensures Cong(p, a * InverseOf(p, a), 1)
  {
    ResSmall(p, 1);
  }

  lemma UnitCong(p: int, a: int, b: int)
    requires p > 1 && Cong(p, a, b) && Unit(a, p)
    ensures Unit(b, p)
  {
    var y: int :| (a * y) % p == 1;
    CongMul(p, a, b, y, y);
    assert (b * y) % p == 1;
  }

  lemma UnitOfInverse(p: int, a: int, y: int)
    requires p > 1 && Cong(p, a * y, 1)
    ensures Unit(a, p)
  {
    ResSmall(p, 1);
    assert (a * y) % p == 1;
  }

  lemma UnitMul(p: int, a: int, b: int)
    requires p > 1 && Unit(a, p) && Unit(b, p)
    ensures Unit(a * b, p)
  {
    var y, z := InverseOf(p, a), InverseOf(p, b);
    InverseOfUnit(p, a);
    InverseOfUnit(p, b);
    CongMul(p, a * y, 1, b * z, 1);
    assert (a * y) * (b * z) == (a * b) * (y * z) by { Shuffle(a, y, b, z); }
    UnitOfInverse(p, a * b, y * z);
  }

  lemma Shuffle(a: int, y: int, b: int, z: int)
    ensures (a * y) * (b * z) == (a * b) * (y * z)
  {
  }

  /** A unit may be cancelled. */
  lemma Cancel(p: int, a: int, t: int)
    requires p > 1 && Unit(a, p) && Cong(p, a * t, 0)
    ensures Cong(p, t, 0)
  {
    var y := InverseOf(p, a);
    InverseOfUnit(p, a);
    CongMul(p, a * t, 0, y, y);
    CongMul(p, a * y, 1, t, t);
    assert (a * t) * y == (a * y) * t by { MulAssoc(a, t, y); MulAssoc(a, y, t); }
  }

  lemma NonZeroUnit(p: int, a: int)
    requires PrimeField(p) && !Cong(p, a, 0)
    ensures Unit(a, p)
  {
    ResSmall(p, 0);
    CongRes(p, a);
    UnitCong(p, Res(p, a), a);
  }

  lemma UnitNonZero(p: int, a: int)
    requires p > 1 && Unit(a, p)
    ensures !Cong(p, a, 0)
  {
    if Cong(p, a, 0) {
      var y := InverseOf(p, a);
      InverseOfUnit(p, a);
      CongMul(p, a, 0, y, y);
      ResSmall(p, 0);
      ResSmall(p, 1);
    }
  }
}
