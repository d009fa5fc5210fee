/**
 The point formulas, as computations on residues: Jacobian doubling and the co-Z addition and
 conjugate addition, where two points share one denominator that is never computed. Each is
 shown to compute the affine chord and tangent construction.
 */
module CoZ {
  import opened Arith
  import opened Inverse
  import opened Field
  import opened CurveGroup

  /** The coordinates of two points that share a denominator. */
  datatype Pair = Pair(x1: int, y1: int, x2: int, y2: int)

  datatype Jacobian = Jacobian(x: int, y: int, z: int)

  datatype Coords = Coords(x: int, y: int)

  // ----- the formulas of the source, statement by statement -----

  /** The products of an addition, from which its result is put together. */
  datatype Products = Products(b: int, c: int, e: int, g: int)

  function AddProducts(p: int, q: Pair): Products
    requires p > 0
  {
    var d := FSub(p, q.x2, q.x1);
    var a := FMul(p, d, d);
    var b := FMul(p, q.x1, a);
    var c := FMul(p, q.x2, a);
    Products(b, c, FSub(p, q.y2, q.y1), FMul(p, q.y1, FSub(p, c, b)))
  }

  function AddFinish(p: int, t: Products): Pair
    requires p > 0
  {
    var x3 := FSub(p, FSub(p, FMul(p, t.e, t.e), t.b), t.c);
    Pair(t.b, t.g, x3, FSub(p, FMul(p, t.e, FSub(p, t.b, x3)), t.g))
  }

  /** XYcZ_add: (P, Q) becomes (P, P + Q). */
  function Add(p: int, q: Pair): Pair
    requires p > 0
  {
    AddFinish(p, AddProducts(p, q))
  }

  /** What the two results of a conjugate addition share. */
  datatype Shared = Shared(b: int, s: int, e: int, g: int, h: int)

  function AddCShared(p: int, q: Pair): Shared
    requires p > 0
  {
    var d := FSub(p, q.x2, q.x1);
    var a := FMul(p, d, d);
    var b := FMul(p, q.x1, a);
    var c := FMul(p, q.x2, a);
    Shared(b, FAdd(p, q.y2, q.y1), FSub(p, q.y2, q.y1), FMul(p, q.y1, FSub(p, c, b)), FAdd(p, b, c))
  }

  function AddCFinish(p: int, t: Shared): Pair
    requires p > 0
  {
    var x3 := FSub(p, FMul(p, t.e, t.e), t.h);
    var y3 := FSub(p, FMul(p, t.e, FSub(p, t.b, x3)), t.g);
    var x4 := FSub(p, FMul(p, t.s, t.s), t.h);
    var y4 := FSub(p, FMul(p, FSub(p, x4, t.b), t.s), t.g);
    Pair(x4, y4, x3, y3)
  }

  /** XYcZ_addC: (P, Q) becomes (P - Q, P + Q). */
  function AddC(p: int, q: Pair): Pair
    requires p > 0
  {
    AddCFinish(p, AddCShared(p, q))
  }

  /** Halving modulo an odd p: an odd residue first gets p added. */
  function Halve(p: int, a: int): int {
    if a % 2 == 1 then (a + p) / 2 else a / 2
  }

  /** double_jacobian_default; a zero denominator stands for infinity and is left alone. */
  function Double(p: int, q: Jacobian): Jacobian
    requires p > 0
  {
    if q.z == 0 then q else
    var y2 := FMul(p, q.y, q.y);
    var a := FMul(p, q.x, y2);
    var y4 := FMul(p, y2, y2);
    var z3 := FMul(p, q.y, q.z);
    var z2 := FMul(p, q.z, q.z);
    var s := FAdd(p, q.x, z2);
    var t := FSub(p, s, FAdd(p, z2, z2));
    var m := FMul(p, s, t);
    var b := Halve(p, FAdd(p, m, FAdd(p, m, m)));
    var x3 := FSub(p, FSub(p, FMul(p, b, b), a), a);
    var y3 := FSub(p, FMul(p, b, FSub(p, a, x3)), y4);
    Jacobian(x3, y3, z3)
  }

  /** apply_z: (x z^2, y z^3). */
  function ApplyZ(p: int, q: Coords, z: int): Coords
    requires p > 0
  {
    var z2 := FMul(p, z, z);
    Coords(FMul(p, q.x, z2), FMul(p, q.y, FMul(p, z2, z)))
  }

  /** XYcZ_initial_double: P becomes (2P, P), both over one denominator. */
  function InitialDouble(p: int, q: Coords, z: int): Pair
    requires p > 0
  {
    var s := ApplyZ(p, q, z);
    var d := Double(p, Jacobian(s.x, s.y, z));
    var t := ApplyZ(p, q, d.z);
    Pair(d.x, d.y, t.x, t.y)
  }

  // ----- the same formulas over the integers -----

  function AddProductsZ(q: Pair): Products {
    var d := q.x2 - q.x1;
    var b, c := q.x1 * (d * d), q.x2 * (d * d);
    Products(b, c, q.y2 - q.y1, q.y1 * (c - b))
  }

  function AddFinishZ(t: Products): Pair {
    var x3 := t.e * t.e - t.b - t.c;
    Pair(t.b, t.g, x3, t.e * (t.b - x3) - t.g)
  }

  function AddZ(q: Pair): Pair {
    AddFinishZ(AddProductsZ(q))
  }

  function ResProducts(p: int, t: Products): Products
    requires p > 0
  {
    Products(Res(p, t.b), Res(p, t.c), Res(p, t.e), Res(p, t.g))
  }

  function AddCSharedZ(q: Pair): Shared {
    var d := q.x2 - q.x1;
    var b, c := q.x1 * (d * d), q.x2 * (d * d);
    Shared(b, q.y2 + q.y1, q.y2 - q.y1, q.y1 * (c - b), b + c)
  }

  function AddCFinishZ(t: Shared): Pair {
    var x3, x4 := t.e * t.e - t.h, t.s * t.s - t.h;
    Pair(x4, (x4 - t.b) * t.s - t.g, x3, t.e * (t.b - x3) - t.g)
  }

  function AddCZ(q: Pair): Pair {
    AddCFinishZ(AddCSharedZ(q))
  }

  function ResShared(p: int, t: Shared): Shared
    requires p > 0
  {
    Shared(Res(p, t.b), Res(p, t.s), Res(p, t.e), Res(p, t.g), Res(p, t.h))
  }

  function ResPair(p: int, q: Pair): Pair
    requires p > 0
  {
    Pair(Res(p, q.x1), Res(p, q.y1), Res(p, q.x2), Res(p, q.y2))
  }

  lemma AddProductsLift(p: int, q: Pair)
    requires p > 0
    ensures AddProducts(p, ResPair(p, q)) == ResProducts(p, AddProductsZ(q))
  {
    hide FAdd, FSub, FMul, Res;
    var d := q.x2 - q.x1;
    var a := d * d;
    var b, c := q.x1 * a, q.x2 * a;
    SubLift(p, q.x2, q.x1);
    MulLift(p, d, d);
    MulLift(p, q.x1, a);
    MulLift(p, q.x2, a);
    SubLift(p, q.y2, q.y1);
    SubLift(p, c, b);
    MulLift(p, q.y1, c - b);
  }

  lemma AddFinishLifts(p: int, t: Products)
    requires p > 0
    ensures AddFinish(p, ResProducts(p, t)) == ResPair(p, AddFinishZ(t))
  {
    hide FAdd, FSub, FMul, Res;
    var f, x3 := t.e * t.e, t.e * t.e - t.b - t.c;
    MulLift(p, t.e, t.e);
    SubLift(p, f, t.b);
    SubLift(p, f - t.b, t.c);
    SubLift(p, t.b, x3);
    MulLift(p, t.e, t.b - x3);
    SubLift(p, t.e * (t.b - x3), t.g);
  }

  /** Adding residues is adding integers and reducing at the end. */
  lemma AddLifts(p: int, q: Pair)
    requires p > 0
    ensures Add(p, ResPair(p, q)) == ResPair(p, AddZ(q))
  {
    hide AddProducts, AddProductsZ, AddFinish, AddFinishZ, ResPair, ResProducts;
    AddProductsLift(p, q);
    AddFinishLifts(p, AddProductsZ(q));
  }

  lemma AddCSharedLifts(p: int, q: Pair)
    requires p > 0
    ensures AddCShared(p, ResPair(p, q)) == ResShared(p, AddCSharedZ(q))
  {
    hide FAdd, FSub, FMul, Res;
    var d := q.x2 - q.x1;
    var a := d * d;
    var b, c := q.x1 * a, q.x2 * a;
    SubLift(p, q.x2, q.x1);
    MulLift(p, d, d);
    MulLift(p, q.x1, a);
    MulLift(p, q.x2, a);
    AddLift(p, q.y2, q.y1);
    SubLift(p, q.y2, q.y1);
    SubLift(p, c, b);
    MulLift(p, q.y1, c - b);
    AddLift(p, b, c);
  }

  lemma AddCFinishLifts(p: int, t: Shared)
    requires p > 0
    ensures AddCFinish(p, ResShared(p, t)) == ResPair(p, AddCFinishZ(t))
  {
    hide FAdd, FSub, FMul, Res;
    var x3, x4 := t.e * t.e - t.h, t.s * t.s - t.h;
    MulLift(p, t.e, t.e);
    SubLift(p, t.e * t.e, t.h);
    SubLift(p, t.b, x3);
    MulLift(p, t.e, t.b - x3);
    SubLift(p, t.e * (t.b - x3), t.g);
    MulLift(p, t.s, t.s);
    SubLift(p, t.s * t.s, t.h);
    SubLift(p, x4, t.b);
    MulLift(p, x4 - t.b, t.s);
    SubLift(p, (x4 - t.b) * t.s, t.g);
  }

  lemma AddCLifts(p: int, q: Pair)
    requires p > 0
    ensures AddC(p, ResPair(p, q)) == ResPair(p, AddCZ(q))
  {
    hide AddCShared, AddCSharedZ, AddCFinish, AddCFinishZ, ResPair, ResShared;
    AddCSharedLifts(p, q);
    AddCFinishLifts(p, AddCSharedZ(q));
  }

  // ----- what the integer formulas compute -----

  /** Coordinates of the affine point (x, y) over the denominator z. */
  function Over(x: int, y: int, z: int): Coords {
    Coords(x * (z * z), y * (z * (z * z)))
  }

  /** Two points over z whose second lies on the line of slope s through the first. */
  function OnChord(x1: int, y1: int, x2: int, s: int, z: int): Pair {
    Pair(x1 * (z * z), y1 * (z * (z * z)), x2 * (z * z), (y1 + s * (x2 - x1)) * (z * (z * z)))
  }

  lemma SquareOfProduct(x: int, z: int, d: int)
    ensures (x * (z * z)) * (d * d) == x * ((z * d) * (z * d))
  {
  }

  lemma CubeOfProduct(y: int, z: int, d: int)
    ensures (y * (z * (z * z))) * (d * (d * d)) == y * ((z * d) * ((z * d) * (z * d)))
  {
  }

  lemma SlopeOfProduct(y: int, s: int, dx: int, z: int)
    ensures (y + s * dx) * (z * (z * z)) - y * (z * (z * z)) == s * (z * (dx * (z * z)))
  {
    var c := z * (z * z);
    MulDistrib(c, y, s * dx);
    MulAssoc(s, dx, c);
  }

  lemma DifferenceOver(x2: int, x1: int, k: int)
    ensures x2 * k - x1 * k == (x2 - x1) * k
  {
  }

  lemma ChordXOver(s: int, x1: int, x2: int, w: int)
    ensures (s * w) * (s * w) - x1 * (w * w) - x2 * (w * w) == ChordX(s, x1, x2) * (w * w)
  {
    assert (s * w) * (s * w) == (s * s) * (w * w) by { Shuffle(s, w, s, w); }
    DifferenceOver(s * s, x1, w * w);
    DifferenceOver(s * s - x1, x2, w * w);
  }

  lemma ChordYOver(s: int, x1: int, y1: int, x3: int, w: int)
    ensures (s * w) * (x1 * (w * w) - x3 * (w * w)) - y1 * (w * (w * w)) == ChordY(s, x1, y1, x3) * (w * (w * w))
  {
    DifferenceOver(x1, x3, w * w);
    Shuffle(s, w, x1 - x3, w * w);
    DifferenceOver(s * (x1 - x3), y1, w * (w * w));
  }

  /** Over the new denominator w = z d, the addition computes the chord construction. */
  lemma AddZOnChord(x1: int, y1: int, x2: int, s: int, z: int)
    ensures var w := z * (x2 * (z * z) - x1 * (z * z));
      var x3 := ChordX(s, x1, x2);
      var r := AddZ(OnChord(x1, y1, x2, s, z));
      && Coords(r.x1, r.y1) == Over(x1, y1, w)
      && Coords(r.x2, r.y2) == Over(x3, ChordY(s, x1, y1, x3), w)
  {
    var d := x2 * (z * z) - x1 * (z * z);
    var w, x3 := z * d, ChordX(s, x1, x2);
    SquareOfProduct(x1, z, d);
    SquareOfProduct(x2, z, d);
    DifferenceOver(x2, x1, z * z);
    DifferenceOver(x2 * (z * z), x1 * (z * z), d * d);
    CubeOfProduct(y1, z, d);
    SlopeOfProduct(y1, s, x2 - x1, z);
    ChordXOver(s, x1, x2, w);
    ChordYOver(s, x1, y1, x3, w);
    hide ChordX, ChordY;
  }

  // ----- points over a denominator -----

  /** The coordinates stand for the affine point a over the denominator z. */
  ghost predicate Represents(p: int, q: Coords, z: int, a: Point)
    requires p > 0
  {
    a.Affine? && q == Coords(Res(p, a.x * (z * z)), Res(p, a.y * (z * (z * z))))
  }

  function First(q: Pair): Coords { Coords(q.x1, q.y1) }
  function Second(q: Pair): Coords { Coords(q.x2, q.y2) }

  /** Both points of the pair over one denominator. */
  ghost predicate RepresentsPair(p: int, q: Pair, z: int, a: Point, b: Point)
    requires p > 0
  {
    Represents(p, First(q), z, a) && Represents(p, Second(q), z, b)
  }

  /** The denominator after an addition. */
  function NextZ(z: int, x1: int, x2: int): int {
    z * (x2 * (z * z) - x1 * (z * z))
  }

  lemma NextZUnit(p: int, z: int, x1: int, x2: int)
    requires p > 1 && Unit(z, p) && Unit(x2 - x1, p)
    ensures Unit(NextZ(z, x1, x2), p)
  {
    UnitMul(p, z, z);
    UnitMul(p, x2 - x1, z * z);
    DifferenceOver(x2, x1, z * z);
    UnitMul(p, z, (x2 - x1) * (z * z));
  }

  /** The construction with slope s represents the affine third point. */
  lemma ThirdRepresents(p: int, s: int, x1: int, y1: int, x2: int, w: int)
    requires p > 0
    ensures var x3 := ChordX(s, x1, x2);
      Represents(p, Coords(Res(p, x3 * (w * w)), Res(p, ChordY(s, x1, y1, x3) * (w * (w * w)))), w, Third(p, s, x1, y1, x2))
  {
    hide Res, ChordX, ChordY;
    var x3 := ChordX(s, x1, x2);
    CongRes(p, x3);
    CongMul(p, Res(p, x3), x3, w * w, w * w);
    ThirdYCong(p, s, x1, y1, x3);
    CongMul(p, Res(p, ChordY(s, x1, y1, Res(p, x3))), ChordY(s, x1, y1, x3), w * (w * w), w * (w * w));
  }

  /** Co-Z addition along a line of slope s through both points. */
  lemma AddAlong(p: int, q: Pair, z: int, a: Point, b: Point, s: int)
    requires p > 1 && RepresentsPair(p, q, z, a, b) && Cong(p, s * (b.x - a.x), b.y - a.y)
    ensures RepresentsPair(p, Add(p, q), NextZ(z, a.x, b.x), a, Third(p, s, a.x, a.y, b.x))
  {
    hide Res, ChordX, ChordY, Add, AddZ;
    CongAdd(p, s * (b.x - a.x), b.y - a.y, -a.y, -a.y);
    CongMul(p, a.y + s * (b.x - a.x), b.y, z * (z * z), z * (z * z));
    assert q == ResPair(p, OnChord(a.x, a.y, b.x, s, z));
    AddLifts(p, OnChord(a.x, a.y, b.x, s, z));
    AddZOnChord(a.x, a.y, b.x, s, z);
    ThirdRepresents(p, s, a.x, a.y, b.x, NextZ(z, a.x, b.x));
  }

  ghost predicate Reduced(p: int, a: Point) {
    a.Affine? ==> 0 <= a.x < p && 0 <= a.y < p
  }

  /** XYcZ_add: (P, Q) becomes (P, P + Q), over the next denominator. */
  lemma AddCorrect(p: int, q: Pair, z: int, a: Point, b: Point)
    requires PrimeField(p) && RepresentsPair(p, q, z, a, b) && Reduced(p, a) && Reduced(p, b) && a.x != b.x
    ensures RepresentsPair(p, Add(p, q), NextZ(z, a.x, b.x), a, Sum(p, a, b))
    ensures Unit(z, p) ==> Unit(NextZ(z, a.x, b.x), p)
  {
    hide Add, ChordSlope;
    DistinctUnit(p, b.x, a.x);
    ChordSlopeIsSlope(p, a.x, a.y, b.x, b.y);
    AddAlong(p, q, z, a, b, ChordSlope(p, a.x, a.y, b.x, b.y));
    if Unit(z, p) { NextZUnit(p, z, a.x, b.x); }
  }

  // ----- conjugate addition -----

  function NegSecond(q: Pair): Pair { q.(y2 := -q.y2) }

  /** Conjugate addition is two additions that share their products. */
  lemma AddCZIsTwoAdds(q: Pair)
    ensures Second(AddCZ(q)) == Second(AddZ(q)) && First(AddCZ(q)) == Second(AddZ(NegSecond(q)))
  {
    var d := q.x2 - q.x1;
    var b, c, s := q.x1 * (d * d), q.x2 * (d * d), q.y2 + q.y1;
    var x4 := s * s - (b + c);
    assert (-s) * (-s) == s * s;
    assert (-s) * (b - x4) == (x4 - b) * s;
    assert -q.y2 - q.y1 == -s;
  }

  lemma NegRepresents(p: int, q: Coords, z: int, a: Point)
    requires p > 0 && Represents(p, q, z, a)
    ensures Represents(p, Coords(q.x, Res(p, -q.y)), z, Neg(p, a))
  {
    hide Res;
    var k := z * (z * z);
    CongRes(p, a.y * k);
    CongAdd(p, 0, 0, Res(p, a.y * k), a.y * k);
    CongRes(p, -a.y);
    CongMul(p, Res(p, -a.y), -a.y, k, k);
    assert (-a.y) * k == -(a.y * k);
  }

  /** XYcZ_addC: (P, Q) becomes (P - Q, P + Q), over the next denominator. */
  lemma AddCCorrect(p: int, q: Pair, z: int, a: Point, b: Point)
    requires PrimeField(p) && RepresentsPair(p, q, z, a, b) && Reduced(p, a) && Reduced(p, b) && a.x != b.x
    ensures RepresentsPair(p, AddC(p, q), NextZ(z, a.x, b.x), Sum(p, a, Neg(p, b)), Sum(p, a, b))
    ensures Unit(z, p) ==> Unit(NextZ(z, a.x, b.x), p)
  {
    hide Add, AddC, AddZ, AddCZ, Sum, Res;
    AddCorrect(p, q, z, a, b);
    NegRepresents(p, Second(q), z, b);
    var n := Pair(q.x1, q.y1, q.x2, Res(p, -q.y2));
    AddCorrect(p, n, z, a, Neg(p, b));
    PairIsReduced(p, q, z, a, b);
    AddCLifts(p, q);
    AddCZIsTwoAdds(q);
    AddLifts(p, q);
    AddLifts(p, NegSecond(q));
  }

  lemma PairIsReduced(p: int, q: Pair, z: int, a: Point, b: Point)
    requires p > 0 && RepresentsPair(p, q, z, a, b)
    ensures ResPair(p, q) == q
  {
    ResSmall(p, q.x1);
    ResSmall(p, q.y1);
    ResSmall(p, q.x2);
    ResSmall(p, q.y2);
  }

  // ----- the curve equation over a denominator -----

  /** y^2 = x^3 - 3 x z^4 + b z^6 */
  ghost predicate JacobianOnCurve(c: Curve, q: Coords, z: int)
    requires c.p > 0
  {
    var k := z * z;
    Cong(c.p, q.x * (q.x * q.x) - 3 * (q.x * (k * k)) + c.b * (k * (k * k)), q.y * q.y)
  }

  lemma EquationOver(b: int, x: int, y: int, k: int, l: int)
    requires l * l == k * (k * k)
    ensures (x * k) * ((x * k) * (x * k)) - 3 * ((x * k) * (k * k)) + b * (k * (k * k)) - (y * l) * (y * l)
         == Equation(b, x, y) * (k * (k * k))
  {
    var m := k * (k * k);
    Shuffle(x, k, x, k);
    Shuffle(x, k, x * x, k * k);
    Shuffle(y, l, y, l);
    MulAssoc(x, k, k * k);
    DifferenceOver(x * (x * x), 3 * x, m);
    DifferenceOver(x * (x * x) - 3 * x + b, y * y, m);
    ProductOffset(x * (x * x) - 3 * x, b, m);
    MulAssoc(3, x, m);
  }

  /** The coordinates of a point of the curve satisfy the equation over their denominator. */
  lemma RepresentsOnCurve(c: Curve, q: Coords, z: int, a: Point)
    requires c.p > 0 && Represents(c.p, q, z, a) && OnCurve(c, a)
    ensures JacobianOnCurve(c, q, z)
  {
    hide Res, Equation;
    var p, k, l := c.p, z * z, z * (z * z);
    var x, y, m := a.x * k, a.y * l, k * (k * k);
    CongRes(p, x);
    CongRes(p, y);
    JacobianExpansion(c, q, z, x, y);
    assert l * l == m by { Shuffle(z, k, z, k); }
    EquationOver(c.b, a.x, a.y, k, l);
    CongMul(p, Equation(c.b, a.x, a.y), 0, m, m);
  }

  /** The equation depends on the denominator only modulo p. */
  lemma JacobianCong(c: Curve, q: Coords, z: int, w: int)
    requires c.p > 0 && JacobianOnCurve(c, q, z) && Cong(c.p, z, w)
    ensures JacobianOnCurve(c, q, w)
  {
    hide Res;
    var p, k, l := c.p, z * z, w * w;
    CongMul(p, z, w, z, w);
    CongMul(p, k, l, k, l);
    CongMul(p, k, l, k * k, l * l);
    CongMul(p, q.x, q.x, k * k, l * l);
    CongMul(p, 3, 3, q.x * (k * k), q.x * (l * l));
    CongMul(p, c.b, c.b, k * (k * k), l * (l * l));
    var x := q.x * (q.x * q.x);
    CongAdd(p, x, x, 3 * (q.x * (k * k)), 3 * (q.x * (l * l)));
    CongAdd(p, x - 3 * (q.x * (k * k)), x - 3 * (q.x * (l * l)), c.b * (k * (k * k)), c.b * (l * (l * l)));
  }

  /** Coordinates that satisfy the equation over an invertible denominator stand for a point of the curve. */
  lemma PointOfJacobian(c: Curve, q: Coords, z: int) returns (a: Point)
    requires c.p > 1 && Unit(z, c.p) && 0 <= q.x < c.p && 0 <= q.y < c.p && JacobianOnCurve(c, q, z)
    ensures a.Affine? && Represents(c.p, q, z, a) && OnCurve(c, a)
  {
    hide Res, Equation;
    var p, i, k, l := c.p, InverseOf(c.p, z), z * z, z * (z * z);
    InverseOfUnit(p, z);
    assert i * z == z * i;
    var x, y := q.x * (i * i), q.y * (i * (i * i));
    a := Affine(Res(p, x), Res(p, y));
    ProductOfInverse(p, i, z, q.x);
    ProductOfInverse(p, i, z, q.y);
    CongRes(p, x);
    CongRes(p, y);
    CongMul(p, a.x, x, k, k);
    CongMul(p, a.y, y, l, l);
    ResSmall(p, q.x);
    ResSmall(p, q.y);
    EquationBack(c, q, z, a);
  }

  lemma EquationBack(c: Curve, q: Coords, z: int, a: Point)
    requires c.p > 1 && Unit(z, c.p) && Represents(c.p, q, z, a) && Reduced(c.p, a) && JacobianOnCurve(c, q, z)
    ensures OnCurve(c, a)
  {
    hide Res, Equation;
    var p, k, l := c.p, z * z, z * (z * z);
    var x, y, m := a.x * k, a.y * l, k * (k * k);
    JacobianExpansion(c, q, z, x, y) by { CongRes(p, x); CongRes(p, y); }
    assert l * l == m by { Shuffle(z, k, z, k); }
    EquationOver(c.b, a.x, a.y, k, l);
    UnitMul(p, z, z);
    UnitMul(p, k, k);
    UnitMul(p, k, k * k);
    assert Cong(p, m * Equation(c.b, a.x, a.y), 0);
    Cancel(p, m, Equation(c.b, a.x, a.y));
  }

  /** The equation for coordinates is the equation for whatever they are congruent to. */
  lemma JacobianExpansion(c: Curve, q: Coords, z: int, x: int, y: int)
    requires c.p > 0 && Cong(c.p, q.x, x) && Cong(c.p, q.y, y)
    ensures var k := z * z;
      JacobianOnCurve(c, q, z) <==> Cong(c.p, x * (x * x) - 3 * (x * (k * k)) + c.b * (k * (k * k)) - y * y, 0)
  {
    hide Res;
    var p, k := c.p, z * z;
    var m := k * (k * k);
    CongMul(p, q.x, x, q.x, x);
    CongMul(p, q.x, x, q.x * q.x, x * x);
    CongMul(p, q.x, x, k * k, k * k);
    CongMul(p, 3, 3, q.x * (k * k), x * (k * k));
    CongMul(p, q.y, y, q.y, y);
    CongAdd(p, q.x * (q.x * q.x), x * (x * x), 3 * (q.x * (k * k)), 3 * (x * (k * k)));
    CongAdd(p, q.x * (q.x * q.x) - 3 * (q.x * (k * k)), x * (x * x) - 3 * (x * (k * k)), c.b * m, c.b * m);
    CongZero(p, x * (x * x) - 3 * (x * (k * k)) + c.b * m, y * y);
  }

  /**
   Both co-Z additions keep the curve equation: the results satisfy it over the new denominator,
   the old one times the difference of the abscissas, also when that difference is zero.
   */
  lemma AdditionsKeepEquation(c: Curve, q: Pair, z: int)
    requires OverOddPrime(c) && Unit(z, c.p) && ResPair(c.p, q) == q
    requires JacobianOnCurve(c, First(q), z) && JacobianOnCurve(c, Second(q), z)
    ensures var w := z * (q.x2 - q.x1);
      && JacobianOnCurve(c, First(Add(c.p, q)), w) && JacobianOnCurve(c, Second(Add(c.p, q)), w)
      && JacobianOnCurve(c, First(AddC(c.p, q)), w) && JacobianOnCurve(c, Second(AddC(c.p, q)), w)
  {
    hide Add, AddC, Sum, Neg, Equation, JacobianOnCurve, Represents, Res, OnCurve, Reduced, PrimeField;
    var a := PointOfJacobian(c, First(q), z);
    var b := PointOfJacobian(c, Second(q), z);
    if q.x1 == q.x2 {
      EqualAbscissas(c, q);
      assert z * (q.x2 - q.x1) == 0;
    } else {
      DifferentAbscissas(c, q, z, a, b);
    }
  }

  lemma DifferentAbscissas(c: Curve, q: Pair, z: int, a: Point, b: Point)
    requires OverOddPrime(c) && OnCurve(c, a) && OnCurve(c, b)
    requires RepresentsPair(c.p, q, z, a, b) && q.x1 != q.x2
    ensures var w := z * (q.x2 - q.x1);
      && JacobianOnCurve(c, First(Add(c.p, q)), w) && JacobianOnCurve(c, Second(Add(c.p, q)), w)
      && JacobianOnCurve(c, First(AddC(c.p, q)), w) && JacobianOnCurve(c, Second(AddC(c.p, q)), w)
  {
    NegOnCurve(c, b);
    NextZCong(c.p, q, z, a, b);
    hide Add, AddC, Sum, Neg, Equation, JacobianOnCurve, Represents, Res, PrimeField;
    var w, v := NextZ(z, a.x, b.x), z * (q.x2 - q.x1);
    AddCorrect(c.p, q, z, a, b);
    AddCCorrect(c.p, q, z, a, b);
    SumOnCurve(c, a, b);
    SumOnCurve(c, a, Neg(c.p, b));
    hide OnCurve;
    RepresentsOnCurve(c, First(Add(c.p, q)), w, a);
    RepresentsOnCurve(c, Second(Add(c.p, q)), w, Sum(c.p, a, b));
    RepresentsOnCurve(c, First(AddC(c.p, q)), w, Sum(c.p, a, Neg(c.p, b)));
    RepresentsOnCurve(c, Second(AddC(c.p, q)), w, Sum(c.p, a, b));
    JacobianCong(c, First(Add(c.p, q)), w, v);
    JacobianCong(c, Second(Add(c.p, q)), w, v);
    JacobianCong(c, First(AddC(c.p, q)), w, v);
    JacobianCong(c, Second(AddC(c.p, q)), w, v);
  }

  /** The new denominator, from the coordinates instead of the points. */
  lemma NextZCong(p: int, q: Pair, z: int, a: Point, b: Point)
    requires p > 0 && RepresentsPair(p, q, z, a, b)
    ensures Cong(p, NextZ(z, a.x, b.x), z * (q.x2 - q.x1))
    ensures q.x1 != q.x2 ==> a.x != b.x
  {
    hide Res;
    var k := z * z;
    CongRes(p, a.x * k);
    CongRes(p, b.x * k);
    CongAdd(p, b.x * k, q.x2, a.x * k, q.x1);
    CongMul(p, z, z, b.x * k - a.x * k, q.x2 - q.x1);
  }

  /** Points with equal abscissas become the pair (0, 0) and a cusp over the denominator zero. */
  lemma EqualAbscissas(c: Curve, q: Pair)
    requires c.p > 0 && ResPair(c.p, q) == q && q.x1 == q.x2
    ensures JacobianOnCurve(c, First(Add(c.p, q)), 0) && JacobianOnCurve(c, Second(Add(c.p, q)), 0)
    ensures JacobianOnCurve(c, First(AddC(c.p, q)), 0) && JacobianOnCurve(c, Second(AddC(c.p, q)), 0)
  {
    hide Add, AddC, JacobianOnCurve, Res, AddZ, AddCZ;
    AddLifts(c.p, q);
    AddCLifts(c.p, q);
    var e, s := q.y2 - q.y1, q.y2 + q.y1;
    EqualAbscissasZ(q.x1, q.y1, q.y2);
    CuspOnCurve(c, 0, First(Add(c.p, q)));
    CuspOnCurve(c, -e, Second(Add(c.p, q)));
    CuspOnCurve(c, s, First(AddC(c.p, q)));
    CuspOnCurve(c, -e, Second(AddC(c.p, q)));
  }

  lemma EqualAbscissasZ(x: int, y1: int, y2: int)
    ensures var q, e, s := Pair(x, y1, x, y2), y2 - y1, y2 + y1;
      && First(AddZ(q)) == Cusp(0) && Second(AddZ(q)) == Cusp(-e)
      && First(AddCZ(q)) == Cusp(s) && Second(AddCZ(q)) == Cusp(-e)
  {
    var e, s := y2 - y1, y2 + y1;
    assert x * (0 * 0) == 0 && y1 * 0 == 0;
    assert (-e) * (-e) == e * e;
    assert e * (0 - e * e) == (-e) * (e * e);
    assert (s * s - 0) * s == s * (s * s);
  }

  /** A point with y^2 = x^3. */
  function Cusp(t: int): Coords { Coords(t * t, t * (t * t)) }

  lemma CuspOnCurve(c: Curve, t: int, q: Coords)
    requires c.p > 0 && q == Coords(Res(c.p, Cusp(t).x), Res(c.p, Cusp(t).y))
    ensures JacobianOnCurve(c, q, 0)
  {
    hide Res;
    var x, y := t * t, t * (t * t);
    CongRes(c.p, x);
    CongRes(c.p, y);
    JacobianExpansion(c, q, 0, x, y);
    assert x * (x * x) == y * y by { Shuffle(t, x, t, x); }
    assert x * (0 * 0) == 0 && c.b * (0 * (0 * 0)) == 0;
  }

  // ----- doubling and changes of denominator -----

  lemma HalveTwice(p: int, a: int)
    requires 0 <= a < p && p % 2 == 1
    ensures 0 <= Halve(p, a) < p && (2 * Halve(p, a) == a || 2 * Halve(p, a) == a + p)
  {
  }

  /** Halving is exact: it inverts doubling on residues, and stays below p. */
  lemma HalveLift(p: int, t: int, u: int)
    requires p > 0 && p % 2 == 1 && Cong(p, 2 * u, t)
    ensures Halve(p, Res(p, t)) == Res(p, u)
  {
    hide Res, Halve;
    var a := Res(p, t);
    var h := Halve(p, a);
    HalveTwice(p, a);
    if 2 * h == a + p {
      ResAddMultiple(p, a, 1);
      assert a + p * 1 == a + p;
    }
    CongRes(p, t);
    ResSmall(p, h);
    CongZero(p, 2 * h, 2 * u);
    CongZero(p, h, u);
    HalfCong(p, h - u);
  }

  lemma HalfCong(p: int, t: int)
    requires p > 0 && p % 2 == 1 && Cong(p, 2 * t, 0)
    ensures Cong(p, t, 0)
  {
    ResSmall(p, 0);
    HalveDivides(t, p);
  }

  lemma DoubleProducts(x: int, y: int, z: int)
    ensures var w := (y * (z * (z * z))) * z;
      var yz := y * (z * (z * z));
      && (x * (z * z)) * (yz * yz) == x * (w * w)
      && (yz * yz) * (yz * yz) == y * (w * (w * w))
  {
    var c := z * (z * z);
    var yz := y * c;
    var w := yz * z;
    SquareOfProduct(x, yz, z);
    assert (x * (yz * yz)) * (z * z) == (x * (z * z)) * (yz * yz);
    assert w * w == (yz * yz) * (z * z) by { Shuffle(yz, z, yz, z); }
    assert w * (w * w) == (yz * (yz * yz)) * (z * (z * z)) by {
      MulAssoc(yz, z, w * w);
      Shuffle(yz, z, yz * yz, z * z);
    }
    assert y * ((yz * (yz * yz)) * c) == (y * c) * (yz * (yz * yz));
  }

  lemma TangentProduct(x: int, z: int)
    ensures var k := z * z;
      var m := (x * k + k) * (x * k + k - (k + k));
      m + (m + m) == (3 * (x * x) - 3) * (k * k)
  {
    var k := z * z;
    Shuffle(x, k, x, k);
    assert (x * k + k) * (x * k - k) == (x * k) * (x * k) - k * k;
  }

  /** The tangent numerator over the denominator w = y z^4. */
  lemma TangentOver(p: int, x: int, y: int, z: int, s: int)
    requires p > 0 && Cong(p, s * (2 * y), 3 * (x * x) - 3)
    ensures Cong(p, 2 * (s * ((y * (z * (z * z))) * z)), (3 * (x * x) - 3) * ((z * z) * (z * z)))
  {
    hide Res;
    var k := z * z;
    CongMul(p, s * (2 * y), 3 * (x * x) - 3, k * k, k * k);
    assert (y * (z * k)) * z == y * (k * k);
    MulAssoc(s, y, k * k);
    assert (s * (2 * y)) * (k * k) == 2 * ((s * y) * (k * k));
  }

  /** Doubling a point over z gives its double over y z^4. */
  lemma DoubleCorrect(p: int, q: Jacobian, z: int, a: Point)
    requires PrimeField(p) && p % 2 == 1 && Unit(z, p) && q.z == Res(p, z)
    requires Represents(p, Coords(q.x, q.y), z, a) && !Cong(p, a.y + a.y, 0)
    ensures var w := (a.y * (z * (z * z))) * z;
      var r := Double(p, q);
      && r.z == Res(p, w) && Unit(w, p) && Represents(p, Coords(r.x, r.y), w, Sum(p, a, a))
  {
    hide Res, FAdd, FSub, FMul, Halve, ChordX, ChordY;
    var x, y := a.x, a.y;
    var k, yz := z * z, y * (z * (z * z));
    var w, s := yz * z, TangentSlope(p, x, y);
    UnitNonZero(p, z);
    ResSmall(p, 0);
    DoubleOrdinate(p, y);
    TangentSlopeIsSlope(p, x, y);
    UnitOfDouble(p, y, z);
    hide TangentSlope;
    var m := (x * k + k) * (x * k + k - (k + k));
    MulLift(p, yz, yz);
    MulLift(p, x * k, yz * yz);
    MulLift(p, yz * yz, yz * yz);
    MulLift(p, yz, z);
    MulLift(p, z, z);
    AddLift(p, x * k, k);
    AddLift(p, k, k);
    SubLift(p, x * k + k, k + k);
    MulLift(p, x * k + k, x * k + k - (k + k));
    AddLift(p, m, m);
    AddLift(p, m, m + m);
    TangentProduct(x, z);
    TangentOver(p, x, y, z, s);
    HalveLift(p, m + (m + m), s * w);
    DoubleProducts(x, y, z);
    DoubleTail(p, x, y, s, w);
  }

  /**
   Doubling keeps the curve equation over its own denominator, for every point it is applied to:
   a point of order two becomes a cusp over zero, and a zero denominator is left alone.
   */
  lemma DoubleKeepsEquation(c: Curve, q: Jacobian)
    requires OverOddPrime(c) && 0 <= q.x < c.p && 0 <= q.y < c.p && 0 <= q.z < c.p
    requires JacobianOnCurve(c, Coords(q.x, q.y), q.z)
    ensures var r := Double(c.p, q); JacobianOnCurve(c, Coords(r.x, r.y), r.z)
  {
    if q.z != 0 {
      if q.y == 0 {
        DoubleOfOrderTwo(c, q);
      } else {
        DoubleOrdinary(c, q);
      }
    }
  }

  lemma DoubleOrdinary(c: Curve, q: Jacobian)
    requires OverOddPrime(c) && 0 <= q.x < c.p && 0 < q.y < c.p && 0 < q.z < c.p
    requires JacobianOnCurve(c, Coords(q.x, q.y), q.z)
    ensures var r := Double(c.p, q); JacobianOnCurve(c, Coords(r.x, r.y), r.z)
  {
    assert Unit(q.z, c.p);
    hide Double, Sum, Equation, JacobianOnCurve, Res, PrimeField;
    var p, z := c.p, q.z;
    var a := PointOfJacobian(c, Coords(q.x, q.y), z);
    OrdinateNonZero(p, Coords(q.x, q.y), z, a);
    ResSmall(p, z);
    DoubleCorrect(p, q, z, a);
    SumOnCurve(c, a, a);
    var w, r := (a.y * (z * (z * z))) * z, Double(p, q);
    RepresentsOnCurve(c, Coords(r.x, r.y), w, Sum(p, a, a));
    CongRes(p, w);
    JacobianCong(c, Coords(r.x, r.y), w, r.z);
  }

  lemma OrdinateNonZero(p: int, q: Coords, z: int, a: Point)
    requires p > 0 && p % 2 == 1 && Represents(p, q, z, a) && q.y != 0
    ensures !Cong(p, a.y + a.y, 0)
  {
    hide Res;
    if Cong(p, a.y + a.y, 0) {
      HalfCong(p, a.y);
      CongMul(p, a.y, 0, z * (z * z), z * (z * z));
      ResSmall(p, 0);
    }
  }

  lemma DoubleOfOrderTwo(c: Curve, q: Jacobian)
    requires OverOddPrime(c) && 0 <= q.x < c.p && q.y == 0 && 0 < q.z < c.p
    ensures var r := Double(c.p, q); JacobianOnCurve(c, Coords(r.x, r.y), r.z)
  {
    hide Double, JacobianOnCurve, Res, PrimeField;
    var b := OrderTwoValue(c.p, q);
    CuspOnCurve(c, -b, Coords(Double(c.p, q).x, Double(c.p, q).y));
  }

  lemma OrderTwoValue(p: int, q: Jacobian) returns (b: int)
    requires p > 0 && p % 2 == 1 && q.y == 0 && q.z != 0
    ensures Double(p, q) == Jacobian(Res(p, Cusp(-b).x), Res(p, Cusp(-b).y), 0)
  {
    hide FMul, FAdd, FSub, Halve, Res, Cusp;
    var z2 := FMul(p, q.z, q.z);
    var s := FAdd(p, q.x, z2);
    var m := FMul(p, s, FSub(p, s, FAdd(p, z2, z2)));
    b := Halve(p, FAdd(p, m, FAdd(p, m, m)));
    HalveTwice(p, FAdd(p, m, FAdd(p, m, m)));
    ZeroProducts(p, q.x);
    ZeroProducts(p, q.z);
    OrderTwoTail(p, b);
  }

  lemma ZeroProducts(p: int, x: int)
    requires p > 0
    ensures FMul(p, 0, 0) == 0 && FMul(p, x, 0) == 0 && FMul(p, 0, x) == 0
  {
    ResSmall(p, 0);
  }

  lemma OrderTwoTail(p: int, b: int)
    requires 0 <= b < p
    ensures var x3 := FSub(p, FSub(p, FMul(p, b, b), 0), 0);
      && x3 == Res(p, Cusp(-b).x)
      && FSub(p, FMul(p, b, FSub(p, 0, x3)), 0) == Res(p, Cusp(-b).y)
  {
    hide FMul, FSub, Res;
    ResSmall(p, 0);
    ResSmall(p, b);
    MulLift(p, b, b);
    SubLift(p, b * b, 0);
    SubLift(p, 0, b * b);
    MulLift(p, b, -(b * b));
    SubLift(p, b * -(b * b), 0);
    assert (-b) * (-b) == b * b && (-b) * (b * b) == b * -(b * b);
  }

  /** The second half of doubling, from the slope b = s w on. */
  lemma DoubleTail(p: int, x: int, y: int, s: int, w: int)
    requires p > 0
    ensures var a, b, y4 := Res(p, x * (w * w)), Res(p, s * w), Res(p, y * (w * (w * w)));
      var x3 := FSub(p, FSub(p, FMul(p, b, b), a), a);
      Represents(p, Coords(x3, FSub(p, FMul(p, b, FSub(p, a, x3)), y4)), w, Third(p, s, x, y, x))
  {
    hide Res, FAdd, FSub, FMul, ChordX, ChordY;
    var a, x3 := x * (w * w), ChordX(s, x, x);
    MulLift(p, s * w, s * w);
    SubLift(p, (s * w) * (s * w), a);
    SubLift(p, (s * w) * (s * w) - a, a);
    ChordXOver(s, x, x, w);
    SubLift(p, a, x3 * (w * w));
    MulLift(p, s * w, a - x3 * (w * w));
    SubLift(p, (s * w) * (a - x3 * (w * w)), y * (w * (w * w)));
    ChordYOver(s, x, y, x3, w);
    ThirdRepresents(p, s, x, y, x, w);
  }

  lemma UnitOfDouble(p: int, y: int, z: int)
    requires p > 1 && Unit(2 * y, p) && Unit(z, p)
    ensures Unit((y * (z * (z * z))) * z, p)
  {
    var i := InverseOf(p, 2 * y);
    InverseOfUnit(p, 2 * y);
    assert y * (2 * i) == (2 * y) * i;
    UnitOfInverse(p, y, 2 * i);
    UnitMul(p, z, z);
    UnitMul(p, z, z * z);
    UnitMul(p, y, z * (z * z));
    UnitMul(p, y * (z * (z * z)), z);
  }

  /** apply_z moves an affine point to the denominator z. */
  lemma ApplyZRepresents(p: int, x: int, y: int, z: int)
    requires p > 0
    ensures Represents(p, ApplyZ(p, Coords(x, y), z), z, Affine(x, y))
    ensures ApplyZ(p, Coords(x, y), Res(p, z)) == ApplyZ(p, Coords(x, y), z)
  {
    hide Res, FMul;
    MulLift(p, z, z);
    MulLift(p, z * z, z);
    MulLift(p, x, z * z);
    MulLift(p, y, z * (z * z));
    MulCommutes(p, Res(p, z * z), x);
    MulCommutes(p, Res(p, z * (z * z)), y);
    MulLift(p, z * z, x);
    MulLift(p, z * (z * z), y);
  }

  lemma MulCommutes(p: int, a: int, b: int)
    requires p > 0
    ensures FMul(p, a, b) == FMul(p, b, a)
  {
  }

  /** XYcZ_initial_double: P becomes (2P, P) over one denominator. */
  lemma InitialDoubleCorrect(p: int, a: Point, z: int)
    requires PrimeField(p) && p % 2 == 1 && 0 < z < p && a.Affine? && !Cong(p, a.y + a.y, 0)
    ensures var w := (a.y * (z * (z * z))) * z;
      RepresentsPair(p, InitialDouble(p, Coords(a.x, a.y), z), w, Sum(p, a, a), a) && Unit(w, p)
  {
    hide Res, Represents, Double, ApplyZ, Sum;
    ResSmall(p, z);
    assert Unit(z, p);
    ApplyZRepresents(p, a.x, a.y, z);
    var s := ApplyZ(p, Coords(a.x, a.y), z);
    DoubleCorrect(p, Jacobian(s.x, s.y, z), z, a);
    ApplyZRepresents(p, a.x, a.y, (a.y * (z * (z * z))) * z);
  }

  lemma ProductOfInverse(p: int, w: int, z: int, x: int)
    requires p > 0 && Cong(p, w * z, 1)
    ensures Cong(p, (x * (w * w)) * (z * z), x) && Cong(p, (x * (w * (w * w))) * (z * (z * z)), x)
  {
    hide Res;
    var u := w * z;
    CongMul(p, u, 1, u, 1);
    CongMul(p, u, 1, u * u, 1);
    CongMul(p, x, x, u * u, 1);
    CongMul(p, x, x, u * (u * u), 1);
    Shuffle(w, z, w, z);
    MulAssoc(x, w * w, z * z);
    Shuffle(w, z, w * w, z * z);
    MulAssoc(x, w * (w * w), z * (z * z));
  }

  /** apply_z with the inverse of the denominator recovers the affine point. */
  lemma ApplyInverse(p: int, q: Coords, w: int, z: int, a: Point)
    requires p > 0 && Represents(p, q, w, a) && Reduced(p, a) && Cong(p, w * z, 1)
    ensures ApplyZ(p, q, z) == Coords(a.x, a.y)
  {
    hide Res, FMul;
    MulLift(p, z, z);
    MulLift(p, z * z, z);
    MulLift(p, a.x * (w * w), z * z);
    MulLift(p, a.y * (w * (w * w)), z * (z * z));
    ProductOfInverse(p, w, z, a.x);
    ProductOfInverse(p, w, z, a.y);
    ResSmall(p, a.x);
    ResSmall(p, a.y);
  }
}
