/**
 The Montgomery ladder on co-Z coordinates. Slots 0 and 1 hold consecutive multiples of the
 input point over a shared denominator that is never computed; the denominator is recovered
 at the end from the input point itself.
 */
module Ladder {
  import opened Arith
  import opened Words
  import opened Inverse
  import opened Field
  import opened CurveGroup
  import opened CoZ

  // ----- the computation -----

  function Swap(q: Pair): Pair { Pair(q.x2, q.y2, q.x1, q.y1) }

  /** Slot `lead` first, the other slot second; applied again it restores the slots. */
  function Arrange(q: Pair, lead: int): Pair { if lead == 1 then Swap(q) else q }

  /** XYcZ_addC(R[1 - nb], R[nb]) for nb = !bit. */
  function Conjugate(p: int, q: Pair, bit: int): Pair
    requires p > 0
  {
    Arrange(AddC(p, Arrange(q, bit)), bit)
  }

  /** XYcZ_add(R[nb], R[1 - nb]) for nb = !bit. */
  function Finish(p: int, q: Pair, bit: int): Pair
    requires p > 0
  {
    Arrange(Add(p, Arrange(q, 1 - bit)), 1 - bit)
  }

  function Step(p: int, q: Pair, bit: int): Pair
    requires p > 0
  {
    Finish(p, Conjugate(p, q, bit), bit)
  }

  /** The steps for bits i down to stop + 1. */
  function Run(p: int, q: Pair, scalar: nat, i: nat, stop: nat): Pair
    requires p > 0
    decreases i
  {
    if i <= stop then q else Run(p, Step(p, q, Bit(scalar, i)), scalar, i - 1, stop)
  }

  /** The slots before the last bit is processed. */
  function BeforeLast(p: int, pt: Coords, scalar: nat, z: int, numBits: nat): Pair
    requires p > 0 && numBits >= 2
  {
    Run(p, Swap(InitialDouble(p, pt, z)), scalar, numBits - 2, 0)
  }

  /** The product to be inverted: xP * Yb * (X1 - X0). */
  function ToInvert(p: int, pt: Coords, q: Pair, bit: int): int
    requires p > 0
  {
    FMul(p, FMul(p, FSub(p, q.x2, q.x1), First(Arrange(q, bit)).y), pt.x)
  }

  /** The last bit, with the inverse of ToInvert given. */
  function LastBit(p: int, pt: Coords, q: Pair, bit: int, inv: int): Coords
    requires p > 0
  {
    var z := FMul(p, FMul(p, inv, pt.y), First(Arrange(q, bit)).x);
    ApplyZ(p, First(Finish(p, q, bit)), z)
  }

  /** What EccPoint_mult returns for a point, a scalar and an initial denominator. */
  ghost predicate IsPointMult(p: int, pt: Coords, scalar: nat, z: int, numBits: nat, out: Coords)
    requires p > 1 && numBits >= 2
  {
    var bit := Bit(scalar, 0);
    var q := Conjugate(p, BeforeLast(p, pt, scalar, z, numBits), bit);
    exists inv :: Inverts(inv, ToInvert(p, pt, q, bit), p) && out == LastBit(p, pt, q, bit, inv)
  }

  // ----- one step on multiples -----

  /** No degenerate addition occurs when the prefix goes from k to 2k or 2k + 1. */
  ghost predicate StepSafe(n: nat, k: nat)
    requires n > 0
  {
    k % n != 0 && (k + 1) % n != 0 && (2 * k + 1) % n != 0
  }

  /** The hypotheses on the point: on the curve, of odd order n. */
  ghost predicate GoodPoint(c: Curve, a: Point, n: nat) {
    IsGroup(c) && a.Affine? && OnCurve(c, a) && n % 2 == 1 && n > 1 && HasOrder(c.p, a, n)
  }

  /** The slots hold the multiples k and k + 1 over z. */
  ghost predicate Holds(c: Curve, a: Point, q: Pair, z: int, k: nat)
    requires c.p > 1
  {
    Unit(z, c.p) && RepresentsPair(c.p, q, z, Mul(c.p, k, a), Mul(c.p, k + 1, a))
  }

  /** The difference of the slots: the input point or its opposite. */
  function Difference(p: int, a: Point, bit: int): Point
    requires p > 0
  {
    if bit == 1 then a else Neg(p, a)
  }

  lemma ArrangeRepresents(p: int, q: Pair, lead: int, z: int, a: Point, b: Point)
    requires p > 0 && RepresentsPair(p, q, z, a, b)
    ensures if lead == 1 then RepresentsPair(p, Arrange(q, lead), z, b, a) else RepresentsPair(p, Arrange(q, lead), z, a, b)
    ensures Arrange(Arrange(q, lead), lead) == q
  {
  }

  lemma SafeFacts(n: nat, k: nat)
    requires n % 2 == 1 && n > 1 && StepSafe(n, k)
    ensures 1 % n != 0 && (2 * k) % n != 0 && (2 * k + 1) % n != 0 && (2 * k + 2) % n != 0
  {
    DivUnique(1, n, 0, 1);
    if (2 * k) % n == 0 { HalveDivides(k, n); }
    if (2 * k + 2) % n == 0 { HalveDivides(k + 1, n); }
  }

  lemma GoodFacts(c: Curve, a: Point, n: nat)
    requires GoodPoint(c, a, n)
    ensures PrimeField(c.p) && c.p % 2 == 1 && c.p > 3 && a.Affine? && Reduced(c.p, a)
  {
  }

  lemma CurveReduced(c: Curve, a: Point)
    requires c.p > 0 && OnCurve(c, a)
    ensures Reduced(c.p, a)
  {
  }

  lemma Neighbours(c: Curve, a: Point, n: nat, k: nat)
    requires GoodPoint(c, a, n) && StepSafe(n, k)
    ensures Mul(c.p, k, a).Affine? && Mul(c.p, k + 1, a).Affine? && Mul(c.p, k, a).x != Mul(c.p, k + 1, a).x
    ensures Reduced(c.p, Mul(c.p, k, a)) && Reduced(c.p, Mul(c.p, k + 1, a))
  {
    hide Mul, OnCurve, HasOrder, Associative, PrimeField;
    SafeFacts(n, k);
    DistinctAbscissas(c, k + 1, k, a, n);
    MulOnCurve(c, k, a);
    MulOnCurve(c, k + 1, a);
    CurveReduced(c, Mul(c.p, k, a));
    CurveReduced(c, Mul(c.p, k + 1, a));
  }

  /** The sums and differences of neighbouring multiples, in the order of the slots. */
  lemma NeighbourSums(c: Curve, a: Point, n: nat, k: nat, bit: int)
    requires GoodPoint(c, a, n) && 0 <= bit <= 1
    ensures var l, m := Mul(c.p, k + bit, a), Mul(c.p, k + 1 - bit, a);
      Sum(c.p, l, m) == Mul(c.p, 2 * k + 1, a) && Sum(c.p, l, Neg(c.p, m)) == Difference(c.p, a, bit)
  {
    hide Mul, Sum, OnCurve, HasOrder, Associative, PrimeField, Neg;
    MulSum(c, k + bit, k + 1 - bit, a);
    NeighbourDifference(c, k, a);
  }

  /** After the conjugate addition: the difference in slot `bit`, 2k + 1 in the other. */
  lemma ConjugateCorrect(c: Curve, a: Point, n: nat, q: Pair, z: int, k: nat, bit: int) returns (w: int)
    requires GoodPoint(c, a, n) && StepSafe(n, k) && 0 <= bit <= 1
    requires c.p > 1 && Holds(c, a, q, z, k)
    ensures Unit(w, c.p)
    ensures RepresentsPair(c.p, Arrange(Conjugate(c.p, q, bit), bit), w, Difference(c.p, a, bit), Mul(c.p, 2 * k + 1, a))
  {
    hide GoodPoint, Mul, Sum, AddC, Neg, Difference, RepresentsPair, Arrange, Reduced;
    var p := c.p;
    Neighbours(c, a, n, k);
    NeighbourSums(c, a, n, k, bit);
    GoodFacts(c, a, n);
    ArrangeRepresents(p, q, bit, z, Mul(p, k, a), Mul(p, k + 1, a));
    AddCCorrect(p, Arrange(q, bit), z, Mul(p, k + bit, a), Mul(p, k + 1 - bit, a));
    w := NextZ(z, Mul(p, k + bit, a).x, Mul(p, k + 1 - bit, a).x);
    ArrangeTwice(AddC(p, Arrange(q, bit)), bit);
  }

  lemma ArrangeTwice(q: Pair, lead: int)
    ensures Arrange(Arrange(q, lead), lead) == q
    ensures 0 <= lead <= 1 ==> Arrange(q, 1 - lead) == Swap(Arrange(q, lead))
  {
  }

  /** The other difference: 2k + 1 and the input point have different abscissas. */
  lemma SafeDifference(c: Curve, a: Point, n: nat, k: nat, bit: int)
    requires GoodPoint(c, a, n) && StepSafe(n, k) && 0 <= bit <= 1
    ensures Mul(c.p, 2 * k + 1, a).Affine? && Difference(c.p, a, bit).Affine?
    ensures Difference(c.p, a, bit).x == a.x != Mul(c.p, 2 * k + 1, a).x
    ensures Reduced(c.p, Difference(c.p, a, bit)) && Reduced(c.p, Mul(c.p, 2 * k + 1, a))
  {
    hide Mul, HasOrder, Associative, PrimeField, OnCurve, Res, StepSafe;
    OddDistinct(c, a, n, k);
    MulOnCurve(c, 2 * k + 1, a);
    NegOnCurve(c, a);
    CurveReduced(c, Mul(c.p, 2 * k + 1, a));
    CurveReduced(c, a);
    CurveReduced(c, Neg(c.p, a));
  }

  lemma OddDistinct(c: Curve, a: Point, n: nat, k: nat)
    requires GoodPoint(c, a, n) && StepSafe(n, k)
    ensures Mul(c.p, 2 * k + 1, a).Affine? && a.x != Mul(c.p, 2 * k + 1, a).x
  {
    hide Mul, HasOrder, Associative, PrimeField, OnCurve, StepSafe, Res;
    GoodFacts(c, a, n);
    MulOne(c.p, a);
    SafeFacts(n, k);
    DistinctAbscissas(c, 2 * k + 1, 1, a, n);
  }

  lemma DifferenceSum(c: Curve, a: Point, n: nat, k: nat, bit: int)
    requires GoodPoint(c, a, n) && 0 <= bit <= 1
    ensures Sum(c.p, Mul(c.p, 2 * k + 1, a), Difference(c.p, a, bit)) == Mul(c.p, 2 * k + 2 * bit, a)
  {
    hide Mul, Sum, HasOrder, Associative, OnCurve, Neg;
    var p := c.p;
    MulStep(p, 2 * k, a);
    MulStep(p, 2 * k + 1, a);
    MulOnCurve(c, 2 * k, a);
    AddThenSubtract(c, Mul(p, 2 * k, a), a);
  }

  lemma SwapRepresents(p: int, q: Pair, z: int, a: Point, b: Point)
    requires p > 0
    ensures RepresentsPair(p, q, z, a, b) <==> RepresentsPair(p, Swap(q), z, b, a)
  {
  }

  /** After the addition: the multiples 2k + bit and 2k + bit + 1. */
  lemma FinishCorrect(c: Curve, a: Point, n: nat, q: Pair, w: int, k: nat, bit: int)
    requires GoodPoint(c, a, n) && StepSafe(n, k) && 0 <= bit <= 1 && c.p > 1 && Unit(w, c.p)
    requires RepresentsPair(c.p, Arrange(q, bit), w, Difference(c.p, a, bit), Mul(c.p, 2 * k + 1, a))
    ensures Mul(c.p, 2 * k + 1, a).Affine? && a.Affine?
    ensures Holds(c, a, Finish(c.p, q, bit), NextZ(w, Mul(c.p, 2 * k + 1, a).x, a.x), 2 * k + bit)
  {
    hide GoodPoint, StepSafe, Mul, Sum, Add, Neg, Difference, RepresentsPair, Arrange, Reduced, Swap;
    var p := c.p;
    var d, s := Difference(p, a, bit), Mul(p, 2 * k + 1, a);
    GoodFacts(c, a, n);
    SafeDifference(c, a, n, k, bit);
    DifferenceSum(c, a, n, k, bit);
    ArrangeTwice(q, bit);
    SwapRepresents(p, Arrange(q, bit), w, d, s);
    AddCorrect(p, Arrange(q, 1 - bit), w, s, d);
    var r := Add(p, Arrange(q, 1 - bit));
    ArrangeRepresents(p, r, 1 - bit, NextZ(w, s.x, a.x), s, Mul(p, 2 * k + 2 * bit, a));
  }

  lemma StepCorrect(c: Curve, a: Point, n: nat, q: Pair, z: int, k: nat, bit: int) returns (w: int)
    requires GoodPoint(c, a, n) && StepSafe(n, k) && 0 <= bit <= 1
    requires c.p > 1 && Holds(c, a, q, z, k)
    ensures Holds(c, a, Step(c.p, q, bit), w, 2 * k + bit)
  {
    hide GoodPoint, Holds, RepresentsPair, Conjugate, Finish, Difference, Mul;
    var v := ConjugateCorrect(c, a, n, q, z, k, bit);
    FinishCorrect(c, a, n, Conjugate(c.p, q, bit), v, k, bit);
    w := NextZ(v, Mul(c.p, 2 * k + 1, a).x, a.x);
  }

  // ----- whole runs -----

  /** The leading bits of x: x with i bits dropped. */
  function Prefix(x: nat, i: nat): nat
    decreases i
  {
    if i == 0 then x else Prefix(x / 2, i - 1)
  }

  lemma {:induction false} PrefixStep(x: nat, i: nat)
    ensures Prefix(x, i) == 2 * Prefix(x, i + 1) + Bit(x, i)
    decreases i
  {
    if i > 0 { PrefixStep(x / 2, i - 1); }
  }

  /** The scalar the ladder works with: the low numBits - 1 bits under an implied leading one. */
  function FullScalar(scalar: nat, numBits: nat): nat
    requires numBits >= 1
  {
    DivModFacts(scalar, Pow2(numBits - 1));
    Pow2(numBits - 1) + scalar % Pow2(numBits - 1)
  }

  lemma {:induction false} PrefixTop(x: nat, m: nat)
    requires x < Pow2(m)
    ensures Prefix(Pow2(m) + x, m) == 1
    decreases m
  {
    if m > 0 { PrefixTop(x / 2, m - 1); }
  }

  /** The leading bit of the full scalar is the implied one. */
  lemma FullScalarTop(scalar: nat, numBits: nat)
    requires numBits >= 1
    ensures Prefix(FullScalar(scalar, numBits), numBits - 1) == 1
  {
    DivModFacts(scalar, Pow2(numBits - 1));
    PrefixTop(scalar % Pow2(numBits - 1), numBits - 1);
  }

  lemma FullScalarBits(scalar: nat, numBits: nat, j: nat)
    requires j + 1 < numBits
    ensures Bit(FullScalar(scalar, numBits), j) == Bit(scalar, j)
  {
    var m := numBits - 1;
    DivModFacts(scalar, Pow2(m));
    var r := scalar % Pow2(m);
    BitLow(r, 1, j, m);
    BitLow(r, scalar / Pow2(m), j, m);
  }

  ghost predicate SafeAt(n: nat, full: nat, j: nat)
    requires n > 0
  {
    StepSafe(n, Prefix(full, j + 1))
  }

  /** Steps i down to stop + 1 take the prefix of length i + 1 to the prefix of length stop + 1. */
  lemma {:induction false} RunCorrect(c: Curve, a: Point, n: nat, q: Pair, z: int, scalar: nat, full: nat, i: nat, stop: nat)
    returns (w: int)
    requires GoodPoint(c, a, n) && c.p > 1 && n > 0 && stop <= i
    requires forall j :: stop < j <= i ==> SafeAt(n, full, j) && Bit(scalar, j) == Bit(full, j)
    requires Holds(c, a, q, z, Prefix(full, i + 1))
    ensures Holds(c, a, Run(c.p, q, scalar, i, stop), w, Prefix(full, stop + 1))
    decreases i
  {
    hide GoodPoint, Holds, Step, StepSafe, Bit, Prefix;
    if i == stop {
      w := z;
    } else {
      var bit := Bit(scalar, i);
      assert SafeAt(n, full, i);
      PrefixStep(full, i);
      var v := StepCorrect(c, a, n, q, z, Prefix(full, i + 1), bit);
      w := RunCorrect(c, a, n, Step(c.p, q, bit), v, scalar, full, i - 1, stop);
    }
  }

  /** The slots at the start: the point and its double. */
  lemma StartCorrect(c: Curve, a: Point, n: nat, z: int) returns (w: int)
    requires GoodPoint(c, a, n) && StepSafe(n, 1) && 0 < z < c.p
    ensures c.p > 1 && Holds(c, a, Swap(InitialDouble(c.p, Coords(a.x, a.y), z)), w, 1)
  {
    GoodFacts(c, a, n);
    var p := c.p;
    MulOne(p, a);
    assert Mul(p, 2, a) == Sum(p, Mul(p, 1, a), a);
    assert Mul(p, 2, a) != Infinity;
    assert !Cong(p, a.y + a.y, 0);
    hide Mul, Sum, InitialDouble, GoodPoint, RepresentsPair, Swap, Cong;
    InitialDoubleCorrect(p, a, z);
    w := (a.y * (z * (z * z))) * z;
    SwapRepresents(p, InitialDouble(p, Coords(a.x, a.y), z), w, Sum(p, a, a), a);
  }

  // ----- the recovery of the denominator -----

  /**
   The product to be inverted is, up to a factor, the denominator after the last addition: the
   signs of Yb and of X1 - X0 change together with the last bit.
   */
  lemma InvertedProduct(p: int, a: Point, q: Pair, w: int, s: Point, bit: int)
    requires p > 0 && 0 <= bit <= 1 && a.Affine? && s.Affine?
    requires RepresentsPair(p, Arrange(q, bit), w, Difference(p, a, bit), s)
    ensures Cong(p, ToInvert(p, Coords(a.x, a.y), q, bit), ((a.x - s.x) * (w * w)) * (a.y * (w * (w * w))) * a.x)
  {
    hide Res, FSub, FMul;
    var k, l := w * w, w * (w * w);
    var d := Difference(p, a, bit);
    var t := if bit == 1 then a.x - s.x else s.x - a.x;
    var y := if bit == 1 then a.y else -a.y;
    DifferenceOver(a.x, s.x, k);
    DifferenceOver(s.x, a.x, k);
    SubLift(p, a.x * k, s.x * k);
    SubLift(p, s.x * k, a.x * k);
    assert FSub(p, q.x2, q.x1) == Res(p, t * k);
    CongRes(p, -a.y);
    CongMul(p, d.y, y, l, l);
    MulLift(p, t * k, y * l);
    MulLift(p, (t * k) * (y * l), a.x);
    assert (t * k) * (y * l) == ((a.x - s.x) * k) * (a.y * l) by {
      if bit == 0 { SignsCancel(a.x - s.x, k, a.y, l); }
    }
    CongRes(p, ((t * k) * (y * l)) * a.x);
  }

  lemma SignsCancel(t: int, k: int, y: int, l: int)
    ensures ((-t) * k) * ((-y) * l) == (t * k) * (y * l)
  {
  }

  /** The recovered z is inverse to the denominator of the result. */
  lemma RecoveredZ(ax: int, ay: int, sx: int, w: int, inv: int)
    ensures ((inv * ay) * (ax * (w * w))) * NextZ(w, sx, ax)
      == inv * (((ax - sx) * (w * w)) * (ay * (w * (w * w))) * ax)
  {
    var k := w * w;
    DifferenceOver(ax, sx, k);
    var t := (ax - sx) * k;
    assert ((inv * ay) * (ax * k)) * (w * t) == inv * ((ay * (ax * k)) * (w * t)) by {
      MulAssoc(inv, ay, ax * k);
      MulAssoc(inv, ay * (ax * k), w * t);
    }
    assert (ay * (ax * k)) * (w * t) == (t * (ay * (w * k))) * ax by { FourFactors(ay, ax, k, w, t); }
  }

  lemma FourFactors(a: int, x: int, k: int, w: int, t: int)
    ensures (a * (x * k)) * (w * t) == (t * (a * (w * k))) * x
  {
  }

  /** The last bit gives the affine multiple when the product can be inverted. */
  lemma LastBitCorrect(c: Curve, a: Point, n: nat, q: Pair, w: int, k: nat, bit: int, inv: int)
    requires GoodPoint(c, a, n) && StepSafe(n, k) && 0 <= bit <= 1 && c.p > 1 && Unit(w, c.p) && a.Affine?
    requires RepresentsPair(c.p, Arrange(q, bit), w, Difference(c.p, a, bit), Mul(c.p, 2 * k + 1, a))
    requires Cong(c.p, inv * ToInvert(c.p, Coords(a.x, a.y), q, bit), 1)
    ensures Mul(c.p, 2 * k + bit, a).Affine?
    ensures LastBit(c.p, Coords(a.x, a.y), q, bit, inv) == Coords(Mul(c.p, 2 * k + bit, a).x, Mul(c.p, 2 * k + bit, a).y)
  {
    var p, pt := c.p, Coords(a.x, a.y);
    var s, m := Mul(p, 2 * k + 1, a), Mul(p, 2 * k + bit, a);
    FinishCorrect(c, a, n, q, w, k, bit);
    MulOnCurve(c, 2 * k + bit, a);
    CurveReduced(c, m);
    SafeDifference(c, a, n, k, bit);
    hide Mul, GoodPoint, OnCurve, ToInvert, Finish, FMul, Res, ApplyZ, StepSafe;
    InvertedProduct(p, a, q, w, s, bit);
    var t := ((a.x - s.x) * (w * w)) * (a.y * (w * (w * w))) * a.x;
    CongMul(p, inv, inv, ToInvert(p, pt, q, bit), t);
    RecoveredZ(a.x, a.y, s.x, w, inv);
    var xb := First(Arrange(q, bit)).x;
    var zt := (inv * a.y) * (a.x * (w * w));
    MulLift(p, inv, a.y);
    MulLift(p, inv * a.y, a.x * (w * w));
    assert xb == Res(p, a.x * (w * w));
    var z := FMul(p, FMul(p, inv, a.y), xb);
    assert z == Res(p, zt);
    CongRes(p, zt);
    var v := NextZ(w, s.x, a.x);
    CongMul(p, z, zt, v, v);
    assert v * z == z * v && zt * v == inv * t;
    ApplyInverse(p, First(Finish(p, q, bit)), v, z, m);
  }

  lemma ApplyZero(p: int, q: Coords)
    requires p > 0
    ensures ApplyZ(p, q, 0) == Coords(0, 0)
  {
    MulByZero(p, q.x);
    MulByZero(p, q.y);
    MulByZero(p, 0);
  }

  lemma MulByZero(p: int, a: int)
    requires p > 0
    ensures FMul(p, a, 0) == 0 && FMul(p, 0, a) == 0
  {
    ResSmall(p, 0);
  }

  /** When the product is zero, so is the inverse, and the result is the pair (0, 0). */
  lemma LastBitZero(p: int, pt: Coords, q: Pair, bit: int, inv: int)
    requires p > 1 && ToInvert(p, pt, q, bit) == 0 && Inverts(inv, 0, p)
    ensures LastBit(p, pt, q, bit, inv) == Coords(0, 0)
  {
    hide FMul, FSub, ApplyZ, ToInvert;
    MulByZero(p, pt.y);
    MulByZero(p, First(Arrange(q, bit)).x);
    ApplyZero(p, First(Finish(p, q, bit)));
  }

  /** The product can be inverted as soon as the abscissa of the input point is not zero. */
  lemma ProductInvertible(c: Curve, a: Point, n: nat, q: Pair, w: int, k: nat, bit: int)
    requires GoodPoint(c, a, n) && StepSafe(n, k) && 0 <= bit <= 1 && c.p > 1 && Unit(w, c.p) && a.Affine?
    requires RepresentsPair(c.p, Arrange(q, bit), w, Difference(c.p, a, bit), Mul(c.p, 2 * k + 1, a))
    requires a.x != 0
    ensures Unit(ToInvert(c.p, Coords(a.x, a.y), q, bit), c.p)
  {
    var p, s := c.p, Mul(c.p, 2 * k + 1, a);
    GoodFacts(c, a, n);
    OrdinateUnit(c, a, n);
    SafeDifference(c, a, n, k, bit);
    hide Mul, GoodPoint, ToInvert, StepSafe, Difference, Arrange;
    InvertedProduct(p, a, q, w, s, bit);
    DistinctUnit(p, a.x, s.x);
    hide PrimeField;
    UnitMul(p, w, w);
    UnitMul(p, w, w * w);
    UnitMul(p, a.x - s.x, w * w);
    UnitMul(p, a.y, w * (w * w));
    UnitMul(p, (a.x - s.x) * (w * w), a.y * (w * (w * w)));
    assert Unit(a.x, p) by { NonZeroAbscissa(c, a, n); }
    var t := ((a.x - s.x) * (w * w)) * (a.y * (w * (w * w)));
    UnitMul(p, t, a.x);
    UnitCong(p, t * a.x, ToInvert(p, Coords(a.x, a.y), q, bit));
  }

  lemma NonZeroAbscissa(c: Curve, a: Point, n: nat)
    requires GoodPoint(c, a, n) && a.x != 0
    ensures c.p > 0 && Unit(a.x, c.p)
  {
  }

  /** A point of odd order has a non-zero ordinate. */
  lemma OrdinateUnit(c: Curve, a: Point, n: nat)
    requires GoodPoint(c, a, n)
    ensures c.p > 0 && !Cong(c.p, a.y + a.y, 0) && Unit(a.y, c.p)
  {
    GoodFacts(c, a, n);
    MulOne(c.p, a);
    assert Mul(c.p, 2, a) == Sum(c.p, Mul(c.p, 1, a), a);
    assert Mul(c.p, 2, a) != Infinity by { OddOrder(n); }
    if a.y == 0 { ResSmall(c.p, 0); }
  }

  lemma OddOrder(n: nat)
    requires n % 2 == 1 && n > 1
    ensures 2 % n != 0
  {
    if n > 2 { DivUnique(2, n, 0, 2); }
  }

  /** Every step of a run with the given full scalar is safe. */
  ghost predicate SafeRun(n: nat, full: nat, numBits: nat)
    requires n > 0
  {
    forall j :: 0 <= j < numBits - 1 ==> SafeAt(n, full, j)
  }

  /** The slots before the last bit of a safe run. */
  lemma BeforeLastCorrect(c: Curve, a: Point, n: nat, scalar: nat, z: int, numBits: nat) returns (w: int)
    requires GoodPoint(c, a, n) && n > 0 && numBits >= 2 && 0 < z < c.p && a.Affine?
    requires SafeRun(n, FullScalar(scalar, numBits), numBits)
    ensures c.p > 1
    ensures Holds(c, a, BeforeLast(c.p, Coords(a.x, a.y), scalar, z, numBits), w, Prefix(FullScalar(scalar, numBits), 1))
  {
    hide GoodPoint, Holds, StepSafe, InitialDouble, Swap, Run;
    var full := FullScalar(scalar, numBits);
    FullScalarTop(scalar, numBits);
    assert SafeAt(n, full, numBits - 2);
    var v := StartCorrect(c, a, n, z);
    forall j | 0 < j <= numBits - 2
      ensures Bit(scalar, j) == Bit(full, j)
    {
      FullScalarBits(scalar, numBits, j);
    }
    hide FullScalar, SafeAt, Bit, Prefix;
    w := RunCorrect(c, a, n, Swap(InitialDouble(c.p, Coords(a.x, a.y), z)), v, scalar, full, numBits - 2, 0);
  }

  /**
   A safe run returns the affine coordinates of the full scalar times the point, for every
   non-zero initial denominator, provided the abscissa of the point is not zero; when it is
   zero the run returns (0, 0).
   */
  lemma SafeMult(c: Curve, a: Point, n: nat, scalar: nat, z: int, numBits: nat, out: Coords)
    requires GoodPoint(c, a, n) && n > 0 && numBits >= 2 && 0 < z < c.p && a.Affine? && c.p > 1
    requires SafeRun(n, FullScalar(scalar, numBits), numBits)
    requires IsPointMult(c.p, Coords(a.x, a.y), scalar, z, numBits, out)
    ensures Mul(c.p, FullScalar(scalar, numBits), a).Affine?
    ensures out == if a.x == 0 then Coords(0, 0)
                   else Coords(Mul(c.p, FullScalar(scalar, numBits), a).x, Mul(c.p, FullScalar(scalar, numBits), a).y)
  {
    hide Inverts, StepSafe, Mul, GoodPoint;
    var p, pt := c.p, Coords(a.x, a.y);
    var full, bit := FullScalar(scalar, numBits), Bit(scalar, 0);
    FullScalarBits(scalar, numBits, 0);
    PrefixStep(full, 0);
    assert SafeAt(n, full, 0);
    var k := Prefix(full, 1);
    assert full == 2 * k + bit;
    var v := BeforeLastCorrect(c, a, n, scalar, z, numBits);
    var r := BeforeLast(p, pt, scalar, z, numBits);
    var q := Conjugate(p, r, bit);
    var inv :| Inverts(inv, ToInvert(p, pt, q, bit), p) && out == LastBit(p, pt, q, bit, inv);
    hide Holds, BeforeLast, FullScalar, Bit, Prefix, Conjugate, Arrange, LastBit, Difference, RepresentsPair, SafeRun, ToInvert;
    var w := ConjugateCorrect(c, a, n, r, v, k, bit);
    FinishCorrect(c, a, n, q, w, k, bit);
    assert Mul(p, full, a).Affine? by { HoldsAffine(c, a, Finish(p, q, bit), NextZ(w, Mul(p, 2 * k + 1, a).x, a.x), full); }
    if a.x == 0 {
      ToInvertZero(p, pt, q, bit);
      LastBitZero(p, pt, q, bit, inv);
    } else {
      ProductInvertible(c, a, n, q, w, k, bit);
      InverseCong(p, inv, ToInvert(p, pt, q, bit));
      LastBitCorrect(c, a, n, q, w, k, bit, inv);
    }
  }

  lemma HoldsAffine(c: Curve, a: Point, q: Pair, z: int, k: nat)
    requires c.p > 1 && Holds(c, a, q, z, k)
    ensures Mul(c.p, k, a).Affine?
  {
  }

  lemma ToInvertZero(p: int, pt: Coords, q: Pair, bit: int)
    requires p > 0 && (pt.x == 0 || First(Arrange(q, bit)).y == 0)
    ensures ToInvert(p, pt, q, bit) == 0
  {
    MulByZero(p, FMul(p, FSub(p, q.x2, q.x1), First(Arrange(q, bit)).y));
    MulByZero(p, FSub(p, q.x2, q.x1));
    MulByZero(p, pt.x);
  }

  lemma InverseCong(p: int, inv: int, x: int)
    requires p > 1 && Inverts(inv, x, p) && Unit(x, p)
    ensures Cong(p, inv * x, 1)
  {
    ResSmall(p, 1);
  }

  // ----- a run that meets opposite points -----

  lemma {:induction false} RunSplit(p: int, q: Pair, scalar: nat, i: nat)
    requires p > 0 && i >= 1
    ensures Run(p, q, scalar, i, 0) == Step(p, Run(p, q, scalar, i, 1), Bit(scalar, 1))
    decreases i
  {
    hide Step, Bit;
    if i > 1 {
      RunSplit(p, Step(p, q, Bit(scalar, i)), scalar, i - 1);
    }
  }

  /** One point and its opposite; a point whose ordinate and abscissa are a cube and a square. */
  function Opposite(t: int, u: int): Pair { Pair(t, u, t, -u) }
  function Collapsed(f: int): Pair { Pair(f * f, f * (f * f), 0, 0) }

  lemma OppositeConjugate(t: int, u: int)
    ensures var e := -2 * u;
      AddCZ(Opposite(t, u)) == Pair(0, 0, e * e, -(e * (e * e)))
  {
    var e := -2 * u;
    assert t * (0 * 0) == 0 && u * 0 == 0 && e * (0 - e * e) == -(e * (e * e));
    assert Opposite(t, u).x2 - Opposite(t, u).x1 == 0 && -u + u == 0 && -u - u == e;
  }

  lemma CollapsedFinish(e: int)
    ensures AddZ(Pair(e * e, -(e * (e * e)), 0, 0)) == Collapsed(e * (e * e))
  {
    var s, f := e * e, e * (e * e);
    assert f * f == s * (s * s) by { Shuffle(e, s, e, s); }
    assert (0 - s) * (0 - s) == s * s;
    assert (-f) * (0 - f * f) == f * (f * f);
    assert (0 - -f) * (0 - -f) == f * f;
  }

  /** Whichever slot leads, the conjugate addition of a collapsed pair gives (0, 0). */
  lemma CollapsedConjugate(f: int)
    ensures First(AddCZ(Collapsed(f))) == Coords(0, 0)
    ensures First(AddCZ(Swap(Collapsed(f)))) == Coords(0, 0)
  {
    hide AddCSharedZ, AddCFinishZ, Collapsed;
    var s, g := f * f, f * (f * f);
    var k := s * (s * s);
    assert g * g == k by { Shuffle(f, s, f, s); }
    CollapsedShared(f);
    FinishesAtZero(k, g, -g, -(k * g), k);
    FinishesAtZero(0, g, g, 0, k);
  }

  lemma CollapsedShared(f: int)
    ensures var s, g := f * f, f * (f * f);
      var k := s * (s * s);
      && AddCSharedZ(Collapsed(f)) == Shared(k, g, -g, -(k * g), k)
      && AddCSharedZ(Swap(Collapsed(f))) == Shared(0, g, g, 0, k)
  {
    var s, g := f * f, f * (f * f);
    SharedAgainstZero(s, g);
  }

  lemma SharedAgainstZero(s: int, g: int)
    ensures var k := s * (s * s);
      && AddCSharedZ(Pair(s, g, 0, 0)) == Shared(k, g, -g, -(k * g), k)
      && AddCSharedZ(Pair(0, 0, s, g)) == Shared(0, g, g, 0, k)
  {
    assert (0 - s) * (0 - s) == s * s;
    NegProduct(s * (s * s), g);
    assert g * (0 - s * (s * s)) == (-(s * (s * s))) * g;
  }

  lemma FinishesAtZero(b: int, s: int, e: int, g: int, h: int)
    requires s * s == h && g == -(b * s)
    ensures First(AddCFinishZ(Shared(b, s, e, g, h))) == Coords(0, 0)
  {
    NegProduct(b, s);
  }

  lemma ArrangeRes(p: int, q: Pair, lead: int)
    requires p > 0
    ensures Arrange(ResPair(p, q), lead) == ResPair(p, Arrange(q, lead))
  {
  }

  /** A step on opposite points collapses the slots. */
  lemma OppositeStep(p: int, t: int, u: int, bit: int) returns (f: int)
    requires p > 0 && 0 <= bit <= 1
    ensures Step(p, ResPair(p, Opposite(t, u)), bit) == Arrange(ResPair(p, Collapsed(f)), 1 - bit)
  {
    hide AddC, Add, AddCZ, AddZ, Res, Collapsed;
    var v := if bit == 1 then -u else u;
    var e := -2 * v;
    var q := ResPair(p, Opposite(t, u));
    ArrangeRes(p, Opposite(t, u), bit);
    assert Arrange(Opposite(t, u), bit) == Opposite(t, v);
    AddCLifts(p, Opposite(t, v));
    OppositeConjugate(t, v);
    var r := Pair(0, 0, e * e, -(e * (e * e)));
    var c := Conjugate(p, q, bit);
    ArrangeTwice(ResPair(p, r), bit);
    assert Arrange(c, 1 - bit) == ResPair(p, Swap(r));
    AddLifts(p, Swap(r));
    CollapsedFinish(e);
    f := e * (e * e);
  }

  /** The last conjugate addition on collapsed slots leaves nothing to invert. */
  lemma CollapsedLast(p: int, pt: Coords, f: int, lead: int, bit: int)
    requires p > 0 && 0 <= bit <= 1 && 0 <= lead <= 1
    ensures ToInvert(p, pt, Conjugate(p, Arrange(ResPair(p, Collapsed(f)), lead), bit), bit) == 0
  {
    hide AddC, AddCZ, Collapsed, ToInvert;
    var q := if lead == bit then Collapsed(f) else Swap(Collapsed(f));
    assert Arrange(Arrange(ResPair(p, Collapsed(f)), lead), bit) == ResPair(p, q);
    AddCLifts(p, q);
    CollapsedConjugate(f);
    ResSmall(p, 0);
    var c := Conjugate(p, Arrange(ResPair(p, Collapsed(f)), lead), bit);
    ArrangeTwice(AddC(p, ResPair(p, q)), bit);
    ToInvertZero(p, pt, c, bit);
  }

  lemma OppositeNeighbours(c: Curve, a: Point, n: nat, k: nat)
    requires GoodPoint(c, a, n) && c.p > 0 && Mul(c.p, 2 * k + 1, a) == Infinity
    ensures Mul(c.p, k + 1, a) == Neg(c.p, Mul(c.p, k, a))
  {
    hide Mul, Sum, OnCurve, Associative, PrimeField, HasOrder, Neg;
    MulOnCurve(c, k, a);
    MulOnCurve(c, k + 1, a);
    MulSum(c, k + 1, k, a);
    AddThenSubtract(c, Mul(c.p, k + 1, a), Mul(c.p, k, a));
    NegOnCurve(c, Mul(c.p, k, a));
    SumInfinity(c.p, Neg(c.p, Mul(c.p, k, a)));
  }

  /** The slots hold opposite points when the multiple 2k + 1 vanishes. */
  lemma OppositeSlots(c: Curve, a: Point, n: nat, q: Pair, z: int, k: nat) returns (t: int, u: int)
    requires GoodPoint(c, a, n) && c.p > 1 && Holds(c, a, q, z, k) && Mul(c.p, 2 * k + 1, a) == Infinity
    ensures q == ResPair(c.p, Opposite(t, u))
  {
    var p := c.p;
    var r0, r1 := Mul(p, k, a), Mul(p, k + 1, a);
    OppositeNeighbours(c, a, n, k);
    hide Mul, GoodPoint, Res, Neg;
    t, u := OppositeCoordinates(p, q, z, r0);
  }

  lemma OppositeCoordinates(p: int, q: Pair, z: int, b: Point) returns (t: int, u: int)
    requires p > 0 && RepresentsPair(p, q, z, b, Neg(p, b))
    ensures q == ResPair(p, Opposite(t, u))
  {
    hide Res;
    t := b.x * (z * z);
    u := b.y * (z * (z * z));
    CongRes(p, -b.y);
    CongMul(p, Neg(p, b).y, -b.y, z * (z * z), z * (z * z));
    NegProduct(b.y, z * (z * z));
  }

  lemma NegProduct(a: int, b: int)
    ensures (-a) * b == -(a * b)
  {
  }

  /** A run that meets opposite points at its last step but one returns (0, 0). */
  lemma DegenerateMult(c: Curve, a: Point, n: nat, scalar: nat, z: int, numBits: nat, out: Coords)
    requires GoodPoint(c, a, n) && n > 0 && numBits >= 3 && 0 < z < c.p && a.Affine? && c.p > 1
    requires forall j :: 1 < j < numBits - 1 ==> SafeAt(n, FullScalar(scalar, numBits), j)
    requires StepSafe(n, 1) && Mul(c.p, 2 * Prefix(FullScalar(scalar, numBits), 2) + 1, a) == Infinity
    requires IsPointMult(c.p, Coords(a.x, a.y), scalar, z, numBits, out)
    ensures out == Coords(0, 0)
  {
    hide Inverts, StepSafe, Mul, GoodPoint, FullScalar, Prefix, Bit, Pow2, Holds, InitialDouble, Swap, Conjugate,
      LastBit, ToInvert, ResPair, Collapsed, Opposite, Run, Step;
    var p, pt := c.p, Coords(a.x, a.y);
    var full, bit := FullScalar(scalar, numBits), Bit(scalar, 0);
    var r := BeforeLast(p, pt, scalar, z, numBits);
    var q := Conjugate(p, r, bit);
    var inv :| Inverts(inv, ToInvert(p, pt, q, bit), p) && out == LastBit(p, pt, q, bit, inv);
    FullScalarTop(scalar, numBits);
    var start := Swap(InitialDouble(p, pt, z));
    var v := StartCorrect(c, a, n, z);
    forall j | 1 < j <= numBits - 2
      ensures Bit(scalar, j) == Bit(full, j)
    {
      FullScalarBits(scalar, numBits, j);
    }
    hide SafeAt;
    var w := RunCorrect(c, a, n, start, v, scalar, full, numBits - 2, 1);
    var t, u := OppositeSlots(c, a, n, Run(p, start, scalar, numBits - 2, 1), w, Prefix(full, 2));
    RunSplit(p, start, scalar, numBits - 2);
    var f := OppositeStep(p, t, u, Bit(scalar, 1));
    CollapsedLast(p, pt, f, 1 - Bit(scalar, 1), bit);
    LastBitZero(p, pt, q, bit, inv);
  }
}
