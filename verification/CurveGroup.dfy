/**
 The group of the curve y^2 = x^3 - 3x + b modulo p, defined by chords and tangents, and
 scalar multiplication defined by repeated addition. That p is prime and that the addition is
 associative are hypotheses; everything else is proved.
 */
module CurveGroup {
  import opened Arith
  import opened Inverse
  import opened Field

  datatype Point = Infinity | Affine(x: int, y: int)

  datatype Curve = Curve(p: int, b: int)

  function ChordX(s: int, x1: int, x2: int): int { s * s - x1 - x2 }
  function ChordY(s: int, x1: int, y1: int, x3: int): int { s * (x1 - x3) - y1 }

  /** The third point of the line of slope s through (x1, y1), reflected. */
  function Third(p: int, s: int, x1: int, y1: int, x2: int): Point
    requires p > 0
  {
    var x3 := Res(p, ChordX(s, x1, x2));
    Affine(x3, Res(p, ChordY(s, x1, y1, x3)))
  }

  ghost function ChordSlope(p: int, x1: int, y1: int, x2: int, y2: int): int
    requires p > 0
  {
    (y2 - y1) * InverseOf(p, x2 - x1)
  }

  ghost function TangentSlope(p: int, x: int, y: int): int
    requires p > 0
  {
    (3 * (x * x) - 3) * InverseOf(p, 2 * y)
  }

  /** Point addition. */
  ghost function Sum(p: int, a: Point, b: Point): Point
    requires p > 0
  {
    if a.Infinity? then b
    else if b.Infinity? then a
    else if a.x != b.x then Third(p, ChordSlope(p, a.x, a.y, b.x, b.y), a.x, a.y, b.x)
    else if Cong(p, a.y + b.y, 0) then Infinity
    else Third(p, TangentSlope(p, a.x, a.y), a.x, a.y, a.x)
  }

  function Neg(p: int, a: Point): Point
    requires p > 0
  {
    match a
    case Infinity => Infinity
    case Affine(x, y) => Affine(x, Res(p, -y))
  }

  /** k times a point. */
  ghost function Mul(p: int, k: nat, a: Point): Point
    requires p > 0
  {
    if k == 0 then Infinity else Sum(p, Mul(p, k - 1, a), a)
  }

  /** x^3 - 3x + b - y^2 */
  function Equation(b: int, x: int, y: int): int {
    x * (x * x) - 3 * x + b - y * y
  }

  ghost predicate OnCurve(c: Curve, a: Point)
    requires c.p > 0
  {
    a.Affine? ==> 0 <= a.x < c.p && 0 <= a.y < c.p && Cong(c.p, Equation(c.b, a.x, a.y), 0)
  }

  ghost predicate Associative(c: Curve)
    requires c.p > 0
  {
    forall a, b, d {:trigger Sum(c.p, Sum(c.p, a, b), d)} ::
      OnCurve(c, a) && OnCurve(c, b) && OnCurve(c, d) ==>
        Sum(c.p, Sum(c.p, a, b), d) == Sum(c.p, a, Sum(c.p, b, d))
  }

  /** The first hypothesis: p is an odd prime. */
  ghost predicate OverOddPrime(c: Curve) {
    PrimeField(c.p) && c.p % 2 == 1
  }

  /** The hypotheses: p is an odd prime and the addition is associative on the curve. */
  ghost predicate IsGroup(c: Curve) {
    OverOddPrime(c) && Associative(c)
  }

  lemma Assoc(c: Curve, a: Point, b: Point, d: Point)
    requires IsGroup(c) && OnCurve(c, a) && OnCurve(c, b) && OnCurve(c, d)
    ensures Sum(c.p, Sum(c.p, a, b), d) == Sum(c.p, a, Sum(c.p, b, d))
  {
    hide Sum, OnCurve;
  }

  // ----- the slopes -----

  lemma ChordSlopeIsSlope(p: int, x1: int, y1: int, x2: int, y2: int)
    requires p > 1 && Unit(x2 - x1, p)
    ensures Cong(p, ChordSlope(p, x1, y1, x2, y2) * (x2 - x1), y2 - y1)
  {
    var i, dx, dy := InverseOf(p, x2 - x1), x2 - x1, y2 - y1;
    InverseOfUnit(p, dx);
    CongMul(p, dy, dy, dx * i, 1);
    assert (dy * i) * dx == dy * (dx * i) by { MulAssoc(dy, i, dx); }
  }

  lemma TangentSlopeIsSlope(p: int, x: int, y: int)
    requires p > 1 && Unit(2 * y, p)
    ensures Cong(p, TangentSlope(p, x, y) * (2 * y), 3 * (x * x) - 3)
  {
    var i, n, d := InverseOf(p, 2 * y), 3 * (x * x) - 3, 2 * y;
    InverseOfUnit(p, d);
    CongMul(p, n, n, d * i, 1);
    assert (n * i) * d == n * (d * i) by { MulAssoc(n, i, d); }
  }

  /** Two residues that differ have an invertible difference. */
  lemma DistinctUnit(p: int, a: int, b: int)
    requires PrimeField(p) && 0 <= a < p && 0 <= b < p && a != b
    ensures Unit(a - b, p)
  {
    ResSmall(p, a);
    ResSmall(p, b);
    CongZero(p, a, b);
    NonZeroUnit(p, a - b);
  }

  // ----- the curve is closed under addition -----

  /** The line of slope s through (x1, y1), and the curve equation along it. */
  function LineY(s: int, x1: int, y1: int, x: int): int { y1 + s * (x - x1) }

  /**
   Dividing the curve equation along a line by (x-x1)(x-x2)(x-x3) leaves Alpha x + Beta, where
   x3 is the third abscissa of the construction.
   */
  function Alpha(s: int, x1: int, y1: int, x2: int): int {
    var t, x3 := y1 - s * x1, ChordX(s, x1, x2);
    -3 - 2 * (t * s) - (x1 * x2 + x1 * x3 + x2 * x3)
  }
  function Beta(b: int, s: int, x1: int, y1: int, x2: int): int {
    var t, x3 := y1 - s * x1, ChordX(s, x1, x2);
    b - t * t + x1 * (x2 * x3)
  }

  lemma SquareExpand(t: int, s: int, x: int)
    ensures (t + s * x) * (t + s * x) == t * t + (2 * (t * s)) * x + (s * s) * (x * x)
  {
    MulDistrib(t + s * x, t, s * x);
    Shuffle(s, x, s, x);
    assert (s * x) * t == (t * s) * x;
  }

  lemma RootsExpand(x: int, x1: int, x2: int, x3: int)
    ensures (x - x1) * ((x - x2) * (x - x3))
      == x * (x * x) - (x1 + x2 + x3) * (x * x) + (x1 * x2 + x1 * x3 + x2 * x3) * x - x1 * (x2 * x3)
  {
    QuadraticExpand(x, x2, x3);
    MulDistrib(x1, x2, x3);
    CubicExpand(x, x1, x2 + x3, x2 * x3);
  }

  lemma QuadraticExpand(x: int, x2: int, x3: int)
    ensures (x - x2) * (x - x3) == x * x - (x2 + x3) * x + x2 * x3
  {
  }

  lemma CubicExpand(x: int, x1: int, s: int, m: int)
    ensures (x - x1) * (x * x - s * x + m) == x * (x * x) - (x1 + s) * (x * x) + (x1 * s + m) * x - x1 * m
  {
    var q := x * x - s * x + m;
    assert (x - x1) * q == x * q - x1 * q;
    MulDistrib(x, x * x, m - s * x);
    MulDistrib(x, m, -(s * x));
    MulAssoc(s, x, x);
    MulDistrib(x1, x * x, m - s * x);
    MulDistrib(x1, m, -(s * x));
    MulAssoc(x1, s, x);
  }

  lemma LineDivision(b: int, s: int, x1: int, y1: int, x2: int, x: int)
    ensures Equation(b, x, LineY(s, x1, y1, x))
      == (x - x1) * ((x - x2) * (x - ChordX(s, x1, x2))) + Alpha(s, x1, y1, x2) * x + Beta(b, s, x1, y1, x2)
  {
    var t, x3 := y1 - s * x1, ChordX(s, x1, x2);
    assert LineY(s, x1, y1, x) == t + s * x;
    SquareExpand(t, s, x);
    RootsExpand(x, x1, x2, x3);
    var m := x1 * x2 + x1 * x3 + x2 * x3;
    assert Alpha(s, x1, y1, x2) * x == -3 * x - (2 * (t * s)) * x - m * x;
    assert x1 + x2 + x3 == s * s;
  }

  /** The third point is on the curve once the remainder vanishes and the first point is on it. */
  lemma ThirdOnCurve(c: Curve, s: int, x1: int, y1: int, x2: int)
    requires c.p > 0 && Cong(c.p, Alpha(s, x1, y1, x2), 0) && Cong(c.p, Equation(c.b, x1, y1), 0)
    ensures OnCurve(c, Third(c.p, s, x1, y1, x2))
  {
    hide Res, Alpha, Beta, Equation, ChordX;
    var p := c.p;
    var al, be, x3 := Alpha(s, x1, y1, x2), Beta(c.b, s, x1, y1, x2), ChordX(s, x1, x2);
    LineDivision(c.b, s, x1, y1, x2, x1);
    LineDivision(c.b, s, x1, y1, x2, x3);
    assert LineY(s, x1, y1, x1) == y1;
    CongMul(p, al, 0, x1, x1);
    CongMul(p, al, 0, x3, x3);
    CongAdd(p, Equation(c.b, x1, y1), 0, al * x1, 0);
    assert Equation(c.b, x1, y1) - al * x1 == be;
    CongAdd(p, al * x3, 0, be, 0);
    assert Cong(p, Equation(c.b, x3, LineY(s, x1, y1, x3)), 0);
    EquationReflect(c.b, s, x1, y1, x3);
    var r3 := Res(p, x3);
    CongRes(p, x3);
    ThirdYCong(p, s, x1, y1, x3);
    EquationCong(p, c.b, r3, x3, Res(p, ChordY(s, x1, y1, r3)), ChordY(s, x1, y1, x3));
  }

  lemma EquationReflect(b: int, s: int, x1: int, y1: int, x: int)
    ensures Equation(b, x, ChordY(s, x1, y1, x)) == Equation(b, x, LineY(s, x1, y1, x))
  {
    var u := LineY(s, x1, y1, x);
    assert ChordY(s, x1, y1, x) == -u;
    assert (-u) * (-u) == u * u;
  }

  /** The ordinate of the construction may be computed from the reduced abscissa. */
  lemma ThirdYCong(p: int, s: int, x1: int, y1: int, x3: int)
    requires p > 0
    ensures Cong(p, Res(p, ChordY(s, x1, y1, Res(p, x3))), ChordY(s, x1, y1, x3))
    ensures Cong(p, ChordY(s, x1, y1, Res(p, x3)), ChordY(s, x1, y1, x3))
  {
    hide Res;
    var r := Res(p, x3);
    CongRes(p, x3);
    CongAdd(p, x1, x1, r, x3);
    CongMul(p, s, s, x1 - r, x1 - x3);
    CongAdd(p, s * (x1 - r), s * (x1 - x3), y1, y1);
    CongRes(p, ChordY(s, x1, y1, r));
  }

  lemma EquationCong(p: int, b: int, x: int, x': int, y: int, y': int)
    requires p > 0 && Cong(p, x, x') && Cong(p, y, y')
    ensures Cong(p, Equation(b, x, y), Equation(b, x', y'))
  {
    hide Res;
    CongMul(p, x, x', x, x');
    CongMul(p, x, x', x * x, x' * x');
    CongMul(p, y, y', y, y');
    CongMul(p, 3, 3, x, x');
    CongAdd(p, x * (x * x), x' * (x' * x'), 3 * x, 3 * x');
    CongAdd(p, x * (x * x) - 3 * x, x' * (x' * x') - 3 * x', b, b);
    CongAdd(p, x * (x * x) - 3 * x + b, x' * (x' * x') - 3 * x' + b, y * y, y' * y');
  }

  /** On a chord, the remainder vanishes at two abscissas with an invertible difference. */
  lemma ChordRemainder(c: Curve, s: int, x1: int, y1: int, x2: int, y2: int)
    requires c.p > 1 && Unit(x2 - x1, c.p) && Cong(c.p, s * (x2 - x1), y2 - y1)
    requires Cong(c.p, Equation(c.b, x1, y1), 0) && Cong(c.p, Equation(c.b, x2, y2), 0)
    ensures Cong(c.p, Alpha(s, x1, y1, x2), 0)
  {
    hide Res, Alpha, Beta, Equation, ChordX;
    var p := c.p;
    var al := Alpha(s, x1, y1, x2);
    LineDivision(c.b, s, x1, y1, x2, x1);
    LineDivision(c.b, s, x1, y1, x2, x2);
    assert LineY(s, x1, y1, x1) == y1;
    CongAdd(p, s * (x2 - x1), y2 - y1, -y1, -y1);
    assert LineY(s, x1, y1, x2) == s * (x2 - x1) - (-y1);
    EquationCong(p, c.b, x2, x2, LineY(s, x1, y1, x2), y2);
    CongAdd(p, Equation(c.b, x2, LineY(s, x1, y1, x2)), 0, Equation(c.b, x1, y1), 0);
    assert (x2 - x1) * al == al * x2 - al * x1 by { MulDistrib(al, x2, -x1); }
    Cancel(p, x2 - x1, al);
  }

  lemma TangentAlpha(s: int, x: int, y: int)
    ensures Alpha(s, x, y, x) == (3 * (x * x) - 3) - s * (2 * y)
  {
    var t := y - s * x;
    var x3 := ChordX(s, x, x);
    MulDistrib(s, y, -(s * x));
    MulDistrib(x, s * s, -(2 * x));
    MulAssoc(s, s, x);
    assert x * x3 == x * (s * s) - 2 * (x * x);
    assert t * s == y * s - x * (s * s);
  }

  lemma TangentRemainder(c: Curve, s: int, x: int, y: int)
    requires c.p > 0 && Cong(c.p, s * (2 * y), 3 * (x * x) - 3)
    ensures Cong(c.p, Alpha(s, x, y, x), 0)
  {
    TangentAlpha(s, x, y);
    CongZero(c.p, 3 * (x * x) - 3, s * (2 * y));
  }

  lemma NegOnCurve(c: Curve, a: Point)
    requires c.p > 0 && OnCurve(c, a)
    ensures OnCurve(c, Neg(c.p, a))
  {
    if a.Affine? {
      hide Res, Equation;
      CongRes(c.p, -a.y);
      EquationCong(c.p, c.b, a.x, a.x, Res(c.p, -a.y), -a.y);
      assert Equation(c.b, a.x, -a.y) == Equation(c.b, a.x, a.y) by { EquationEven(c.b, a.x, a.y); }
    }
  }

  lemma EquationEven(b: int, x: int, y: int)
    ensures Equation(b, x, -y) == Equation(b, x, y)
  {
  }

  /** Two points of the curve with one abscissa are equal or opposite. */
  lemma SameAbscissa(c: Curve, a: Point, b: Point)
    requires OverOddPrime(c) && OnCurve(c, a) && OnCurve(c, b) && a.Affine? && b.Affine? && a.x == b.x
    ensures a == b || Cong(c.p, a.y + b.y, 0)
    ensures Cong(c.p, a.y + b.y, 0) <==> b == Neg(c.p, a)
  {
    hide Res, Equation;
    var p := c.p;
    CongAdd(p, Equation(c.b, b.x, b.y), 0, Equation(c.b, a.x, a.y), 0);
    EquationDifference(c.b, a.x, a.y, b.y);
    ResSmall(p, a.y);
    ResSmall(p, b.y);
    if !Cong(p, a.y + b.y, 0) {
      NonZeroUnit(p, a.y + b.y);
      Cancel(p, a.y + b.y, a.y - b.y);
      CongZero(p, a.y, b.y);
    }
    CongZero(p, b.y, -a.y);
  }

  lemma EquationDifference(b: int, x: int, y: int, z: int)
    ensures Equation(b, x, z) - Equation(b, x, y) == (y + z) * (y - z)
  {
  }

  /** The doubled ordinate is invertible unless the point is its own opposite. */
  lemma DoubleOrdinate(p: int, y: int)
    requires PrimeField(p) && !Cong(p, y + y, 0)
    ensures Unit(2 * y, p)
  {
    NonZeroUnit(p, 2 * y);
  }

  lemma SumOnCurve(c: Curve, a: Point, b: Point)
    requires OverOddPrime(c) && OnCurve(c, a) && OnCurve(c, b)
    ensures OnCurve(c, Sum(c.p, a, b))
  {
    hide Res, Equation, Alpha, Third, ChordSlope, TangentSlope;
    if a.Affine? && b.Affine? {
      if a.x != b.x {
        DistinctUnit(c.p, b.x, a.x);
        ChordSlopeIsSlope(c.p, a.x, a.y, b.x, b.y);
        var s := ChordSlope(c.p, a.x, a.y, b.x, b.y);
        ChordRemainder(c, s, a.x, a.y, b.x, b.y);
        ThirdOnCurve(c, s, a.x, a.y, b.x);
      } else if !Cong(c.p, a.y + b.y, 0) {
        SameAbscissa(c, a, b);
        DoubleOrdinate(c.p, a.y);
        TangentSlopeIsSlope(c.p, a.x, a.y);
        var s := TangentSlope(c.p, a.x, a.y);
        TangentRemainder(c, s, a.x, a.y);
        ThirdOnCurve(c, s, a.x, a.y, a.x);
      }
    }
  }

  // ----- the group and its scalar multiples -----

  lemma SumNeg(c: Curve, a: Point)
    requires c.p > 0 && OnCurve(c, a)
    ensures Sum(c.p, a, Neg(c.p, a)) == Infinity && Sum(c.p, Neg(c.p, a), a) == Infinity
  {
    if a.Affine? {
      hide Res;
      CongRes(c.p, -a.y);
      CongAdd(c.p, a.y, a.y, Res(c.p, -a.y), -a.y);
    }
  }

  /** a + b - b = a */
  lemma AddThenSubtract(c: Curve, a: Point, b: Point)
    requires IsGroup(c) && OnCurve(c, a) && OnCurve(c, b)
    ensures Sum(c.p, Sum(c.p, a, b), Neg(c.p, b)) == a
    ensures Sum(c.p, Sum(c.p, a, Neg(c.p, b)), b) == a
  {
    NegOnCurve(c, b);
    SumNeg(c, b);
    Assoc(c, a, b, Neg(c.p, b));
    Assoc(c, a, Neg(c.p, b), b);
    SumInfinity(c.p, a);
    hide OnCurve, Neg, Sum;
  }

  lemma {:induction false} MulOnCurve(c: Curve, k: nat, a: Point)
    requires OverOddPrime(c) && OnCurve(c, a)
    ensures OnCurve(c, Mul(c.p, k, a))
  {
    if k > 0 {
      MulOnCurve(c, k - 1, a);
      SumOnCurve(c, Mul(c.p, k - 1, a), a);
    }
  }

  lemma {:induction false} MulSum(c: Curve, j: nat, k: nat, a: Point)
    requires IsGroup(c) && OnCurve(c, a)
    ensures Sum(c.p, Mul(c.p, j, a), Mul(c.p, k, a)) == Mul(c.p, j + k, a)
  {
    hide Sum, OnCurve, Associative;
    if k == 0 {
      SumInfinity(c.p, Mul(c.p, j, a));
    } else {
      MulSum(c, j, k - 1, a);
      MulOnCurve(c, j, a);
      MulOnCurve(c, k - 1, a);
      Assoc(c, Mul(c.p, j, a), Mul(c.p, k - 1, a), a);
    }
  }

  lemma SumInfinity(p: int, a: Point)
    requires p > 0
    ensures Sum(p, a, Infinity) == a && Sum(p, Infinity, a) == a
  {
  }

  lemma {:induction false} MulMul(c: Curve, j: nat, k: nat, a: Point)
    requires IsGroup(c) && OnCurve(c, a)
    ensures j * k >= 0 && Mul(c.p, j, Mul(c.p, k, a)) == Mul(c.p, j * k, a)
  {
    hide Sum, OnCurve, Associative;
    if j > 0 {
      MulMul(c, j - 1, k, a);
      ProductOffset(j - 1, 1, k);
      MulSum(c, (j - 1) * k, k, a);
    }
  }

  lemma MulStep(p: int, k: nat, a: Point)
    requires p > 0
    ensures Mul(p, k + 1, a) == Sum(p, Mul(p, k, a), a)
  {
  }

  lemma MulOne(p: int, a: Point)
    requires p > 0
    ensures Mul(p, 1, a) == a
  {
    assert Mul(p, 0, a) == Infinity;
  }

  /** Differences of neighbouring multiples, the two cases of the ladder. */
  lemma NeighbourDifference(c: Curve, k: nat, a: Point)
    requires IsGroup(c) && OnCurve(c, a)
    ensures Sum(c.p, Mul(c.p, k + 1, a), Neg(c.p, Mul(c.p, k, a))) == a
    ensures Sum(c.p, Mul(c.p, k, a), Neg(c.p, Mul(c.p, k + 1, a))) == Neg(c.p, a)
  {
    var p := c.p;
    MulOnCurve(c, k, a);
    MulOnCurve(c, k + 1, a);
    MulSum(c, 1, k, a);
    MulOne(p, a);
    NegOnCurve(c, a);
    SumNeg(c, a);
    hide Mul, OnCurve, Neg, Sum, Associative;
    AddThenSubtract(c, a, Mul(p, k, a));
    Assoc(c, Neg(p, a), a, Mul(p, k, a));
    SumInfinity(p, Mul(p, k, a));
    AddThenSubtract(c, Neg(p, a), Mul(p, k + 1, a));
  }

  /** The multiples of a that vanish are exactly the multiples of n. */
  ghost predicate HasOrder(p: int, a: Point, n: nat)
    requires p > 0
  {
    n > 0 && forall j: nat {:trigger Mul(p, j, a)} :: Mul(p, j, a) == Infinity <==> j % n == 0
  }

  lemma Vanishes(p: int, a: Point, n: nat, j: nat)
    requires p > 0 && HasOrder(p, a, n)
    ensures Mul(p, j, a) == Infinity <==> j % n == 0
  {
  }

  lemma EqualMultiples(c: Curve, i: nat, j: nat, a: Point, n: nat)
    requires IsGroup(c) && OnCurve(c, a) && HasOrder(c.p, a, n) && j <= i
    requires Mul(c.p, i, a) == Mul(c.p, j, a)
    ensures (i - j) % n == 0
  {
    hide Sum, OnCurve, Neg, Mul, Associative, HasOrder;
    var d: nat := i - j;
    Vanishes(c.p, a, n, d);
    MulOnCurve(c, d, a);
    MulOnCurve(c, j, a);
    MulSum(c, d, j, a);
    AddThenSubtract(c, Mul(c.p, d, a), Mul(c.p, j, a));
    SumNeg(c, Mul(c.p, j, a));
  }

  lemma OppositeMultiples(c: Curve, i: nat, j: nat, a: Point, n: nat)
    requires IsGroup(c) && OnCurve(c, a) && HasOrder(c.p, a, n)
    requires Mul(c.p, j, a) == Neg(c.p, Mul(c.p, i, a))
    ensures (i + j) % n == 0
  {
    hide Sum, OnCurve, Neg, Mul, Associative, HasOrder;
    Vanishes(c.p, a, n, i + j);
    MulOnCurve(c, i, a);
    MulSum(c, i, j, a);
    SumNeg(c, Mul(c.p, i, a));
  }

  /** When two multiples are affine points with different abscissas. */
  lemma DistinctAbscissas(c: Curve, i: nat, j: nat, a: Point, n: nat)
    requires IsGroup(c) && OnCurve(c, a) && HasOrder(c.p, a, n) && j <= i
    requires i % n != 0 && j % n != 0 && (i - j) % n != 0 && (i + j) % n != 0
    ensures Mul(c.p, i, a).Affine? && Mul(c.p, j, a).Affine?
    ensures Mul(c.p, i, a).x != Mul(c.p, j, a).x
  {
    MulOnCurve(c, i, a);
    MulOnCurve(c, j, a);
    hide OnCurve, Neg, Mul, Associative;
    if Mul(c.p, i, a).x == Mul(c.p, j, a).x {
      SameAbscissa(c, Mul(c.p, i, a), Mul(c.p, j, a));
      if Mul(c.p, i, a) == Mul(c.p, j, a) {
        EqualMultiples(c, i, j, a, n);
      } else {
        OppositeMultiples(c, i, j, a, n);
      }
    }
  }

  /** Adding the order to a scalar does not change the multiple. */
  lemma {:induction false} MulPeriod(c: Curve, k: nat, q: nat, a: Point, n: nat)
    requires IsGroup(c) && OnCurve(c, a) && HasOrder(c.p, a, n)
    ensures k + q * n >= 0 && Mul(c.p, k + q * n, a) == Mul(c.p, k, a)
  {
    hide Sum, OnCurve, Associative;
    ProductOffset(0, q, n);
    if q > 0 { MulMono(n, 0, q); }
    DivUnique(q * n, n, q, 0);
    MulSum(c, k, q * n, a);
    SumInfinity(c.p, Mul(c.p, k, a));
  }
}
