/**
 The point operations on word arrays, updated in place. Every method is proved to compute the
 corresponding formula on residues. The 16-word point buffers of the C code are pairs of
 8-word arrays here.
 */
module Points {
  import opened Arith
  import opened Words
  import opened Vli
  import opened Product
  import opened Reduce
  import opened Inverse
  import opened P256
  import opened Field
  import CoZ
  import Ladder

  /** The residue held by an 8-word array. */
  ghost function Fe(a: array<Word>): nat
    requires a.Length == 8
    reads a
  {
    V(a, 8)
  }

  /** The array holds the prime of the curve. */
  ghost predicate IsModulus(p: array<Word>)
    reads p
  {
    p.Length == 8 && p[..] == P_WORDS
  }

  lemma ModulusValue(p: array<Word>)
    requires IsModulus(p)
    ensures Fe(p) == PRIME
  {
    PrimeValue();
    assert p[..8] == P_WORDS;
  }

  /** An operand array: eight words, separate from the modulus, holding a residue. */
  ghost predicate Residue(a: array<Word>, p: array<Word>)
    reads a
  {
    a.Length == 8 && a != p && Fe(a) < PRIME
  }

  method FieldAdd(result: array<Word>, left: array<Word>, right: array<Word>, p: array<Word>)
    requires IsModulus(p) && result.Length == 8 && result != p
    requires left.Length == right.Length == 8 && Fe(left) < PRIME && Fe(right) < PRIME
    modifies result
    ensures Fe(result) == FAdd(PRIME, old(Fe(left)), old(Fe(right)))
  {
    hide Val, P_WORDS;
    ModulusValue(p);
    ModAdd(result, left, right, p, 8);
  }

  method FieldSub(result: array<Word>, left: array<Word>, right: array<Word>, p: array<Word>)
    requires IsModulus(p) && result.Length == 8 && result != p
    requires left.Length == right.Length == 8 && Fe(left) < PRIME && Fe(right) < PRIME
    modifies result
    ensures Fe(result) == FSub(PRIME, old(Fe(left)), old(Fe(right)))
  {
    hide Val, P_WORDS;
    ModulusValue(p);
    ModSub(result, left, right, p, 8);
  }

  /** uECC_vli_modMult_fast: the operands need not be reduced. */
  method FieldMul(result: array<Word>, left: array<Word>, right: array<Word>, p: array<Word>)
    requires IsModulus(p) && result.Length == 8 && result != p && left.Length == right.Length == 8
    modifies result
    ensures Fe(result) == FMul(PRIME, old(Fe(left)), old(Fe(right)))
  {
    hide Val, P_WORDS;
    var product := new Word[16];
    Mult(product, left, right, 8);
    MmodFast(result, product, p);
  }

  method Copy(dest: array<Word>, src: array<Word>)
    requires dest.Length == src.Length == 8 && dest != src
    modifies dest
    ensures dest[..] == src[..] && Fe(dest) == Fe(src)
  {
    Set(dest, 0, src, 8);
    assert dest[..8] == src[..8] && dest[..] == src[..];
  }

  ghost function PairOf(x1: array<Word>, y1: array<Word>, x2: array<Word>, y2: array<Word>): CoZ.Pair
    requires x1.Length == y1.Length == x2.Length == y2.Length == 8
    reads x1, y1, x2, y2
  {
    CoZ.Pair(Fe(x1), Fe(y1), Fe(x2), Fe(y2))
  }

  ghost predicate Distinct4(a: array<Word>, b: array<Word>, c: array<Word>, d: array<Word>) {
    a != b && a != c && a != d && b != c && b != d && c != d
  }

  /** The first lines of XYcZ_add: B and C in place of the abscissas, and y2 - y1 in Y2. */
  method ScaleAbscissas(X1: array<Word>, Y1: array<Word>, X2: array<Word>, Y2: array<Word>, t5: array<Word>, p: array<Word>)
    requires IsModulus(p) && Residue(X1, p) && Residue(Y1, p) && Residue(X2, p) && Residue(Y2, p)
    requires Distinct4(X1, Y1, X2, Y2) && t5.Length == 8 && t5 !in {X1, Y1, X2, Y2, p}
    modifies X1, X2, Y2, t5
    ensures Residue(X1, p) && Residue(X2, p) && Residue(Y2, p)
    ensures var t := CoZ.AddProducts(PRIME, old(PairOf(X1, Y1, X2, Y2)));
      && Fe(X1) == t.b && Fe(X2) == t.c && Fe(Y2) == t.e
      && t.g == FMul(PRIME, Fe(Y1), FSub(PRIME, Fe(X2), Fe(X1)))
  {
    hide V, Fe, FAdd, FSub, FMul, P_WORDS, IsModulus;
    FieldSub(t5, X2, X1, p);
    FieldMul(t5, t5, t5, p);
    FieldMul(X1, X1, t5, p);
    FieldMul(X2, X2, t5, p);
    FieldSub(Y2, Y2, Y1, p);
  }

  method XYcZAdd(X1: array<Word>, Y1: array<Word>, X2: array<Word>, Y2: array<Word>, p: array<Word>)
    requires IsModulus(p) && Residue(X1, p) && Residue(Y1, p) && Residue(X2, p) && Residue(Y2, p)
    requires Distinct4(X1, Y1, X2, Y2)
    modifies X1, Y1, X2, Y2
    ensures Residue(X1, p) && Residue(Y1, p) && Residue(X2, p) && Residue(Y2, p)
    ensures PairOf(X1, Y1, X2, Y2) == CoZ.Add(PRIME, old(PairOf(X1, Y1, X2, Y2)))
  {
    hide V, Fe, FAdd, FSub, FMul, P_WORDS, IsModulus, CoZ.AddProducts;
    var t5 := new Word[8];
    ScaleAbscissas(X1, Y1, X2, Y2, t5, p);
    FieldMul(t5, Y2, Y2, p);

    FieldSub(t5, t5, X1, p);
    FieldSub(t5, t5, X2, p);
    FieldSub(X2, X2, X1, p);
    FieldMul(Y1, Y1, X2, p);
    FieldSub(X2, X1, t5, p);
    FieldMul(Y2, Y2, X2, p);
    FieldSub(Y2, Y2, Y1, p);

    ghost var x3 := Fe(t5);
    Copy(X2, t5);
    assert Fe(X2) == x3;
  }

  /** The part of XYcZ_addC up to the sum: what it leaves for the difference is B, E, B + C and y1 + y2. */
  method SharedProducts(X1: array<Word>, Y1: array<Word>, X2: array<Word>, Y2: array<Word>, t5: array<Word>, t6: array<Word>, p: array<Word>)
    requires IsModulus(p) && Residue(X1, p) && Residue(Y1, p) && Residue(X2, p) && Residue(Y2, p)
    requires t5.Length == t6.Length == 8 && t5 != p && t6 != p && t5 != t6
    requires Distinct4(X1, Y1, X2, Y2) && Distinct4(X1, Y1, X2, t5) && Distinct4(X1, Y1, X2, t6) && Y2 != t5 && Y2 != t6
    modifies X1, Y1, X2, Y2, t5, t6
    ensures Residue(X1, p) && Residue(Y1, p) && Residue(X2, p) && Residue(Y2, p) && Residue(t5, p) && Residue(t6, p)
    ensures var q := old(PairOf(X1, Y1, X2, Y2));
      var t := CoZ.AddCShared(PRIME, q);
      && Fe(X1) == t.b && Fe(Y1) == t.g && Fe(t6) == t.h && Fe(t5) == t.s
      && CoZ.Coords(Fe(X2), Fe(Y2)) == CoZ.Second(CoZ.AddCFinish(PRIME, t))
  {
    hide V, Fe, FAdd, FSub, FMul, P_WORDS, IsModulus;
    var t7 := new Word[8];
    FieldSub(t5, X2, X1, p);
    FieldMul(t5, t5, t5, p);
    FieldMul(X1, X1, t5, p);
    FieldMul(X2, X2, t5, p);
    FieldAdd(t5, Y2, Y1, p);
    FieldSub(Y2, Y2, Y1, p);

    FieldSub(t6, X2, X1, p);
    FieldMul(Y1, Y1, t6, p);
    FieldAdd(t6, X1, X2, p);
    FieldMul(X2, Y2, Y2, p);
    FieldSub(X2, X2, t6, p);

    FieldSub(t7, X1, X2, p);
    FieldMul(Y2, Y2, t7, p);
    FieldSub(Y2, Y2, Y1, p);
  }

  /** The last lines of XYcZ_addC: the difference, with its abscissa in t7. */
  method ConjugateResult(X1: array<Word>, Y1: array<Word>, t5: array<Word>, t6: array<Word>, t7: array<Word>, p: array<Word>)
    requires IsModulus(p) && Residue(X1, p) && Residue(Y1, p) && Residue(t5, p) && Residue(t6, p)
    requires t7.Length == 8 && t7 !in {X1, Y1, t5, t6, p} && Distinct4(X1, Y1, t5, t6)
    modifies Y1, t6, t7
    ensures Residue(Y1, p) && Residue(t7, p)
    ensures var b, g, s, h := Fe(X1), old(Fe(Y1)), Fe(t5), old(Fe(t6));
      && Fe(t7) == FSub(PRIME, FMul(PRIME, s, s), h)
      && Fe(Y1) == FSub(PRIME, FMul(PRIME, FSub(PRIME, Fe(t7), b), s), g)
  {
    hide V, Fe, FAdd, FSub, FMul, P_WORDS, IsModulus;
    FieldMul(t7, t5, t5, p);
    FieldSub(t7, t7, t6, p);
    FieldSub(t6, t7, X1, p);
    FieldMul(t6, t6, t5, p);
    FieldSub(Y1, t6, Y1, p);
  }

  method XYcZAddC(X1: array<Word>, Y1: array<Word>, X2: array<Word>, Y2: array<Word>, p: array<Word>)
    requires IsModulus(p) && Residue(X1, p) && Residue(Y1, p) && Residue(X2, p) && Residue(Y2, p)
    requires Distinct4(X1, Y1, X2, Y2)
    modifies X1, Y1, X2, Y2
    ensures Residue(X1, p) && Residue(Y1, p) && Residue(X2, p) && Residue(Y2, p)
    ensures PairOf(X1, Y1, X2, Y2) == CoZ.AddC(PRIME, old(PairOf(X1, Y1, X2, Y2)))
  {
    hide V, Fe, FAdd, FSub, FMul, P_WORDS, IsModulus, CoZ.AddCShared;
    var t5, t6, t7 := new Word[8], new Word[8], new Word[8];
    SharedProducts(X1, Y1, X2, Y2, t5, t6, p);
    ConjugateResult(X1, Y1, t5, t6, t7, p);

    ghost var x4 := Fe(t7);
    Copy(X1, t7);
    assert Fe(X1) == x4;
  }

  /** apply_z */
  method ApplyZ(X1: array<Word>, Y1: array<Word>, Z: array<Word>, p: array<Word>)
    requires IsModulus(p) && X1.Length == Y1.Length == Z.Length == 8
    requires X1 != p && Y1 != p && X1 != Y1 && X1 != Z && Y1 != Z
    modifies X1, Y1
    ensures Residue(X1, p) && Residue(Y1, p)
    ensures CoZ.Coords(Fe(X1), Fe(Y1)) == CoZ.ApplyZ(PRIME, CoZ.Coords(old(Fe(X1)), old(Fe(Y1))), Fe(Z))
  {
    hide V, Fe, FMul, P_WORDS, IsModulus;
    var t1 := new Word[8];
    FieldMul(t1, Z, Z, p);
    FieldMul(X1, X1, t1, p);
    FieldMul(t1, t1, Z, p);
    FieldMul(Y1, Y1, t1, p);
  }

  lemma PrimeOdd()
    ensures PRIME % 2 == 1 && PRIME > 3
  {
    PrimeValue();
  }

  /** The halving block of the doubling: an odd residue gets the prime added first. */
  method HalveInPlace(X1: array<Word>, p: array<Word>)
    requires IsModulus(p) && Residue(X1, p)
    modifies X1
    ensures Residue(X1, p) && Fe(X1) == CoZ.Halve(PRIME, old(Fe(X1)))
  {
    hide Val, BPow, P_WORDS;
    ModulusValue(p);
    var odd := TestBit(X1, 0);
    assert X1[..8] == X1[..] && Bit(Fe(X1), 0) == Fe(X1) % 2;
    PrimeOdd();
    if odd != 0 {
      HalveOdd(X1, p);
    } else {
      assert X1[0..0 + 8] == X1[..8];
      RShift1(X1, 0, 8);
      assert X1[0..0 + 8] == X1[..8];
    }
  }

  /** The odd case: the carry of the addition enters at the top. */
  method HalveOdd(X1: array<Word>, p: array<Word>)
    requires X1.Length == p.Length == 8 && X1 != p
    modifies X1
    ensures Fe(X1) == (old(Fe(X1)) + Fe(p)) / 2
  {
    hide Val, BPow, Or;
    var carry := Add(X1, X1, p, 8);
    assert X1[0..0 + 8] == X1[..8];
    RShift1(X1, 0, 8);
    assert X1[0..0 + 8] == X1[..8];
    ghost var s := X1[..8];
    ShiftWord(2 * X1[7], carry);
    X1[7] := Or(X1[7], carry * HIGH_BIT_SET);
    ChangeTop(s, X1[..8]);
    BPowEven(8);
    MulAssoc(BPow(7), HIGH_BIT_SET, carry);
  }

  ghost function JacobianOf(x: array<Word>, y: array<Word>, z: array<Word>): CoZ.Jacobian
    requires x.Length == y.Length == z.Length == 8
    reads x, y, z
  {
    CoZ.Jacobian(Fe(x), Fe(y), Fe(z))
  }

  /** The first half of the doubling: X1 becomes the tangent slope B, t5 is A, t4 is y^4 and Y1 is y z. */
  method TangentProducts(X1: array<Word>, Y1: array<Word>, Z1: array<Word>, t4: array<Word>, t5: array<Word>, p: array<Word>)
    requires IsModulus(p) && Residue(X1, p) && Residue(Y1, p) && Residue(Z1, p)
    requires t4.Length == t5.Length == 8 && t4 != p && t5 != p && t4 != t5
    requires Distinct4(X1, Y1, Z1, t4) && Distinct4(X1, Y1, Z1, t5)
    modifies X1, Y1, Z1, t4, t5
    ensures Residue(X1, p) && Residue(Y1, p) && Residue(Z1, p) && Residue(t4, p) && Residue(t5, p)
    ensures var q := old(JacobianOf(X1, Y1, Z1));
      var y2 := FMul(PRIME, q.y, q.y);
      var z2 := FMul(PRIME, q.z, q.z);
      var s := FAdd(PRIME, q.x, z2);
      var m := FMul(PRIME, s, FSub(PRIME, s, FAdd(PRIME, z2, z2)));
      && Fe(t4) == FMul(PRIME, y2, y2) && Fe(t5) == FMul(PRIME, q.x, y2) && Fe(Y1) == FMul(PRIME, q.y, q.z)
      && Fe(X1) == CoZ.Halve(PRIME, FAdd(PRIME, m, FAdd(PRIME, m, m)))
  {
    hide V, Fe, FAdd, FSub, FMul, P_WORDS, IsModulus, CoZ.Halve;
    FieldMul(t4, Y1, Y1, p);
    FieldMul(t5, X1, t4, p);
    FieldMul(t4, t4, t4, p);
    FieldMul(Y1, Y1, Z1, p);
    FieldMul(Z1, Z1, Z1, p);

    FieldAdd(X1, X1, Z1, p);
    FieldAdd(Z1, Z1, Z1, p);
    FieldSub(Z1, X1, Z1, p);
    FieldMul(X1, X1, Z1, p);

    FieldAdd(Z1, X1, X1, p);
    FieldAdd(X1, X1, Z1, p);
    HalveInPlace(X1, p);
  }

  /** The second half: from B in X1, A in t5 and y^4 in t4, the new x in Z1 and the new y in t4. */
  method TangentResult(X1: array<Word>, Z1: array<Word>, t4: array<Word>, t5: array<Word>, p: array<Word>)
    requires IsModulus(p) && Residue(X1, p) && Residue(t4, p) && Residue(t5, p) && Z1.Length == 8 && Z1 != p
    requires Distinct4(X1, Z1, t4, t5)
    modifies X1, Z1, t4, t5
    ensures Residue(Z1, p) && Residue(t4, p)
    ensures var b, a, y4 := old(Fe(X1)), old(Fe(t5)), old(Fe(t4));
      && Fe(Z1) == FSub(PRIME, FSub(PRIME, FMul(PRIME, b, b), a), a)
      && Fe(t4) == FSub(PRIME, FMul(PRIME, b, FSub(PRIME, a, Fe(Z1))), y4)
  {
    hide V, Fe, FAdd, FSub, FMul, P_WORDS, IsModulus;
    FieldMul(Z1, X1, X1, p);
    FieldSub(Z1, Z1, t5, p);
    FieldSub(Z1, Z1, t5, p);
    FieldSub(t5, t5, Z1, p);
    FieldMul(X1, X1, t5, p);
    FieldSub(t4, X1, t4, p);
  }

  method DoubleJacobian(X1: array<Word>, Y1: array<Word>, Z1: array<Word>, p: array<Word>)
    requires IsModulus(p) && Residue(X1, p) && Residue(Y1, p) && Residue(Z1, p)
    requires X1 != Y1 && X1 != Z1 && Y1 != Z1
    modifies X1, Y1, Z1
    ensures Residue(X1, p) && Residue(Y1, p) && Residue(Z1, p)
    ensures JacobianOf(X1, Y1, Z1) == CoZ.Double(PRIME, old(JacobianOf(X1, Y1, Z1)))
  {
    hide V, FAdd, FSub, FMul, P_WORDS, IsModulus, CoZ.Halve;
    var zero := IsZero(Z1, 8);
    if zero {
      return;
    }
    hide Fe;
    var t4, t5 := new Word[8], new Word[8];
    TangentProducts(X1, Y1, Z1, t4, t5, p);

    TangentResult(X1, Z1, t4, t5, p);

    ghost var x3, y3, z3 := Fe(Z1), Fe(t4), Fe(Y1);
    Copy(X1, Z1);
    Copy(Z1, Y1);
    Copy(Y1, t4);
    assert Fe(X1) == x3 && Fe(Y1) == y3 && Fe(Z1) == z3;
  }

  /** The initial denominator: the given one, or one when there is none. */
  ghost function InitialZ(initialZ: array?<Word>): int
    requires initialZ != null ==> initialZ.Length == 8
    reads initialZ
  {
    if initialZ == null then 1 else Fe(initialZ)
  }

  method XYcZInitialDouble(X1: array<Word>, Y1: array<Word>, X2: array<Word>, Y2: array<Word>,
                           initialZ: array?<Word>, p: array<Word>)
    requires IsModulus(p) && X1.Length == Y1.Length == X2.Length == Y2.Length == 8
    requires X1 != p && Y1 != p && X2 != p && Y2 != p && Distinct4(X1, Y1, X2, Y2)
    requires initialZ != null ==> Residue(initialZ, p) && initialZ !in {X1, Y1, X2, Y2}
    modifies X1, Y1, X2, Y2
    ensures Residue(X1, p) && Residue(Y1, p) && Residue(X2, p) && Residue(Y2, p)
    ensures PairOf(X1, Y1, X2, Y2)
         == CoZ.InitialDouble(PRIME, CoZ.Coords(old(Fe(X1)), old(Fe(Y1))), old(InitialZ(initialZ)))
  {
    hide V, Val, P_WORDS, IsModulus, CoZ.Double, CoZ.ApplyZ;
    var z := new Word[8];
    if initialZ != null {
      Copy(z, initialZ);
    } else {
      Clear(z, 8);
      z[0] := 1;
      OneInArray(z);
    }
    hide Fe;
    assert Fe(z) == InitialZ(initialZ) < PRIME;
    Copy(X2, X1);
    Copy(Y2, Y1);
    ApplyZ(X1, Y1, z, p);
    DoubleJacobian(X1, Y1, z, p);
    ApplyZ(X2, Y2, z, p);
  }

  lemma OneInArray(z: array<Word>)
    requires z.Length == 8 && z[0] == 1 && forall j :: 0 < j < 8 ==> z[j] == 0
    ensures Fe(z) == 1
  {
    OneValue(z[..8]);
  }

  // ----- the ladder -----

  /** The four arrays of the two slots. */
  datatype Slots = Slots(x0: array<Word>, y0: array<Word>, x1: array<Word>, y1: array<Word>) {
    function X(slot: int): array<Word> { if slot == 1 then x1 else x0 }
    function Y(slot: int): array<Word> { if slot == 1 then y1 else y0 }

    ghost predicate Valid(p: array<Word>)
      reads x0, y0, x1, y1
    {
      Distinct4(x0, y0, x1, y1) && Residue(x0, p) && Residue(y0, p) && Residue(x1, p) && Residue(y1, p)
    }

    ghost function Value(): CoZ.Pair
      requires x0.Length == y0.Length == x1.Length == y1.Length == 8
      reads x0, y0, x1, y1
    {
      PairOf(x0, y0, x1, y1)
    }
  }

  method ConjugateSlots(r: Slots, nb: int, p: array<Word>)
    requires IsModulus(p) && r.Valid(p) && 0 <= nb <= 1
    modifies r.x0, r.y0, r.x1, r.y1
    ensures r.Valid(p)
    ensures r.Value() == Ladder.Conjugate(PRIME, old(r.Value()), 1 - nb)
  {
    hide Fe, P_WORDS, IsModulus, CoZ.AddC;
    XYcZAddC(r.X(1 - nb), r.Y(1 - nb), r.X(nb), r.Y(nb), p);
  }

  method FinishSlots(r: Slots, nb: int, p: array<Word>)
    requires IsModulus(p) && r.Valid(p) && 0 <= nb <= 1
    modifies r.x0, r.y0, r.x1, r.y1
    ensures r.Valid(p)
    ensures r.Value() == Ladder.Finish(PRIME, old(r.Value()), 1 - nb)
  {
    hide Fe, P_WORDS, IsModulus, CoZ.Add;
    XYcZAdd(r.X(nb), r.Y(nb), r.X(1 - nb), r.Y(1 - nb), p);
  }

  /** nb = !testBit(scalar, i) */
  method NotBit(scalar: array<Word>, i: nat) returns (nb: int)
    requires i / 32 < scalar.Length
    ensures 0 <= nb <= 1 && 1 - nb == Bit(Val(scalar[..]), i)
  {
    var r := TestBit(scalar, i);
    return B2n(r == 0);
  }

  lemma {:induction false} RunStep(q: CoZ.Pair, scalar: nat, i: nat)
    requires i > 0
    ensures Ladder.Run(PRIME, q, scalar, i, 0)
         == Ladder.Run(PRIME, Ladder.Step(PRIME, q, Bit(scalar, i)), scalar, i - 1, 0)
  {
  }

  /** The steps for the bits numBits - 2 down to 1. */
  method LadderLoop(r: Slots, scalar: array<Word>, numBits: nat, p: array<Word>)
    requires IsModulus(p) && r.Valid(p) && numBits >= 2 && (numBits - 2) / 32 < scalar.Length
    requires scalar !in {r.x0, r.y0, r.x1, r.y1}
    modifies r.x0, r.y0, r.x1, r.y1
    ensures r.Valid(p)
    ensures r.Value() == Ladder.Run(PRIME, old(r.Value()), Val(scalar[..]), numBits - 2, 0)
  {
    hide Val, Fe, P_WORDS, IsModulus, Ladder.Conjugate, Ladder.Finish, Bit;
    ghost var s := Val(scalar[..]);
    ghost var all := Ladder.Run(PRIME, r.Value(), s, numBits - 2, 0);
    var i := numBits - 2;
    while i > 0
      invariant 0 <= i <= numBits - 2 && r.Valid(p) && s == Val(scalar[..])
      invariant all == Ladder.Run(PRIME, r.Value(), s, i, 0)
    {
      RunStep(r.Value(), s, i);
      var nb := NotBit(scalar, i);
      ConjugateSlots(r, nb, p);
      FinishSlots(r, nb, p);
      i := i - 1;
    }
  }

  /** The denominator recovery before the last addition, with the inverse it used. */
  method RecoverZ(z: array<Word>, r: Slots, pointX: array<Word>, pointY: array<Word>, nb: int, p: array<Word>)
    returns (ghost inv: int)
    requires IsModulus(p) && r.Valid(p) && 0 <= nb <= 1 && z.Length == 8 && z != p
    requires pointX.Length == pointY.Length == 8
    requires z !in {r.x0, r.y0, r.x1, r.y1, pointX, pointY}
    modifies z
    ensures var pt := CoZ.Coords(Fe(pointX), Fe(pointY));
      && Inverts(inv, Ladder.ToInvert(PRIME, pt, r.Value(), 1 - nb), PRIME)
      && Fe(z) == FMul(PRIME, FMul(PRIME, inv, pt.y), CoZ.First(Ladder.Arrange(r.Value(), 1 - nb)).x)
  {
    hide Val, P_WORDS, FMul, FSub, Inverts;
    ModulusValue(p);
    PrimeOdd();
    FieldSub(z, r.x1, r.x0, p);
    FieldMul(z, z, r.Y(1 - nb), p);
    FieldMul(z, z, pointX, p);
    ModInv(z, z, p, 8);
    inv := Fe(z);
    FieldMul(z, z, pointY, p);
    FieldMul(z, z, r.X(1 - nb), p);
  }

  /** From the last conjugate addition to the affine result in slot 0. */
  method LastAddition(r: Slots, pointX: array<Word>, pointY: array<Word>, nb: int, p: array<Word>)
    returns (ghost inv: int)
    requires IsModulus(p) && r.Valid(p) && 0 <= nb <= 1 && pointX.Length == pointY.Length == 8
    requires pointX !in {r.x0, r.y0, r.x1, r.y1} && pointY !in {r.x0, r.y0, r.x1, r.y1}
    modifies r.x0, r.y0, r.x1, r.y1
    ensures r.Valid(p)
    ensures var pt := CoZ.Coords(Fe(pointX), Fe(pointY));
      && Inverts(inv, Ladder.ToInvert(PRIME, pt, old(r.Value()), 1 - nb), PRIME)
      && CoZ.Coords(Fe(r.x0), Fe(r.y0)) == Ladder.LastBit(PRIME, pt, old(r.Value()), 1 - nb, inv)
  {
    hide Val, Fe, P_WORDS, IsModulus, Inverts, Ladder.Finish, Ladder.ToInvert, CoZ.ApplyZ, FMul;
    var z := new Word[8];
    inv := RecoverZ(z, r, pointX, pointY, nb, p);
    FinishSlots(r, nb, p);
    ApplyZ(r.x0, r.y0, z, p);
  }

  /** The slots after the doubling and all bits but the last. */
  method AllButLast(r: Slots, pointX: array<Word>, pointY: array<Word>, scalar: array<Word>,
                    initialZ: array?<Word>, numBits: nat, p: array<Word>)
    requires IsModulus(p) && pointX.Length == pointY.Length == 8
    requires r.x0.Length == r.y0.Length == r.x1.Length == r.y1.Length == 8 && Distinct4(r.x0, r.y0, r.x1, r.y1)
    requires p !in {r.x0, r.y0, r.x1, r.y1} && scalar !in {r.x0, r.y0, r.x1, r.y1}
    requires pointX !in {r.x0, r.y0, r.x1, r.y1} && pointY !in {r.x0, r.y0, r.x1, r.y1}
    requires numBits >= 2 && (numBits - 2) / 32 < scalar.Length
    requires initialZ != null ==> Residue(initialZ, p) && initialZ !in {r.x0, r.y0, r.x1, r.y1}
    modifies r.x0, r.y0, r.x1, r.y1
    ensures r.Valid(p)
    ensures r.Value() == Ladder.BeforeLast(PRIME, CoZ.Coords(Fe(pointX), Fe(pointY)), Val(scalar[..]), InitialZ(initialZ), numBits)
  {
    hide Val, Fe, P_WORDS, IsModulus, CoZ.InitialDouble, Ladder.Run;
    Copy(r.x1, pointX);
    Copy(r.y1, pointY);
    XYcZInitialDouble(r.x1, r.y1, r.x0, r.y0, initialZ, p);
    LadderLoop(r, scalar, numBits, p);
  }

  /** The whole computation in the slots; the affine result is left in slot 0. */
  method MultiplyInSlots(r: Slots, pointX: array<Word>, pointY: array<Word>, scalar: array<Word>,
                         initialZ: array?<Word>, numBits: nat, p: array<Word>)
    requires IsModulus(p) && pointX.Length == pointY.Length == 8
    requires r.x0.Length == r.y0.Length == r.x1.Length == r.y1.Length == 8 && Distinct4(r.x0, r.y0, r.x1, r.y1)
    requires p !in {r.x0, r.y0, r.x1, r.y1} && scalar !in {r.x0, r.y0, r.x1, r.y1}
    requires pointX !in {r.x0, r.y0, r.x1, r.y1} && pointY !in {r.x0, r.y0, r.x1, r.y1}
    requires numBits >= 2 && (numBits - 2) / 32 < scalar.Length
    requires initialZ != null ==> Residue(initialZ, p) && initialZ !in {r.x0, r.y0, r.x1, r.y1}
    modifies r.x0, r.y0, r.x1, r.y1
    ensures r.Valid(p)
    ensures Ladder.IsPointMult(PRIME, CoZ.Coords(Fe(pointX), Fe(pointY)), Val(scalar[..]), old(InitialZ(initialZ)),
                               numBits, CoZ.Coords(Fe(r.x0), Fe(r.y0)))
  {
    hide Val, Fe, P_WORDS, IsModulus, InitialZ, Inverts, Bit, Ladder.BeforeLast, Ladder.Conjugate, Ladder.ToInvert, Ladder.LastBit;
    PrimeOdd();
    AllButLast(r, pointX, pointY, scalar, initialZ, numBits, p);
    var nb := NotBit(scalar, 0);
    ConjugateSlots(r, nb, p);
    ghost var inv := LastAddition(r, pointX, pointY, nb, p);
  }

  /** EccPoint_mult; the result may overlap the point. */
  method EccPointMult(resultX: array<Word>, resultY: array<Word>, pointX: array<Word>, pointY: array<Word>,
                      scalar: array<Word>, initialZ: array?<Word>, numBits: nat, p: array<Word>)
    requires IsModulus(p) && resultX.Length == resultY.Length == pointX.Length == pointY.Length == 8
    requires resultX != resultY && resultX != p && resultY != p
    requires numBits >= 2 && (numBits - 2) / 32 < scalar.Length
    requires initialZ != null ==> Residue(initialZ, p)
    modifies resultX, resultY
    ensures Ladder.IsPointMult(PRIME, CoZ.Coords(old(Fe(pointX)), old(Fe(pointY))), old(Val(scalar[..])),
                               old(InitialZ(initialZ)), numBits, CoZ.Coords(Fe(resultX), Fe(resultY)))
    ensures Fe(resultX) < PRIME && Fe(resultY) < PRIME
  {
    hide Val, Fe, P_WORDS, IsModulus, InitialZ, Ladder.IsPointMult;
    PrimeOdd();
    var x0, y0, x1, y1 := new Word[8], new Word[8], new Word[8], new Word[8];
    var r := Slots(x0, y0, x1, y1);
    MultiplyInSlots(r, pointX, pointY, scalar, initialZ, numBits, p);
    ghost var out := CoZ.Coords(Fe(x0), Fe(y0));
    Copy(resultX, x0);
    Copy(resultY, y0);
    assert CoZ.Coords(Fe(resultX), Fe(resultY)) == out;
  }
}
