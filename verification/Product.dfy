/**
 Column-wise (Comba) multiplication: each result word is produced once, from a three-word
 accumulator that collects a whole diagonal of partial products.
 */
module Product {
  import opened Arith
  import opened Words
  import opened Vli

  // ----- the sums behind the loops -----

  /** The partial product of row i in column k. */
  ghost function Term(l: seq<Word>, r: seq<Word>, i: nat, k: nat): int
    requires i < |l|
  {
    if 0 <= k - i < |r| then (l[i] as int) * (r[k - i] as int) else 0
  }

  /** Column k, rows 0 to m-1. */
  ghost function Col(l: seq<Word>, r: seq<Word>, m: nat, k: nat): int
    requires m <= |l|
  {
    if m == 0 then 0 else Col(l, r, m - 1, k) + Term(l, r, m - 1, k)
  }

  /** Columns 0 to c-1 with their weights. */
  ghost function Cols(l: seq<Word>, r: seq<Word>, m: nat, c: nat): int
    requires m <= |l|
  {
    if c == 0 then 0 else Cols(l, r, m, c - 1) + BPow(c - 1) * Col(l, r, m, c - 1)
  }

  /** Row i, columns 0 to c-1 with their weights. */
  ghost function Row(l: seq<Word>, r: seq<Word>, i: nat, c: nat): int
    requires i < |l|
  {
    if c == 0 then 0 else Row(l, r, i, c - 1) + BPow(c - 1) * Term(l, r, i, c - 1)
  }

  lemma {:induction false} ColsAddRow(l: seq<Word>, r: seq<Word>, m: nat, c: nat)
    requires m < |l|
    ensures Cols(l, r, m + 1, c) == Cols(l, r, m, c) + Row(l, r, m, c)
  {
    if c > 0 {
      ColsAddRow(l, r, m, c - 1);
      MulDistrib(BPow(c - 1), Col(l, r, m, c - 1), Term(l, r, m, c - 1));
    }
  }

  /** A row is one word times the right operand, as far as the columns reach. */
  lemma {:induction false} RowValue(l: seq<Word>, r: seq<Word>, i: nat, c: nat)
    requires i < |l| && c <= i + |r|
    ensures Row(l, r, i, c) == (BPow(i) * l[i]) * Val(r[..if c <= i then 0 else c - i])
  {
    if c == 0 {
      ValEmpty(r[..0]);
    } else {
      RowValue(l, r, i, c - 1);
      if c <= i {
        ValEmpty(r[..0]);
      } else {
        var j := c - 1 - i;
        ValStep(r, j);
        BPowAdd(i, j);
        RowDigit(BPow(i), BPow(j), l[i], Val(r[..j]), r[j]);
      }
    }
  }

  lemma RowDigit(p: int, q: int, w: int, v: int, d: int)
    ensures (p * w) * (v + q * d) == (p * w) * v + (p * q) * (w * d)
  {
    MulDistrib(p * w, v, q * d);
    MulAssoc(p, w, q * d);
    MulAssoc(p, q, w * d);
  }

  lemma {:induction false} RowFull(l: seq<Word>, r: seq<Word>, i: nat, c: nat)
    requires i < |l| && i + |r| <= c
    ensures Row(l, r, i, c) == (BPow(i) * l[i]) * Val(r)
  {
    if c == i + |r| {
      RowValue(l, r, i, c);
      assert r[..|r|] == r;
    } else {
      RowFull(l, r, i, c - 1);
    }
  }

  /** All columns together are the product. */
  lemma {:induction false} ColumnsAreProduct(l: seq<Word>, r: seq<Word>, m: nat, c: nat)
    requires m <= |l| && m + |r| <= c + 1
    ensures Cols(l, r, m, c) == Val(l[..m]) * Val(r)
  {
    if m == 0 {
      ColsNoRows(l, r, c);
      ValEmpty(l[..0]);
    } else {
      ColumnsAreProduct(l, r, m - 1, c);
      ColsAddRow(l, r, m - 1, c);
      RowFull(l, r, m - 1, c);
      ValStep(l, m - 1);
      ProductRow(Val(l[..m - 1]), BPow(m - 1) * l[m - 1], Val(r));
    }
  }

  lemma ProductRow(a: int, b: int, c: int)
    ensures (a + b) * c == a * c + b * c
  {
  }

  lemma {:induction false} ColsNoRows(l: seq<Word>, r: seq<Word>, c: nat)
    ensures Cols(l, r, 0, c) == 0
  {
    if c > 0 { ColsNoRows(l, r, c - 1); }
  }

  /** Rows below the diagonal add nothing to a column. */
  lemma {:induction false} ColAbove(l: seq<Word>, r: seq<Word>, m: nat, k: nat)
    requires k < m <= |l|
    ensures Col(l, r, m, k) == Col(l, r, k + 1, k)
  {
    if m > k + 1 { ColAbove(l, r, m - 1, k); }
  }

  /** Rows that end before column k add nothing to it. */
  lemma {:induction false} ColBelow(l: seq<Word>, r: seq<Word>, m: nat, k: nat)
    requires m <= |l| && m + |r| <= k + 1
    ensures Col(l, r, m, k) == 0
  {
    if m > 0 { ColBelow(l, r, m - 1, k); }
  }

  // ----- the loops -----

  /** The accumulator r2:r1:r0. */
  function Acc(r0: Word, r1: Word, r2: Word): nat {
    r0 + BASE * r1 + BASE * BASE * r2
  }

  const ACC_LIMIT: nat := BASE * BASE * BASE

  lemma WordProduct(a: Word, b: Word)
    ensures 0 <= a * b <= (BASE - 1) * (BASE - 1)
  {
    MulMono(a, 0, b);
    MulMono(a, b, BASE - 1);
    MulMono(BASE - 1, a, BASE - 1);
  }

  method MulAdd(a: Word, b: Word, r0: Word, r1: Word, r2: Word) returns (s0: Word, s1: Word, s2: Word)
    requires Acc(r0, r1, r2) + a * b < ACC_LIMIT
    ensures Acc(s0, s1, s2) == Acc(r0, r1, r2) + a * b
  {
    WordProduct(a, b);
    var p := a * b;
    var r01 := r1 * BASE + r0;
    r01 := (r01 + p) % (BASE * BASE);
    s2 := (r2 + B2n(r01 < p)) % BASE;
    s1 := r01 / BASE;
    s0 := r01 % BASE;
  }

  /** What a column can add at most, so that the accumulator never overflows. */
  ghost function AccBound(n: nat, i: nat): nat {
    n * (BASE - 1) + i * ((BASE - 1) * (BASE - 1))
  }

  lemma AccBoundStep(n: nat, i: nat, a: Word, b: Word)
    requires i < n <= BASE
    ensures AccBound(n, i) + a * b <= AccBound(n, i + 1) < ACC_LIMIT
    ensures AccBound(n, i + 1) <= n * (BASE - 1) * BASE
  {
    WordProduct(a, b);
    assert AccBound(n, i + 1) <= AccBound(n, n) == n * (BASE - 1) * BASE;
  }

  /** Storing the low word and shifting the accumulator keeps the total. */
  lemma ShiftAcc(p: int, r0: int, rest: int, v: int, t: int)
    requires v + p * (r0 + BASE * rest) == t
    ensures (v + p * r0) + (BASE * p) * rest == t
  {
    MulDistrib(p, r0, BASE * rest);
  }

  /** The words stored so far and the accumulator hold exactly the columns done so far. */
  ghost predicate Column(low: seq<Word>, l: seq<Word>, r: seq<Word>, r0: Word, r1: Word)
  {
    && Val(low) + BPow(|low|) * Acc(r0, r1, 0) == Cols(l, r, |l|, |low|)
    && Acc(r0, r1, 0) <= |l| * (BASE - 1)
  }

  lemma FirstColumn(l: seq<Word>, r: seq<Word>)
    ensures Column([], l, r, 0, 0)
  {
  }

  lemma ColumnBound(low: seq<Word>, l: seq<Word>, r: seq<Word>, r0: Word, r1: Word)
    requires Column(low, l, r, r0, r1)
    ensures Acc(r0, r1, 0) <= |l| * (BASE - 1)
  {
  }

  /** Finishing a column. */
  lemma ColumnStep(low: seq<Word>, l: seq<Word>, r: seq<Word>,
                   q0: Word, q1: Word, r0: Word, r1: Word, r2: Word)
    requires |l| > 0 && Column(low, l, r, q0, q1)
    requires Acc(r0, r1, r2) == Acc(q0, q1, 0) + Col(l, r, |l|, |low|) <= |l| * (BASE - 1) * BASE
    ensures Column(low + [r0], l, r, r1, r2)
  {
    var k, p := |low|, BPow(|low|);
    var t := Cols(l, r, |l|, k);
    assert Cols(l, r, |l|, k + 1) == t + p * Col(l, r, |l|, k);
    assert BPow(k + 1) == BASE * p;
    ValSnoc(low, r0);
    hide Val, Col, Cols, BPow;
    MulDistrib(p, Acc(q0, q1, 0), Col(l, r, |l|, k));
    ShiftAcc(p, r0, Acc(r1, r2, 0), Val(low), t + p * Col(l, r, |l|, k));
    assert r0 + BASE * Acc(r1, r2, 0) == Acc(r0, r1, r2);
  }

  lemma ValSnoc(low: seq<Word>, d: Word)
    ensures Val(low + [d]) == Val(low) + BPow(|low|) * d
  {
    assert (low + [d])[..|low|] == low;
  }

  /** The last word: what is left in the accumulator is a single word. */
  lemma LastWord(low: seq<Word>, l: seq<Word>, r: seq<Word>, r0: Word, r1: Word)
    requires |l| == |r| > 0 && |low| == 2 * |l| - 1
    requires Column(low, l, r, r0, r1)
    ensures r1 == 0 && Val(low + [r0]) == Val(l) * Val(r)
  {
    hide Val, BPow, Cols;
    ColumnsAreProduct(l, r, |l|, |low|);
    assert l[..|l|] == l;
    ValBound(l);
    ValBound(r);
    BPowAdd(|l|, |l|);
    BPowNext(|low|);
    ValSnoc(low, r0);
    ProductBound(Val(l), BPow(|l|), Val(r), BPow(|l|));
    NoUpperWord(BPow(|low|), Val(low), r0, r1, Val(l) * Val(r));
  }

  lemma BPowNext(k: nat)
    ensures BPow(k + 1) == BASE * BPow(k)
  {
  }

  lemma NoUpperWord(p: int, v: int, r0: Word, r1: Word, t: int)
    requires p > 0 && 0 <= v && v + p * (r0 + BASE * r1) == t < BASE * p
    ensures r1 == 0
  {
    if r1 > 0 {
      MulMono(p, BASE, r0 + BASE * r1);
    }
  }

  lemma ProductBound(a: int, p: int, b: int, q: int)
    requires 0 <= a < p && 0 <= b < q
    ensures 0 <= a * b < p * q
  {
    MulMono(a, 0, b);
    MulMono(a, b, q);
    MulMono(q, a + 1, p);
    MulDistrib(q, a, 1);
  }

  /** The inner loop: rows lo to hi-1 of column k are added to the accumulator r1:r0. */
  method ColumnSum(left: array<Word>, right: array<Word>, n: nat, k: nat, lo: nat, hi: nat,
                   q0: Word, q1: Word)
    returns (r0: Word, r1: Word, r2: Word)
    requires 1 <= n <= BASE && n <= left.Length && n <= right.Length
    requires Acc(q0, q1, 0) <= n * (BASE - 1)
    requires if k < n then lo == 0 && hi == k + 1 else k < 2 * n - 1 && lo == k + 1 - n && hi == n
    ensures Acc(r0, r1, r2) == Acc(q0, q1, 0) + Col(left[..n], right[..n], n, k) <= n * (BASE - 1) * BASE
  {
    hide Val, Col, AccBound;
    ghost var l, r := left[..n], right[..n];
    r0, r1, r2 := q0, q1, 0;
    EmptyRows(l, r, lo, k);
    AccBoundStart(n, lo);
    var i := lo;
    while i < hi
      invariant lo <= i <= hi
      invariant Acc(r0, r1, r2) == Acc(q0, q1, 0) + Col(l, r, i, k) <= AccBound(n, i)
    {
      AccBoundStep(n, i, left[i], right[k - i]);
      ColStep(l, r, i, k);
      r0, r1, r2 := MulAdd(left[i], right[k - i], r0, r1, r2);
      i := i + 1;
    }
    if hi < n { ColAbove(l, r, n, k); }
    AccBoundStart(n, hi);
  }

  lemma EmptyRows(l: seq<Word>, r: seq<Word>, lo: nat, k: nat)
    requires lo <= |l| && (lo > 0 ==> lo + |r| <= k + 1)
    ensures Col(l, r, lo, k) == 0
  {
    if lo > 0 { ColBelow(l, r, lo, k); }
  }

  lemma ColStep(l: seq<Word>, r: seq<Word>, i: nat, k: nat)
    requires i < |l| && i <= k < i + |r|
    ensures Col(l, r, i + 1, k) == Col(l, r, i, k) + (l[i] as int) * (r[k - i] as int)
  {
  }

  lemma AccBoundStart(n: nat, i: nat)
    requires i <= n
    ensures n * (BASE - 1) <= AccBound(n, i) <= n * (BASE - 1) * BASE
  {
  }

  /** result = left * right; result has 2n words. */
  method Mult(result: array<Word>, left: array<Word>, right: array<Word>, n: nat)
    requires 1 <= n <= BASE
    requires 2 * n <= result.Length && n <= left.Length && n <= right.Length
    requires result != left && result != right
    modifies result
    ensures V(result, 2 * n) == V(left, n) * V(right, n)
    ensures forall j :: 2 * n <= j < result.Length ==> result[j] == old(result[j])
  {
    hide Val, BPow, Col, Cols, Column;
    ghost var l, r := left[..n], right[..n];
    var r0: Word, r1: Word, r2: Word := 0, 0, 0;
    var k := 0;
    FirstColumn(l, r);
    assert result[..0] == [];
    while k < n
      invariant k <= n && r2 == 0
      invariant Column(result[..k], l, r, r0, r1)
      invariant forall j :: 2 * n <= j < result.Length ==> result[j] == old(result[j])
    {
      ghost var q0, q1, low := r0, r1, result[..k];
      ColumnBound(low, l, r, r0, r1);
      r0, r1, r2 := ColumnSum(left, right, n, k, 0, k + 1, r0, r1);
      result[k] := r0;
      ColumnStep(low, l, r, q0, q1, r0, r1, r2);
      assert result[..k + 1] == low + [r0];
      r0, r1, r2 := r1, r2, 0;
      k := k + 1;
    }
    while k < 2 * n - 1
      invariant n <= k <= 2 * n - 1 && r2 == 0
      invariant Column(result[..k], l, r, r0, r1)
      invariant forall j :: 2 * n <= j < result.Length ==> result[j] == old(result[j])
    {
      ghost var q0, q1, low := r0, r1, result[..k];
      ColumnBound(low, l, r, r0, r1);
      r0, r1, r2 := ColumnSum(left, right, n, k, k + 1 - n, n, r0, r1);
      result[k] := r0;
      ColumnStep(low, l, r, q0, q1, r0, r1, r2);
      assert result[..k + 1] == low + [r0];
      r0, r1, r2 := r1, r2, 0;
      k := k + 1;
    }
    LastWord(result[..k], l, r, r0, r1);
    ghost var low := result[..k];
    result[2 * n - 1] := r0;
    assert result[..2 * n] == low + [r0];
  }
}
