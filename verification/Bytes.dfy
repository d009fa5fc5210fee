/**
 Conversion between big-endian byte strings and little-endian words (sections 2.3.7 and 2.3.8
 of SEC 1).
 */
module Bytes {
  import opened Arith
  import opened Words
  import opened Vli

  type Byte = b: int | 0 <= b < 256

  /** The number a big-endian byte string stands for. */
  ghost function BigEndian(s: seq<Byte>): nat
  {
    if |s| == 0 then 0 else 256 * BigEndian(s[..|s| - 1]) + s[|s| - 1]
  }

  lemma {:induction false} BigEndianBound(s: seq<Byte>)
    ensures BigEndian(s) < Pow2(8 * |s|)
  {
    if |s| > 0 {
      BigEndianBound(s[..|s| - 1]);
      Pow2Of8(8 * (|s| - 1));
    }
  }

  lemma Pow2Of8(k: nat)
    ensures Pow2(k + 8) == 256 * Pow2(k)
  {
    Pow2Add(8, k);
    assert Pow2(8) == 256;
  }

  lemma {:induction false} BigEndianInjective(s: seq<Byte>, t: seq<Byte>)
    requires |s| == |t| && BigEndian(s) == BigEndian(t)
    ensures s == t
  {
    if |s| > 0 {
      var n := |s| - 1;
      QuotientUnique(256, BigEndian(s[..n]), s[n], BigEndian(t[..n]), t[n]);
      BigEndianInjective(s[..n], t[..n]);
      assert s == s[..n] + [s[n]] && t == t[..n] + [t[n]];
    }
  }

  /** A first byte counts with the weight of the bytes after it. */
  lemma {:induction false} BigEndianFirst(b: Byte, s: seq<Byte>)
    ensures BigEndian([b] + s) == b * Pow2(8 * |s|) + BigEndian(s)
  {
    var t := [b] + s;
    if |s| == 0 {
      assert t[..0] == [];
      assert BigEndian([]) == 0 && Pow2(0) == 1;
    } else {
      var n := |s| - 1;
      assert t[..|t| - 1] == [b] + s[..n] && t[|t| - 1] == s[n];
      assert BigEndian(t) == 256 * BigEndian([b] + s[..n]) + s[n];
      hide Pow2;
      BigEndianFirst(b, s[..n]);
      Pow2Of8(8 * n);
      MulAssoc(256, b, Pow2(8 * n));
      MulAssoc(b, 256, Pow2(8 * n));
    }
  }

  /** Byte k of a number. */
  function ByteOf(v: nat, k: nat): (r: Byte) {
    DivModFacts(v, Pow2(8 * k));
    (v / Pow2(8 * k)) % 256
  }

  /** Byte k of the number a word sequence stands for sits in word k / 4. */
  lemma {:induction false} ByteOfVal(s: seq<Word>, k: nat)
    requires k / 4 < |s|
    ensures ByteOf(Val(s), k) == (s[k / 4] / Pow2(8 * (k % 4))) % 256
  {
    hide Val, ByteOf, Pow2;
    var q, r := k / 4, k % 4;
    ByteInUpper(s, q, r);
    ValTail(s, q);
    ByteOfWord(s[q], Val(s[q + 1..]), r);
    ByteOfDef(s[q], r);
  }

  lemma ByteOfDef(v: nat, r: nat)
    ensures Pow2(8 * r) > 0 && ByteOf(v, r) == (v / Pow2(8 * r)) % 256
  {
  }

  lemma ByteInUpper(s: seq<Word>, q: nat, r: nat)
    requires q <= |s|
    ensures ByteOf(Val(s), 4 * q + r) == ByteOf(Val(s[q..]), r)
  {
    hide Val, Pow2;
    assert 8 * (4 * q + r) == 32 * q + 8 * r;
    Pow2Add(32 * q, 8 * r);
    DropWords(s, q, Pow2(8 * r));
  }

  lemma DropWords(s: seq<Word>, q: nat, c: nat)
    requires q <= |s| && c > 0
    ensures Pow2(32 * q) * c > 0 && Val(s) / (Pow2(32 * q) * c) == Val(s[q..]) / c
  {
    hide Val, BPow, Pow2;
    ValSplit(s, q);
    ValBound(s[..q]);
    DivUnique(Val(s), BPow(q), Val(s[q..]), Val(s[..q]));
    BPowIsPow2(q);
    DivDiv(Val(s), Pow2(32 * q), c);
  }

  lemma ByteOfWord(w: Word, h: nat, r: nat)
    requires r < 4
    ensures ByteOf(w + BASE * h, r) == ByteOf(w, r)
  {
    BytePowers();
    hide Pow2;
    if r == 0 { ByteShift(w, h, 1, 0x100_0000); }
    else if r == 1 { ByteShift(w, h, 0x100, 0x1_0000); }
    else if r == 2 { ByteShift(w, h, 0x1_0000, 0x100); }
    else { ByteShift(w, h, 0x100_0000, 1); }
  }

  lemma BytePowers()
    ensures Pow2(0) == 1 && Pow2(8) == 0x100 && Pow2(16) == 0x1_0000 && Pow2(24) == 0x100_0000
  {
    Pow2Of8(0);
    Pow2Of8(8);
    Pow2Of8(16);
  }

  lemma ByteShift(w: Word, h: nat, c: nat, d: nat)
    requires c > 0 && c * (256 * d) == 0x1_0000_0000
    ensures ((w + 0x1_0000_0000 * h) / c) % 256 == (w / c) % 256
  {
    var q, r := w / c, w % c;
    DivModFacts(w, c);
    MulAssoc(c, 256 * d, h);
    MulDistrib(c, q, (256 * d) * h);
    DivUnique(w + 0x1_0000_0000 * h, c, q + (256 * d) * h, r);
    MulAssoc(256, d, h);
    ModShift(q, d * h);
  }

  lemma ModShift(q: int, t: int)
    ensures (q + 256 * t) % 256 == q % 256
  {
  }

  /** The low m bytes of a number, most significant first. */
  ghost function LowBytes(v: nat, m: nat): (s: seq<Byte>)
    ensures |s| == m
  {
    seq(m, i requires 0 <= i < m => ByteOf(v, m - 1 - i))
  }

  lemma {:induction false} LowBytesValue(v: nat, m: nat)
    ensures BigEndian(LowBytes(v, m)) == v % Pow2(8 * m)
  {
    if m == 0 {
      assert Pow2(0) == 1;
    } else {
      LowBytesValue(v, m - 1);
      assert LowBytes(v, m) == [ByteOf(v, m - 1)] + LowBytes(v, m - 1);
      BigEndianFirst(ByteOf(v, m - 1), LowBytes(v, m - 1));
      Pow2Of8(8 * (m - 1));
      ModByte(v, Pow2(8 * (m - 1)));
    }
  }

  lemma ModByte(v: nat, c: nat)
    requires c > 0
    ensures 256 * c > 0 && v % (256 * c) == ((v / c) % 256) * c + v % c
  {
    var q, r := v / c, v % c;
    DivModFacts(v, c);
    var s, t := q / 256, q % 256;
    MulDistrib(c, 256 * s, t);
    MulAssoc(c, 256, s);
    MulMono(c, t, 255);
    MulMono(c, 0, t);
    DivUnique(v, 256 * c, s, t * c + r);
  }

  /** uECC_vli_nativeToBytes, writing from index at. */
  method NativeToBytes(bytes: array<Byte>, at: nat, numBytes: nat, native: array<Word>)
    requires at + numBytes <= bytes.Length && numBytes <= 4 * native.Length
    modifies bytes
    ensures bytes[at..at + numBytes] == LowBytes(Val(native[..]), numBytes)
    ensures forall j :: 0 <= j < bytes.Length && !(at <= j < at + numBytes) ==> bytes[j] == old(bytes[j])
  {
    hide Val, Pow2, ByteOf;
    ghost var v := Val(native[..]);
    var i := 0;
    while i < numBytes
      invariant i <= numBytes
      invariant forall j :: at <= j < at + i ==> bytes[j] == ByteOf(v, numBytes - 1 - (j - at))
      invariant forall j :: 0 <= j < bytes.Length && !(at <= j < at + i) ==> bytes[j] == old(bytes[j])
    {
      var b := numBytes - 1 - i;
      ByteOfVal(native[..], b);
      bytes[at + i] := (native[b / 4] / Pow2(8 * (b % 4))) % 256;
      i := i + 1;
    }
  }

  lemma {:induction false} ValUpdate(s: seq<Word>, q: nat, w: Word)
    requires q < |s|
    ensures Val(s[q := w]) == Val(s) + BPow(q) * (w as int - s[q] as int)
    decreases |s|
  {
    var n := |s| - 1;
    var t := s[q := w];
    if q == n {
      assert t[..n] == s[..n];
      assert Val(t) == Val(s[..n]) + BPow(n) * w && Val(s) == Val(s[..n]) + BPow(n) * s[n];
      hide Val, BPow;
      MulDistrib(BPow(q), w, -(s[q] as int));
    } else {
      assert t[..n] == s[..n][q := w] && t[n] == s[n];
      assert Val(t) == Val(t[..n]) + BPow(n) * t[n] && Val(s) == Val(s[..n]) + BPow(n) * s[n];
      hide Val, BPow;
      ValUpdate(s[..n], q, w);
    }
  }

  /** With t bytes still to come, all lower bytes of the words are zero. */
  ghost predicate LowZero(s: seq<Word>, t: nat)
    requires (t + 3) / 4 <= |s|
  {
    && (forall j :: 0 <= j < t / 4 ==> s[j] == 0)
    && (t % 4 != 0 ==> s[t / 4] % Pow2(8 * (t % 4)) == 0)
  }

  /** Setting byte b in a word whose lower bytes are zero. */
  lemma SetByte(w: Word, byte: Byte, r: nat)
    requires r < 4 && (if r == 3 then w == 0 else w % Pow2(8 * (r + 1)) == 0)
    ensures 0 <= byte * Pow2(8 * r) < BASE
    ensures Or(w, byte * Pow2(8 * r)) == w + byte * Pow2(8 * r) < BASE
    ensures r > 0 ==> (w + byte * Pow2(8 * r)) % Pow2(8 * r) == 0
  {
    hide Pow2, Or;
    if r == 3 {
      SetAligned(w, 0, byte, r);
    } else {
      DivModFacts(w, Pow2(8 * (r + 1)));
      SetAligned(w, w / Pow2(8 * (r + 1)), byte, r);
    }
  }

  lemma SetAligned(w: Word, a: nat, byte: Byte, r: nat)
    requires r < 4 && w == a * Pow2(8 * (r + 1))
    ensures 0 <= byte * Pow2(8 * r) < BASE
    ensures Or(w, byte * Pow2(8 * r)) == w + byte * Pow2(8 * r) < BASE
    ensures (w + byte * Pow2(8 * r)) % Pow2(8 * r) == 0
  {
    hide Pow2, Or;
    var c := Pow2(8 * r);
    ByteSize(byte, r);
    Pow2Of8(8 * r);
    assert 8 * r + 8 == 8 * (r + 1);
    AlignedByte(c, a, byte);
    OrDisjoint(a, byte * c, 8 * (r + 1));
    WordBitwise(w, byte * c);
  }

  lemma ByteSize(byte: Byte, r: nat)
    requires r < 4
    ensures 0 <= byte * Pow2(8 * r) < 256 * Pow2(8 * r) <= BASE
  {
    BytePowers();
    hide Pow2;
    var c := Pow2(8 * r);
    assert c == 1 || c == 0x100 || c == 0x1_0000 || c == 0x100_0000;
    MulMono(c, byte, 255);
    MulMono(c, 0, byte);
  }

  lemma AlignedByte(c: int, a: int, byte: int)
    requires c > 0
    ensures (a * (256 * c) + byte * c) % c == 0
  {
    MulAssoc(a, 256, c);
    MulDistrib(c, a * 256, byte);
    DivUnique(a * (256 * c) + byte * c, c, a * 256 + byte, 0);
  }

  /** The byte that is set next is zero, and so are the bytes below it in its word. */
  lemma FreeByte(s: seq<Word>, t: nat)
    requires t > 0 && (t + 3) / 4 <= |s| && LowZero(s, t)
    ensures var q, r := (t - 1) / 4, (t - 1) % 4;
      if r == 3 then s[q] == 0 else s[q] % Pow2(8 * (r + 1)) == 0
  {
    var q, r := (t - 1) / 4, (t - 1) % 4;
    if r == 3 { assert t / 4 == q + 1; } else { assert t / 4 == q && t % 4 == r + 1; }
  }

  lemma StillZero(s: seq<Word>, t: nat, w: Word)
    requires t > 0 && (t + 3) / 4 <= |s| && LowZero(s, t)
    requires (t - 1) % 4 > 0 ==> w % Pow2(8 * ((t - 1) % 4)) == 0
    ensures (t - 1 + 3) / 4 <= |s| && LowZero(s[(t - 1) / 4 := w], t - 1)
  {
  }

  lemma BigEndianSnoc(bytes: seq<Byte>, i: nat)
    requires i < |bytes|
    ensures BigEndian(bytes[..i + 1]) == 256 * BigEndian(bytes[..i]) + bytes[i]
  {
    assert bytes[..i + 1][..i] == bytes[..i];
  }

  /** One step of the conversion, on the values. */
  lemma ByteStep(s: seq<Word>, bytes: seq<Byte>, i: nat, t: nat, byte: Byte)
    requires t > 0 && (t + 3) / 4 <= |s| && LowZero(s, t) && i < |bytes| && bytes[i] == byte
    requires Val(s) == Pow2(8 * t) * BigEndian(bytes[..i])
    ensures var b := t - 1;
      var w := Or(s[b / 4], byte * Pow2(8 * (b % 4)));
      && 0 <= byte * Pow2(8 * (b % 4)) < BASE && w < BASE
      && LowZero(s[b / 4 := w], b)
      && Val(s[b / 4 := w]) == Pow2(8 * b) * BigEndian(bytes[..i + 1])
  {
    hide Val, Pow2, BPow, Or, LowZero;
    var b := t - 1;
    var q, r := b / 4, b % 4;
    FreeByte(s, t);
    SetByte(s[q], byte, r);
    var w := Or(s[q], byte * Pow2(8 * r));
    StillZero(s, t, w);
    ValUpdate(s, q, w);
    BPowIsPow2(q);
    assert 8 * b == 32 * q + 8 * r;
    Pow2Add(32 * q, 8 * r);
    Pow2Of8(8 * b);
    BigEndianSnoc(bytes, i);
    hide BigEndian;
    ByteStepProduct(Pow2(8 * b), BigEndian(bytes[..i]), byte, BPow(q), Pow2(8 * r));
  }

  lemma ByteStepProduct(c: int, v: int, byte: int, p: int, e: int)
    requires c == p * e
    ensures (256 * c) * v + p * (byte * e) == c * (256 * v + byte)
  {
    MulDistrib(c, 256 * v, byte);
    assert p * (byte * e) == (p * e) * byte by { MulAssoc(p, e, byte); }
    MulAssoc(256, c, v);
  }

  /** uECC_vli_bytesToNative, reading from index at: the words stand for the same number as the bytes. */
  method BytesToNative(native: array<Word>, bytes: array<Byte>, at: nat, numBytes: nat)
    requires at + numBytes <= bytes.Length && (numBytes + 3) / 4 <= native.Length
    modifies native
    ensures V(native, (numBytes + 3) / 4) == BigEndian(bytes[at..at + numBytes])
    ensures forall j :: (numBytes + 3) / 4 <= j < native.Length ==> native[j] == old(native[j])
  {
    hide Val, Pow2, Or, LowZero;
    var n := (numBytes + 3) / 4;
    ghost var src := bytes[at..at + numBytes];
    Clear(native, n);
    var i := 0;
    StartZero(native[..n], numBytes, src[..0]);
    while i < numBytes
      invariant i <= numBytes
      invariant LowZero(native[..n], numBytes - i)
      invariant V(native, n) == Pow2(8 * (numBytes - i)) * BigEndian(src[..i])
      invariant forall j :: n <= j < native.Length ==> native[j] == old(native[j])
    {
      var b := numBytes - 1 - i;
      ghost var s := native[..n];
      ByteStep(s, src, i, numBytes - i, bytes[at + i]);
      native[b / 4] := Or(native[b / 4], bytes[at + i] * Pow2(8 * (b % 4)));
      assert native[..n] == s[b / 4 := native[b / 4]];
      i := i + 1;
    }
    assert src[..numBytes] == src;
    assert Pow2(8 * 0) == 1 by { PowZero(); }
  }

  lemma PowZero()
    ensures Pow2(0) == 1
  {
  }

  lemma {:induction false} StartZero(s: seq<Word>, t: nat, e: seq<Byte>)
    requires (t + 3) / 4 <= |s| && Val(s) == 0 && |e| == 0
    ensures LowZero(s, t) && Val(s) == Pow2(8 * t) * BigEndian(e)
  {
    assert BigEndian(e) == 0;
    hide Val, Pow2, BigEndian;
    ValZero(s);
    if t % 4 != 0 { DivUnique(0, Pow2(8 * (t % 4)), 0, 0); }
  }

  /** The two conversions are inverse to each other, both ways. */
  lemma BytesRoundTrip(s: seq<Byte>, v: nat)
    requires v == BigEndian(s)
    ensures LowBytes(v, |s|) == s
  {
    BigEndianBound(s);
    LowBytesValue(v, |s|);
    DivUnique(v, Pow2(8 * |s|), 0, v);
    BigEndianInjective(LowBytes(v, |s|), s);
  }

  lemma NativeRoundTrip(v: nat, m: nat)
    requires v < Pow2(8 * m)
    ensures BigEndian(LowBytes(v, m)) == v
  {
    LowBytesValue(v, m);
    DivUnique(v, Pow2(8 * m), 0, v);
  }
}
