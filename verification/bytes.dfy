/** Octets, fixed-width integers and the byte orders the wire formats use. */
module Bytes {
  type byte = x: int | 0 <= x < 0x100
  type bytes = seq<byte>
  type u16 = x: int | 0 <= x < 0x1_0000
  type u32 = x: int | 0 <= x < 0x1_0000_0000
  type u64 = x: int | 0 <= x < 0x1_0000_0000_0000_0000

  // Big-endian writers. Each one keeps the low bits only, as a Go conversion does.
  function PutU16(v: nat): (b: bytes)
    ensures |b| == 2
  {
    [v / 0x100 % 0x100, v % 0x100]
  }

  function PutU24(v: nat): (b: bytes)
    ensures |b| == 3
  {
    [v / 0x1_0000 % 0x100, v / 0x100 % 0x100, v % 0x100]
  }

  function PutU32(v: nat): (b: bytes)
    ensures |b| == 4
  {
    PutU16(v / 0x1_0000) + PutU16(v)
  }

  function PutU64(v: nat): (b: bytes)
    ensures |b| == 8
  {
    PutU32(v / 0x1_0000_0000) + PutU32(v)
  }

  // Big-endian readers.
  function U16At(b: bytes, i: nat): u16
    requires i + 2 <= |b|
  {
    b[i] as int * 0x100 + b[i + 1]
  }

  function U24At(b: bytes, i: nat): nat
    requires i + 3 <= |b|
  {
    b[i] as int * 0x1_0000 + b[i + 1] as int * 0x100 + b[i + 2]
  }

  function U32At(b: bytes, i: nat): u32
    requires i + 4 <= |b|
  {
    b[i] as int * 0x100_0000 + b[i + 1] as int * 0x1_0000 + b[i + 2] as int * 0x100 + b[i + 3]
  }

  function U64At(b: bytes, i: nat): u64
    requires i + 8 <= |b|
  {
    U32At(b, i) as int * 0x1_0000_0000 + U32At(b, i + 4)
  }

  lemma PutGetU16(v: nat)
    ensures U16At(PutU16(v), 0) == v % 0x1_0000
  {
  }

  /** A field found by its octets is read as the number that was written. */
  lemma U16Field(b: bytes, i: nat, v: nat)
    requires i + 2 <= |b| && b[i..i + 2] == PutU16(v)
    ensures U16At(b, i) == v % 0x1_0000
  {
    PutGetU16(v);
    assert b[i] == b[i..i + 2][0] && b[i + 1] == b[i..i + 2][1];
    hide PutU16;
  }

  lemma U32Field(b: bytes, i: nat, v: nat)
    requires i + 4 <= |b| && b[i..i + 4] == PutU32(v)
    ensures U32At(b, i) == v % 0x1_0000_0000
  {
    PutGetU32(v);
    hide PutU32;
    var f := b[i..i + 4];
    assert b[i] == f[0] && b[i + 1] == f[1] && b[i + 2] == f[2] && b[i + 3] == f[3];
  }

  lemma PutGetU32(v: nat)
    ensures U32At(PutU32(v), 0) == v % 0x1_0000_0000
  {
    var hi, lo := PutU16(v / 0x1_0000), PutU16(v);
    PutGetU16(v / 0x1_0000);
    PutGetU16(v);
    hide PutU16;
    U32AtHalves(hi, lo);
    hide U32At, U16At;
    SplitWord(v);
  }

  lemma U32AtHalves(hi: bytes, lo: bytes)
    requires |hi| == |lo| == 2
    ensures U32At(hi + lo, 0) == U16At(hi, 0) as int * 0x1_0000 + U16At(lo, 0)
  {
    var b := hi + lo;
    assert b[0] == hi[0] && b[1] == hi[1] && b[2] == lo[0] && b[3] == lo[1];
  }

  lemma SplitWord(v: nat)
    ensures v / 0x1_0000 % 0x1_0000 * 0x1_0000 + v % 0x1_0000 == v % 0x1_0000_0000
  {
    assert v == v / 0x1_0000 * 0x1_0000 + v % 0x1_0000;
    assert v / 0x1_0000 == v / 0x1_0000 / 0x1_0000 * 0x1_0000 + v / 0x1_0000 % 0x1_0000;
  }

  lemma U64AtHalves(hi: bytes, lo: bytes)
    requires |hi| == |lo| == 4
    ensures U64At(hi + lo, 0) == U32At(hi, 0) as int * 0x1_0000_0000 + U32At(lo, 0)
  {
    var b := hi + lo;
    assert b[0] == hi[0] && b[1] == hi[1] && b[2] == hi[2] && b[3] == hi[3];
    assert b[4] == lo[0] && b[5] == lo[1] && b[6] == lo[2] && b[7] == lo[3];
  }

  /** A 64-bit value survives being written and read back. */
  lemma PutGetU64(v: u64)
    ensures U64At(PutU64(v), 0) == v
  {
    hide PutU32, U32At, U64At;
    PutGetU32(v / 0x1_0000_0000);
    PutGetU32(v);
    U64AtHalves(PutU32(v / 0x1_0000_0000), PutU32(v));
    assert v / 0x1_0000_0000 < 0x1_0000_0000;
  }

  /** Concatenation of a list of byte strings. */
  function Concat(parts: seq<bytes>): bytes {
    if parts == [] then [] else parts[0] + Concat(parts[1..])
  }

  lemma {:induction false} ConcatAppend(a: seq<bytes>, b: seq<bytes>)
    ensures Concat(a + b) == Concat(a) + Concat(b)
  {
    if a == [] {
      assert a + b == b;
    } else {
      assert (a + b)[1..] == a[1..] + b;
      ConcatAppend(a[1..], b);
    }
  }

  lemma ConcatCons(a: bytes, rest: seq<bytes>)
    ensures Concat([a] + rest) == a + Concat(rest)
  {
    assert ([a] + rest)[1..] == rest;
  }

  lemma ConcatOne(a: bytes)
    ensures Concat([a]) == a
  {
    assert Concat([a][1..]) == [];
  }

  /** What is left behind a cursor that may have jumped past the end. */
  function Drop(b: bytes, n: nat): (r: bytes)
    ensures |r| <= |b| && (n > 0 && b != [] ==> |r| < |b|)
  {
    if n <= |b| then b[n..] else []
  }

  /** n zero octets. */
  function Zeros(n: nat): (z: bytes)
    ensures |z| == n && forall i :: 0 <= i < n ==> z[i] == 0
  {
    seq(n, i => 0)
  }

  // Bitwise exclusive or of naturals, bit by bit.
  function Xor(a: nat, b: nat): nat
    decreases a + b
  {
    if a == 0 && b == 0 then 0 else (a + b) % 2 + 2 * Xor(a / 2, b / 2)
  }

  lemma Halves(q: nat, r: nat)
    requires r < 2
    ensures (r + 2 * q) / 2 == q && (r + 2 * q) % 2 == r
  {
  }

  lemma XorHalf(a: nat, b: nat)
    ensures Xor(a, b) % 2 == (a + b) % 2 && Xor(a, b) / 2 == Xor(a / 2, b / 2)
  {
    XorUnfolds(a, b);
    hide Xor;
    Halves(Xor(a / 2, b / 2), (a + b) % 2);
  }

  lemma XorUnfolds(a: nat, b: nat)
    ensures Xor(a, b) == (a + b) % 2 + 2 * Xor(a / 2, b / 2)
  {
  }

  lemma SameHalves(x: nat, y: nat)
    requires x / 2 == y / 2 && x % 2 == y % 2
    ensures x == y
  {
  }

  lemma ParityCancels(x: nat, a: nat, b: nat)
    requires x % 2 == (a + b) % 2
    ensures (x + b) % 2 == a % 2
  {
  }

  lemma {:induction false} XorCancels(a: nat, b: nat)
    ensures Xor(Xor(a, b), b) == a
    decreases a + b
  {
    if a == 0 && b == 0 {
      assert Xor(0, 0) == 0;
    } else {
      hide Xor;
      var x := Xor(a, b);
      XorHalf(a, b);
      XorHalf(x, b);
      ParityCancels(x, a, b);
      XorCancels(a / 2, b / 2);
      SameHalves(Xor(x, b), a);
    }
  }

  lemma {:induction false} XorCommutes(a: nat, b: nat)
    ensures Xor(a, b) == Xor(b, a)
    decreases a + b
  {
    if a != 0 || b != 0 {
      XorCommutes(a / 2, b / 2);
    }
  }

  function Pow2(n: nat): (p: nat)
    ensures p > 0
  {
    if n == 0 then 1 else 2 * Pow2(n - 1)
  }

  lemma {:induction false} XorBound(a: nat, b: nat, bits: nat)
    requires a < Pow2(bits) && b < Pow2(bits)
    ensures Xor(a, b) < Pow2(bits)
    decreases bits
  {
    if a != 0 || b != 0 {
      assert bits > 0;
      XorBound(a / 2, b / 2, bits - 1);
    }
  }

  lemma Pow2Of64()
    ensures Pow2(8) == 0x100 && Pow2(64) == 0x1_0000_0000_0000_0000
  {
    assert Pow2(8) == 0x100;
    assert Pow2(16) == 0x1_0000;
    assert Pow2(24) == 0x100_0000;
    assert Pow2(32) == 0x1_0000_0000;
    assert Pow2(40) == 0x100_0000_0000;
    assert Pow2(48) == 0x1_0000_0000_0000;
    assert Pow2(56) == 0x100_0000_0000_0000;
  }

  function XorU64(a: u64, b: u64): u64 {
    Pow2Of64();
    XorBound(a, b, 64);
    Xor(a, b)
  }

  function XorByte(a: byte, b: byte): byte {
    Pow2Of64();
    XorBound(a, b, 8);
    Xor(a, b)
  }

  // ---- Octets of a number ----

  /** The j-th octet from the right. */
  function OctetOf(v: nat, j: nat): byte {
    if j == 0 then v % 0x100 else OctetOf(v / 0x100, j - 1)
  }

  lemma XorParts(a: nat, b: nat, c: nat, d: nat)
    requires c < 2 && d < 2
    ensures Xor(2 * a + c, 2 * b + d) == 2 * Xor(a, b) + (c + d) % 2
  {
    XorUnfolds(2 * a + c, 2 * b + d);
    hide Xor;
    Halves(a, c);
    Halves(b, d);
    assert (2 * a + c + (2 * b + d)) % 2 == (c + d) % 2;
  }

  lemma {:induction false} XorShift(a: nat, b: nat, c: nat, d: nat, k: nat, q: nat)
    requires q == Pow2(k) && c < q && d < q
    ensures Xor(a * q + c, b * q + d) == Xor(a, b) * q + Xor(c, d)
    decreases k
  {
    if k == 0 {
      assert Xor(0, 0) == 0;
    } else {
      var p := Pow2(k - 1);
      assert q == 2 * p && c / 2 < p && d / 2 < p;
      hide *;
      XorShift(a, b, c / 2, d / 2, k - 1, p);
      DoubledFactor(a, p, q);
      DoubledFactor(b, p, q);
      DoubledFactor(Xor(a, b), p, q);
      XorDouble(a * p, b * p, c / 2, c % 2, d / 2, d % 2, Xor(a, b) * p);
      assert 2 * (c / 2) + c % 2 == c && 2 * (d / 2) + d % 2 == d;
    }
  }

  lemma XorDouble(x: nat, y: nat, c: nat, e: nat, d: nat, f: nat, z: nat)
    requires e < 2 && f < 2 && Xor(x + c, y + d) == z + Xor(c, d)
    ensures Xor(2 * x + (2 * c + e), 2 * y + (2 * d + f)) == 2 * z + Xor(2 * c + e, 2 * d + f)
  {
    hide *;
    XorParts(x + c, y + d, e, f);
    XorParts(c, d, e, f);
    assert 2 * (x + c) + e == 2 * x + (2 * c + e) && 2 * (y + d) + f == 2 * y + (2 * d + f);
  }

  lemma DoubledFactor(a: nat, p: nat, q: nat)
    requires q == 2 * p
    ensures a * p >= 0 && a * q == 2 * (a * p)
  {
  }

  lemma Radix(high: nat, low: nat, v: nat)
    requires low < 0x100 && v == high * 0x100 + low
    ensures v / 0x100 == high && v % 0x100 == low
  {
  }

  lemma XorOctet(a: nat, b: nat)
    ensures Xor(a, b) % 0x100 == Xor(a % 0x100, b % 0x100) && Xor(a, b) / 0x100 == Xor(a / 0x100, b / 0x100)
  {
    hide *;
    XorRadix(a / 0x100, b / 0x100, a % 0x100, b % 0x100);
    Radix(Xor(a / 0x100, b / 0x100), Xor(a % 0x100, b % 0x100), Xor(a, b));
  }

  lemma XorRadix(a: nat, b: nat, c: byte, d: byte)
    ensures Xor(c, d) < 0x100
    ensures Xor(a * 0x100 + c, b * 0x100 + d) == Xor(a, b) * 0x100 + Xor(c, d)
  {
    Pow2Of64();
    hide *;
    XorBound(c, d, 8);
    XorShift(a, b, c, d, 8, 0x100);
  }

  /** Exclusive or works octet by octet. */
  lemma {:induction false} XorOctets(a: nat, b: nat, j: nat)
    ensures OctetOf(Xor(a, b), j) == Xor(OctetOf(a, j), OctetOf(b, j))
    decreases j
  {
    XorOctet(a, b);
    hide Xor;
    if j > 0 {
      XorOctets(a / 0x100, b / 0x100, j - 1);
    }
  }

  /** What the writer puts out and the reader takes in are the octets, the highest one first. */
  lemma OctetsOfU64(v: nat)
    ensures forall i :: 0 <= i < 8 ==> PutU64(v)[i] == OctetOf(v, 7 - i)
  {
    OctetsOfU32(v);
    OctetsOfU32(v / 0x1_0000_0000);
    hide PutU32;
    OctetOfHigh(v, 0);
    OctetOfHigh(v, 1);
    OctetOfHigh(v, 2);
    OctetOfHigh(v, 3);
  }

  lemma OctetsOfU32(v: nat)
    ensures forall i :: 0 <= i < 4 ==> PutU32(v)[i] == OctetOf(v, 3 - i)
  {
    var b := PutU32(v);
    assert v / 0x1_0000 == v / 0x100 / 0x100 && v / 0x1_0000 / 0x100 == v / 0x100 / 0x100 / 0x100;
    assert OctetOf(v, 0) == v % 0x100 && OctetOf(v, 1) == v / 0x100 % 0x100;
    OctetStep(v, 1);
    OctetStep(v, 2);
    OctetStep(v / 0x100, 1);
    hide OctetOf;
  }

  lemma OctetStep(v: nat, j: nat)
    ensures OctetOf(v, j + 1) == OctetOf(v / 0x100, j) && OctetOf(v, 0) == v % 0x100
  {
  }

  lemma OctetOfHigh(v: nat, j: nat)
    ensures OctetOf(v, j + 4) == OctetOf(v / 0x1_0000_0000, j)
  {
    OctetStep(v, j + 3);
    OctetStep(v / 0x100, j + 2);
    OctetStep(v / 0x1_0000, j + 1);
    OctetStep(v / 0x100_0000, j);
    hide OctetOf;
    assert v / 0x100 / 0x100 == v / 0x1_0000 && v / 0x1_0000 / 0x100 == v / 0x100_0000;
    assert v / 0x100_0000 / 0x100 == v / 0x1_0000_0000;
  }

  lemma OctetsAtU16(b: bytes, i: nat)
    requires i + 2 <= |b|
    ensures PutU16(U16At(b, i)) == b[i..i + 2]
  {
  }

  lemma OctetsAtU32(b: bytes, i: nat)
    requires i + 4 <= |b|
    ensures PutU32(U32At(b, i)) == b[i..i + 4]
  {
    var high, low := U16At(b, i), U16At(b, i + 2);
    OctetsAtU16(b, i);
    OctetsAtU16(b, i + 2);
    assert U32At(b, i) == high as int * 0x1_0000 + low;
    hide U32At, U16At, PutU16;
    PutU16Low(high, low);
    assert (high as int * 0x1_0000 + low) / 0x1_0000 == high;
  }

  lemma OctetsAtU64(b: bytes, i: nat)
    requires i + 8 <= |b|
    ensures PutU64(U64At(b, i)) == b[i..i + 8]
  {
    OctetsAtU32(b, i);
    OctetsAtU32(b, i + 4);
    var v := U64At(b, i);
    hide PutU32, U32At;
    assert v / 0x1_0000_0000 == U32At(b, i);
    assert PutU32(v) == PutU32(U32At(b, i + 4)) by {
      PutU32Low(U32At(b, i), U32At(b, i + 4));
    }
  }

  lemma PutU32Low(high: nat, low: u32)
    ensures PutU32(high * 0x1_0000_0000 + low) == PutU32(low)
  {
    var v := high * 0x1_0000_0000 + low;
    assert v / 0x1_0000 == high * 0x1_0000 + low / 0x1_0000;
    PutU16Low(high, low / 0x1_0000);
    assert v == high * 0x1_0000 * 0x1_0000 + low;
    PutU16Low(high * 0x1_0000, low);
    hide PutU16;
  }

  lemma PutU16Low(high: nat, low: nat)
    ensures PutU16(high * 0x1_0000 + low) == PutU16(low)
  {
    var v := high * 0x1_0000 + low;
    LowOctet(high * 0x100, low);
    assert v / 0x100 == high * 0x100 + low / 0x100;
    LowOctet(high, low / 0x100);
  }

  lemma LowOctet(high: nat, low: nat)
    ensures (high * 0x100 + low) % 0x100 == low % 0x100
  {
  }

  /** Writing the exclusive or of a field and a number is octet-wise exclusive or. */
  lemma XorOfField(b: bytes, i: nat, s: u64)
    requires i + 8 <= |b|
    ensures forall j :: 0 <= j < 8 ==> PutU64(XorU64(U64At(b, i), s))[j] == XorByte(b[i + j], OctetOf(s, 7 - j))
  {
    var f := U64At(b, i);
    OctetsAtU64(b, i);
    OctetsOfU64(f);
    OctetsOfU64(XorU64(f, s));
    hide PutU64, U64At, Xor, OctetOf;
    forall j | 0 <= j < 8
      ensures PutU64(XorU64(f, s))[j] == XorByte(b[i + j], OctetOf(s, 7 - j))
    {
      XorOctets(f, s, 7 - j);
      assert b[i..i + 8][j] == b[i + j];
    }
  }

  lemma {:induction false} XorNothing(a: nat)
    ensures Xor(a, 0) == a
  {
    if a != 0 {
      XorNothing(a / 2);
    }
  }
}
