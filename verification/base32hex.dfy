/** Base32 with the extended hex alphabet (section 7 of RFC 4648), lower case and without padding, on
    whole groups of five octets; its point is that it keeps the order of what it encodes. */
module Base32Hex {
  import opened Bytes
  import opened Lists
  import opened Text

  // ---- Positional digits ----

  /** The two bases: octets and five-bit groups. */
  predicate IsBase(base: nat) {
    base == 0x100 || base == 32
  }

  // Arithmetic in the two bases, each spelled out so that it stays linear.
  function Times(base: nat, q: nat): nat
    requires IsBase(base)
  {
    if base == 32 then q * 32 else q * 0x100
  }

  function Div(base: nat, v: nat): nat
    requires IsBase(base)
  {
    if base == 32 then v / 32 else v / 0x100
  }

  function Mod(base: nat, v: nat): (r: nat)
    requires IsBase(base)
    ensures r < base
  {
    if base == 32 then v % 32 else v % 0x100
  }

  function Power(base: nat, n: nat): nat
    requires IsBase(base)
  {
    if n == 0 then 1 else Times(base, Power(base, n - 1))
  }

  predicate Below(ds: seq<nat>, base: nat) {
    forall i :: 0 <= i < |ds| ==> ds[i] < base
  }

  /** The last n digits of v, most significant first. */
  function Digits(base: nat, v: nat, n: nat): (ds: seq<nat>)
    requires IsBase(base)
    ensures |ds| == n && Below(ds, base)
  {
    if n == 0 then [] else Digits(base, Div(base, v), n - 1) + [Mod(base, v)]
  }

  function Value(base: nat, ds: seq<nat>): nat
    requires IsBase(base)
  {
    if ds == [] then 0 else Times(base, Value(base, ds[..|ds| - 1])) + ds[|ds| - 1]
  }

  predicate LexLt(a: seq<nat>, b: seq<nat>) {
    if b == [] then false
    else if a == [] then true
    else if a[0] != b[0] then a[0] < b[0]
    else LexLt(a[1..], b[1..])
  }

  /** Order is decided by the front parts, and by the rest when they are equal. */
  lemma {:induction false} LexAppend(a: seq<nat>, x: seq<nat>, b: seq<nat>, y: seq<nat>)
    requires |a| == |b|
    ensures LexLt(a + x, b + y) <==> LexLt(a, b) || (a == b && LexLt(x, y))
  {
    if a == [] {
      assert a + x == x && b + y == y;
    } else {
      assert (a + x)[1..] == a[1..] + x && (b + y)[1..] == b[1..] + y;
      LexAppend(a[1..], x, b[1..], y);
      assert a == [a[0]] + a[1..] && b == [b[0]] + b[1..];
    }
  }

  lemma {:induction false} LexIrreflexive(a: seq<nat>)
    ensures !LexLt(a, a)
  {
    if a != [] {
      LexIrreflexive(a[1..]);
    }
  }

  lemma QuotientOrder(base: nat, v: nat, w: nat)
    requires IsBase(base)
    ensures v < w <==> Div(base, v) < Div(base, w) || (Div(base, v) == Div(base, w) && Mod(base, v) < Mod(base, w))
    ensures v == w <==> Div(base, v) == Div(base, w) && Mod(base, v) == Mod(base, w)
  {
  }

  /** Equally long digit strings are ordered and told apart as the numbers they write. */
  lemma {:induction false} DigitsOrder(base: nat, v: nat, w: nat, n: nat)
    requires IsBase(base) && v < Power(base, n) && w < Power(base, n)
    ensures LexLt(Digits(base, v, n), Digits(base, w, n)) <==> v < w
    ensures Digits(base, v, n) == Digits(base, w, n) <==> v == w
    decreases n
  {
    if n > 0 {
      var x, y := Div(base, v), Div(base, w);
      QuotientOrder(base, v, w);
      assert x < Power(base, n - 1) && y < Power(base, n - 1);
      hide Power, IsBase, LexLt, Div, Mod;
      var p, q := Digits(base, x, n - 1), Digits(base, y, n - 1);
      DigitsOrder(base, x, y, n - 1);
      LexAppend(p, [Mod(base, v)], q, [Mod(base, w)]);
      LexOne(Mod(base, v), Mod(base, w));
      assert Digits(base, v, n)[..n - 1] == p && Digits(base, w, n)[..n - 1] == q;
      assert Digits(base, v, n)[n - 1] == Mod(base, v) && Digits(base, w, n)[n - 1] == Mod(base, w);
    }
  }

  lemma LexOne(x: nat, y: nat)
    ensures LexLt([x], [y]) <==> x < y
  {
    assert [x][1..] == [] && [y][1..] == [];
  }

  lemma Append(base: nat, q: nat, r: nat, bound: nat)
    requires IsBase(base) && r < base && q < bound
    ensures Div(base, Times(base, q) + r) == q && Mod(base, Times(base, q) + r) == r
    ensures Times(base, q) + r < Times(base, bound)
  {
  }

  lemma {:induction false} DigitsOfValue(base: nat, ds: seq<nat>)
    requires IsBase(base) && Below(ds, base)
    ensures Value(base, ds) < Power(base, |ds|)
    ensures Digits(base, Value(base, ds), |ds|) == ds
  {
    if ds == [] {
    } else {
      BelowFront(ds, base);
      hide *;
      var n := |ds| - 1;
      var q := Value(base, ds[..n]);
      DigitsOfValue(base, ds[..n]);
      Append(base, q, ds[n], Power(base, n));
      LastDigit(base, ds);
    }
  }

  lemma BelowFront(ds: seq<nat>, base: nat)
    requires Below(ds, base) && ds != []
    ensures Below(ds[..|ds| - 1], base) && ds[|ds| - 1] < base
  {
  }

  lemma LastDigit(base: nat, ds: seq<nat>)
    requires IsBase(base) && ds != []
    ensures var n := |ds| - 1;
            var v := Value(base, ds);
            && v == Times(base, Value(base, ds[..n])) + ds[n]
            && Digits(base, v, n + 1) == Digits(base, Div(base, v), n) + [Mod(base, v)]
            && Power(base, n + 1) == Times(base, Power(base, n))
            && ds == ds[..n] + [ds[n]]
  {
    hide Times, Div, Mod;
  }

  lemma FortyBits()
    ensures Power(0x100, 5) == Power(32, 8)
  {
    assert Power(0x100, 2) == 0x1_0000;
    assert Power(0x100, 4) == 0x1_0000_0000;
    assert Power(32, 2) == 0x400;
    assert Power(32, 4) == 0x10_0000;
    assert Power(32, 6) == 0x4000_0000;
  }

  // ---- The encoding ----

  function Char(d: nat): (c: char)
    requires d < 32
    ensures c == LowerChar(c) && c as int < 0x80
  {
    if d < 10 then '0' + d as char else 'a' + (d - 10) as char
  }

  function Chars(ds: seq<nat>): (s: string)
    requires Below(ds, 32)
    ensures |s| == |ds| && forall i :: 0 <= i < |s| ==> s[i] == LowerChar(s[i])
  {
    seq(|ds|, i requires 0 <= i < |ds| => assert ds[i] < 32; Char(ds[i]))
  }

  /** Five octets as eight digits of five bits. */
  function Group(g: bytes): (s: string)
    requires |g| == 5
    ensures |s| == 8 && forall i :: 0 <= i < 8 ==> s[i] == LowerChar(s[i])
  {
    Chars(Digits(32, Value(0x100, g), 8))
  }

  function Encode(b: bytes): (s: string)
    requires |b| % 5 == 0
    ensures |s| == |b| / 5 * 8
  {
    if b == [] then "" else Group(b[..5]) + Encode(b[5..])
  }

  lemma {:induction false} CharsOrder(a: seq<nat>, b: seq<nat>)
    requires Below(a, 32) && Below(b, 32)
    ensures StrLt(Chars(a), Chars(b)) <==> LexLt(a, b)
    ensures Chars(a) == Chars(b) <==> a == b
  {
    if a == [] || b == [] {
    } else {
      CharsStep(a);
      CharsStep(b);
      CharsOrder(a[1..], b[1..]);
      hide Chars, Char;
      ConcatEqual([a[0]], a[1..], [b[0]], b[1..]);
      ConcatEqual([Char(a[0])], Chars(a[1..]), [Char(b[0])], Chars(b[1..]));
      CharOrder(a[0], b[0]);
    }
  }

  lemma CharOrder(d: nat, e: nat)
    requires d < 32 && e < 32
    ensures (Char(d) < Char(e) <==> d < e) && (Char(d) == Char(e) <==> d == e)
  {
  }

  lemma CharsStep(a: seq<nat>)
    requires a != [] && Below(a, 32)
    ensures a == [a[0]] + a[1..]
    ensures Chars(a) == [Char(a[0])] + Chars(a[1..]) && Chars(a)[1..] == Chars(a[1..])
  {
    hide Char;
  }

  lemma GroupOrder(g: bytes, h: bytes)
    requires |g| == |h| == 5
    ensures StrLt(Group(g), Group(h)) <==> LexLt(g, h)
    ensures Group(g) == Group(h) <==> g == h
  {
    hide Digits, Value, Power, Chars, LexLt, StrLt;
    FortyBits();
    DigitsOfValue(0x100, g);
    DigitsOfValue(0x100, h);
    var v, w := Value(0x100, g), Value(0x100, h);
    DigitsOrder(0x100, v, w, 5);
    DigitsOrder(32, v, w, 8);
    CharsOrder(Digits(32, v, 8), Digits(32, w, 8));
  }

  lemma {:induction false} StrAppend(a: string, x: string, b: string, y: string)
    requires |a| == |b|
    ensures StrLt(a + x, b + y) <==> StrLt(a, b) || (a == b && StrLt(x, y))
  {
    if a == [] {
      assert a + x == x && b + y == y;
    } else {
      assert (a + x)[1..] == a[1..] + x && (b + y)[1..] == b[1..] + y;
      StrAppend(a[1..], x, b[1..], y);
      assert a == [a[0]] + a[1..] && b == [b[0]] + b[1..];
    }
  }

  /** Equally long octet strings compare as their encodings do, and only equal ones share one. */
  lemma {:induction false} EncodeKeepsOrder(a: bytes, b: bytes)
    requires |a| == |b| && |a| % 5 == 0
    ensures StrLt(Encode(a), Encode(b)) <==> LexLt(a, b)
    ensures Encode(a) == Encode(b) <==> a == b
  {
    hide *;
    if a == [] {
      NothingIsLess();
    } else {
      var g, h := a[..5], b[..5];
      EncodeStep(a);
      EncodeStep(b);
      GroupOrder(g, h);
      EncodeKeepsOrder(a[5..], b[5..]);
      StrAppend(Group(g), Encode(a[5..]), Group(h), Encode(b[5..]));
      LexAppend(g, a[5..], h, b[5..]);
      ConcatEqual(g, a[5..], h, b[5..]);
      ConcatEqual(Group(g), Encode(a[5..]), Group(h), Encode(b[5..]));
    }
  }

  lemma NothingIsLess()
    ensures !LexLt([], []) && !StrLt(Encode([]), Encode([]))
  {
  }

  lemma EncodeStep(b: bytes)
    requires |b| >= 5 && |b| % 5 == 0
    ensures b == b[..5] + b[5..]
    ensures Encode(b) == Group(b[..5]) + Encode(b[5..])
  {
    hide Group;
  }

  lemma {:induction false} EncodeIsLower(b: bytes)
    requires |b| % 5 == 0
    ensures ToLower(Encode(b)) == Encode(b)
  {
    hide Digits, Value;
    if b != [] {
      EncodeIsLower(b[5..]);
      var g := Group(b[..5]);
      var rest := Encode(b[5..]);
      assert ToLower(g) == g;
      assert ToLower(g + rest) == ToLower(g) + ToLower(rest);
    }
  }

  // ---- A decoder ----

  /** The value of a character: its place in the alphabet of section 7 of RFC 4648, in lower case. */
  function DigitOf(c: char): nat {
    if '0' <= c <= '9' then c as int - '0' as int else if 'a' <= c <= 'v' then c as int - 'a' as int + 10 else 0
  }

  /** Eight characters carry forty bits: five octets, the highest bits first. */
  function DecodeGroup(s: string): seq<nat>
    requires |s| == 8
  {
    var d := seq(8, i requires 0 <= i < 8 => DigitOf(s[i]));
    [d[0] * 8 + d[1] / 4, d[1] % 4 * 64 + d[2] * 2 + d[3] / 16, d[3] % 16 * 16 + d[4] / 2,
     d[4] % 2 * 128 + d[5] * 4 + d[6] / 8, d[6] % 8 * 32 + d[7]]
  }

  function Decode(s: string): seq<nat> {
    if |s| < 8 then [] else DecodeGroup(s[..8]) + Decode(s[8..])
  }

  lemma DigitsLast(v: nat, n: nat, ds: seq<nat>)
    requires ds == Digits(32, v, n + 1)
    ensures |ds| == n + 1 && ds[n] == v % 32 && ds[..n] == Digits(32, v / 32, n)
  {
  }

  lemma EightDigits(v: nat, ds: seq<nat>)
    requires ds == Digits(32, v, 8)
    ensures |ds| == 8 && ds[7] == v % 32 && ds[6] == v / 32 % 32
    ensures var u := v / 32 / 32;
            && ds[5] == u % 32 && ds[4] == u / 32 % 32 && ds[3] == u / 32 / 32 % 32
            && var t := u / 32 / 32 / 32; ds[2] == t % 32 && ds[1] == t / 32 % 32 && ds[0] == t / 32 / 32 % 32
  {
    DigitsLast(v, 7, ds);
    DigitsLast(v / 32, 6, ds[..7]);
    var u := v / 32 / 32;
    DigitsLast(u, 5, ds[..6]);
    DigitsLast(u / 32, 4, ds[..5]);
    DigitsLast(u / 32 / 32, 3, ds[..4]);
    var t := u / 32 / 32 / 32;
    DigitsLast(t, 2, ds[..3]);
    DigitsLast(t / 32, 1, ds[..2]);
    DigitsLast(t / 32 / 32, 0, ds[..1]);
    hide Digits;
  }

  lemma FiveOctets(g: bytes)
    requires |g| == 5
    ensures Value(0x100, g) == (((g[0] as int * 0x100 + g[1]) * 0x100 + g[2]) * 0x100 + g[3]) * 0x100 + g[4]
  {
    var v1: seq<nat> := g[..4];
    assert v1[..3] == g[..3] && g[..3][..2] == g[..2] && g[..2][..1] == g[..1] && g[..1][..0] == [];
    assert Value(0x100, g[..0]) == 0;
    assert Value(0x100, g[..1]) == g[0];
    assert Value(0x100, g[..2]) == g[0] as int * 0x100 + g[1];
    assert Value(0x100, g[..3]) == (g[0] as int * 0x100 + g[1]) * 0x100 + g[2];
  }

  /** Quotient and remainder of 32 are what they are. */
  lemma By32(v: nat, q: nat, r: nat)
    requires v == 32 * q + r && r < 32
    ensures v / 32 == q && v % 32 == r
  {
  }

  // Where the five-bit groups of w * 0x100 + g lie, octet by octet from the right.
  lemma FifthOctet(w: nat, g: byte)
    ensures var v := w * 0x100 + g;
            && v / 32 % 32 % 8 * 32 + v % 32 == g
            && v / 32 % 32 / 8 == w % 4 && v / 32 / 32 == w / 4
  {
    By32(w * 0x100 + g, 8 * w + g / 32, g % 32);
    ThreeBits(w, g / 32);
  }

  lemma ThreeBits(w: nat, b: nat)
    requires b < 8
    ensures (8 * w + b) % 32 % 8 == b && (8 * w + b) % 32 / 8 == w % 4 && (8 * w + b) / 32 == w / 4
  {
    By32(8 * w + b, w / 4, 8 * (w % 4) + b);
  }

  lemma TwoBits(w: nat, b: nat)
    requires b < 2
    ensures (2 * w + b) % 32 % 2 == b && (2 * w + b) % 32 / 2 == w % 16 && (2 * w + b) / 32 == w / 16
  {
    By32(2 * w + b, w / 16, 2 * (w % 16) + b);
  }

  lemma FourBits(w: nat, b: nat)
    requires b < 16
    ensures (16 * w + b) % 32 % 16 == b && (16 * w + b) % 32 / 16 == w % 2 && (16 * w + b) / 32 == w / 2
  {
    By32(16 * w + b, w / 2, 16 * (w % 2) + b);
  }

  lemma MiddleBits(w: nat, g: byte)
    ensures var x := (w * 0x100 + g) / 4;
            x % 32 == g / 4 % 32 && x / 32 == 2 * w + g / 128 && (w * 0x100 + g) % 4 == g % 4
    ensures g / 128 * 128 + g / 4 % 32 * 4 + g % 4 == g
  {
    assert (w * 0x100 + g) / 4 == 64 * w + g / 4;
    assert g / 4 / 32 == g / 128;
    assert 64 * w + g / 4 == 32 * (2 * w + g / 128) + g / 4 % 32;
  }

  lemma FourthOctet(w: nat, g: byte)
    ensures var v := w * 0x100 + g;
            && v / 4 / 32 % 32 % 2 * 128 + v / 4 % 32 * 4 + v % 4 == g
            && v / 4 / 32 % 32 / 2 == w % 16 && v / 4 / 32 / 32 == w / 16
  {
    MiddleBits(w, g);
    TwoBits(w, g / 128);
  }

  lemma HighBits(w: nat, g: byte)
    ensures (w * 0x100 + g) / 16 == 16 * w + g / 16 && (w * 0x100 + g) % 16 == g % 16
  {
    assert w * 0x100 + g == 16 * (16 * w + g / 16) + g % 16;
  }

  lemma ThirdOctet(w: nat, g: byte)
    ensures var v := w * 0x100 + g;
            && v / 16 % 32 % 16 * 16 + v % 16 == g
            && v / 16 % 32 / 16 == w % 2 && v / 16 / 32 == w / 2
  {
    HighBits(w, g);
    FourBits(w, g / 16);
  }

  lemma SecondOctet(w: byte, g: byte)
    ensures var v := w as int * 0x100 + g;
            && v / 2 / 32 % 32 % 4 * 64 + v / 2 % 32 * 2 + v % 2 == g
            && v / 2 / 32 / 32 % 32 * 8 + v / 2 / 32 % 32 / 4 == w
  {
    var v := w as int * 0x100 + g;
    assert v / 2 == 128 * w as int + g / 2;
    assert v / 2 / 32 == 4 * w as int + g / 64;
    assert v / 2 / 32 / 32 == w / 8;
  }

  lemma GroupDecodes(g: bytes)
    requires |g| == 5
    ensures DecodeGroup(Group(g)) == g
  {
    var ds := Digits(32, Value(0x100, g), 8);
    hide *;
    GroupIs(g, ds);
    CharsDecode(ds);
    OctetsOfGroup(g, ds);
    DecodeIs(Group(g), ds, g[0], g[1], g[2], g[3], g[4]);
    assert g == [g[0], g[1], g[2], g[3], g[4]];
  }

  lemma OctetsOfGroup(g: bytes, ds: seq<nat>)
    requires |g| == 5 && ds == Digits(32, Value(0x100, g), 8)
    ensures |ds| == 8
    ensures ds[6] % 8 * 32 + ds[7] == g[4] && ds[4] % 2 * 128 + ds[5] * 4 + ds[6] / 8 == g[3]
    ensures ds[3] % 16 * 16 + ds[4] / 2 == g[2] && ds[1] % 4 * 64 + ds[2] * 2 + ds[3] / 16 == g[1]
    ensures ds[0] * 8 + ds[1] / 4 == g[0]
  {
    var v := Value(0x100, g);
    hide *;
    FiveOctets(g);
    EightDigits(v, ds);
    DigitsAreOctets(g[0], g[1], g[2], g[3], g[4], v, ds);
  }

  lemma LowDigits(v: nat, w: nat, e: byte, d6: nat, d7: nat)
    requires v == w * 0x100 + e && d7 == v % 32 && d6 == v / 32 % 32
    ensures d6 % 8 * 32 + d7 == e && d6 / 8 == w % 4 && v / 32 / 32 == w / 4
  {
    FifthOctet(w, e);
  }

  lemma MiddleDigits(u: nat, v: nat, w: nat, d: byte, d4: nat, d5: nat)
    requires v == w * 0x100 + d && u == v / 4 && d5 == u % 32 && d4 == u / 32 % 32
    ensures d4 % 2 * 128 + d5 * 4 + v % 4 == d && d4 / 2 == w % 16 && u / 32 / 32 == w / 16
  {
    FourthOctet(w, d);
  }

  lemma ThirdDigit(u: nat, v: nat, w: nat, c: byte, d3: nat)
    requires v == w * 0x100 + c && u == v / 16 && d3 == u % 32
    ensures d3 % 16 * 16 + v % 16 == c && d3 / 16 == w % 2 && u / 32 == w / 2
  {
    ThirdOctet(w, c);
  }

  lemma HighDigits(u: nat, v: nat, a: byte, b: byte, d0: nat, d1: nat, d2: nat)
    requires v == a as int * 0x100 + b && u == v / 2 && d2 == u % 32 && d1 == u / 32 % 32 && d0 == u / 32 / 32 % 32
    ensures d1 % 4 * 64 + d2 * 2 + v % 2 == b && d0 * 8 + d1 / 4 == a
  {
    SecondOctet(a, b);
  }

  lemma DigitsAreOctets(a: byte, b: byte, c: byte, d: byte, e: byte, v: nat, ds: seq<nat>)
    requires v == (((a as int * 0x100 + b) * 0x100 + c) * 0x100 + d) * 0x100 + e
    requires |ds| == 8 && ds[7] == v % 32 && ds[6] == v / 32 % 32
    requires var u := v / 32 / 32;
             && ds[5] == u % 32 && ds[4] == u / 32 % 32 && ds[3] == u / 32 / 32 % 32
             && var t := u / 32 / 32 / 32; ds[2] == t % 32 && ds[1] == t / 32 % 32 && ds[0] == t / 32 / 32 % 32
    ensures ds[6] % 8 * 32 + ds[7] == e && ds[4] % 2 * 128 + ds[5] * 4 + ds[6] / 8 == d
    ensures ds[3] % 16 * 16 + ds[4] / 2 == c && ds[1] % 4 * 64 + ds[2] * 2 + ds[3] / 16 == b
    ensures ds[0] * 8 + ds[1] / 4 == a
  {
    var w3 := a as int * 0x100 + b;
    var w2 := w3 * 0x100 + c;
    var w1 := w2 * 0x100 + d;
    var u5 := v / 32 / 32;
    var u3 := u5 / 32 / 32;
    var u2 := u3 / 32;
    LowDigits(v, w1, e, ds[6], ds[7]);
    MiddleDigits(u5, w1, w2, d, ds[4], ds[5]);
    ThirdDigit(u3, w2, w3, c, ds[3]);
    HighDigits(u2, w3, a, b, ds[0], ds[1], ds[2]);
  }

  lemma CharsDecode(ds: seq<nat>)
    requires Below(ds, 32)
    ensures forall i :: 0 <= i < |ds| ==> DigitOf(Chars(ds)[i]) == ds[i]
  {
  }

  lemma GroupIs(g: bytes, ds: seq<nat>)
    requires |g| == 5 && ds == Digits(32, Value(0x100, g), 8)
    ensures Below(ds, 32) && Group(g) == Chars(ds)
  {
  }

  lemma DecodeIs(s: string, d: seq<nat>, a: nat, b: nat, c: nat, e: nat, f: nat)
    requires |s| == |d| == 8 && forall i :: 0 <= i < 8 ==> DigitOf(s[i]) == d[i]
    requires d[6] % 8 * 32 + d[7] == f && d[4] % 2 * 128 + d[5] * 4 + d[6] / 8 == e
    requires d[3] % 16 * 16 + d[4] / 2 == c && d[1] % 4 * 64 + d[2] * 2 + d[3] / 16 == b
    requires d[0] * 8 + d[1] / 4 == a
    ensures DecodeGroup(s) == [a, b, c, e, f]
  {
    hide DigitOf;
    assert seq(8, i requires 0 <= i < 8 => DigitOf(s[i])) == d;
  }

  /** Decoding undoes encoding. */
  lemma {:induction false} DecodeEncode(b: bytes)
    requires |b| % 5 == 0
    ensures Decode(Encode(b)) == b
  {
    hide Group, DecodeGroup;
    if b != [] {
      GroupDecodes(b[..5]);
      DecodeEncode(b[5..]);
      var s := Encode(b);
      assert s[..8] == Group(b[..5]) && s[8..] == Encode(b[5..]);
    }
  }
}
