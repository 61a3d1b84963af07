/** What JA4 is for: a client keeps its fingerprint when it reorders its lists or adds GREASE. */
module Ja4Stability {
  import opened Bytes
  import opened Frames
  import opened Lists
  import opened Outcomes
  import opened Text
  import opened Ja4

  function KeepExt(f: frame): seq<frame> { if IsGrease(ExtType(f)) then [] else [f] }

  /** The extensions whose type is not GREASE, in order. */
  function KeptExts(fs: seq<frame>): seq<frame> {
    FlatMap(KeepExt, fs)
  }

  function TypeOne(f: frame): seq<u16> { [ExtType(f)] }

  function Types(fs: seq<frame>): seq<u16> {
    FlatMap(TypeOne, fs)
  }

  /** No extension type occurs twice. */
  ghost predicate DistinctTypes(fs: seq<frame>) {
    forall t: u16 :: multiset(Types(fs))[t] <= 1
  }

  /** Body of the first extension of a type. */
  function Find(fs: seq<frame>, t: u16): Option<bytes> {
    if fs == [] then None else if ExtType(fs[0]) == t then Some(Data(fs[0])) else Find(fs[1..], t)
  }

  lemma {:induction false} KeptExtsAreKept(fs: seq<frame>)
    ensures forall f :: f in KeptExts(fs) ==> !IsGrease(ExtType(f))
  {
    if fs != [] {
      KeptExtsAreKept(fs[1..]);
    }
  }

  lemma GreaseIsInert(f: frame, s: Scan)
    requires IsGrease(ExtType(f))
    ensures ScanOne(f, s) == s
  {
  }

  /** GREASE extensions leave no trace in the scan. */
  lemma {:induction false} ScanSkipsGrease(fs: seq<frame>, s: Scan)
    ensures ScanAll(fs, s) == ScanAll(KeptExts(fs), s)
    decreases fs
  {
    hide ScanOne, IsGrease;
    if fs != [] {
      ScanSkipsGrease(fs[1..], ScanOne(fs[0], s));
      var rest := KeptExts(fs[1..]);
      if IsGrease(ExtType(fs[0])) {
        GreaseIsInert(fs[0], s);
        assert KeptExts(fs) == rest;
      } else {
        assert KeptExts(fs) == [fs[0]] + rest;
        assert ([fs[0]] + rest)[1..] == rest;
      }
    }
  }

  // ---- With distinct types, a scan is a set of lookups ----

  function SigAlgsFound(d: Option<bytes>): seq<u16> {
    match d case None => [] case Some(data) => SigAlgs(data)
  }

  function AlpnFound(d: Option<bytes>, alpn: string): string {
    match d
    case None => alpn
    case Some(data) => match FirstProtocol(data) case Some(p) => p case None => alpn
  }

  function VersionFound(d: Option<bytes>, v: u16): u16 {
    match d case None => v case Some(data) => MaxOf(Versions(data), v)
  }

  function Lookups(fs: seq<frame>, s: Scan): Scan {
    Scan(s.ids + Types(fs),
         s.sigAlgs + SigAlgsFound(Find(fs, EXT_SIGNATURE_ALGORITHMS)),
         AlpnFound(Find(fs, EXT_ALPN), s.alpn),
         s.hasSni || Find(fs, EXT_SERVER_NAME).Some?,
         VersionFound(Find(fs, EXT_SUPPORTED_VERSIONS), s.version))
  }

  lemma {:induction false} FindIffPresent(fs: seq<frame>, t: u16)
    ensures Find(fs, t).Some? <==> multiset(Types(fs))[t] > 0
    ensures Find(fs, t).Some? ==> exists f :: f in fs && ExtType(f) == t && Data(f) == Find(fs, t).value
  {
    if fs != [] {
      FindIffPresent(fs[1..], t);
      HeadType(fs);
      if ExtType(fs[0]) != t && Find(fs, t).Some? {
        var f :| f in fs[1..] && ExtType(f) == t && Data(f) == Find(fs, t).value;
        assert f in fs;
      }
    }
  }

  lemma HeadType(fs: seq<frame>)
    requires fs != []
    ensures multiset(Types(fs)) == multiset{ExtType(fs[0])} + multiset(Types(fs[1..]))
  {
    assert Types(fs) == [ExtType(fs[0])] + Types(fs[1..]);
  }

  lemma TailDistinct(fs: seq<frame>)
    requires fs != [] && DistinctTypes(fs)
    ensures DistinctTypes(fs[1..]) && Find(fs[1..], ExtType(fs[0])) == None
  {
    HeadType(fs);
    forall t: u16
      ensures multiset(Types(fs[1..]))[t] <= 1
    {
      assert multiset(Types(fs))[t] <= 1;
    }
    var t := ExtType(fs[0]);
    assert multiset(Types(fs))[t] <= 1;
    FindIffPresent(fs[1..], t);
  }

  lemma {:induction false} ScanIsLookups(fs: seq<frame>, s: Scan)
    requires DistinctTypes(fs) && forall f :: f in fs ==> !IsGrease(ExtType(f))
    ensures ScanAll(fs, s) == Lookups(fs, s)
    decreases fs
  {
    hide DistinctTypes, SigAlgs, Versions, FirstProtocol, IsGrease;
    if fs == [] {
      assert s.ids + [] == s.ids && s.sigAlgs + [] == s.sigAlgs;
    } else {
      var s1 := ScanOne(fs[0], s);
      TailDistinct(fs);
      ScanIsLookups(fs[1..], s1);
      assert fs[0] in fs;
      var t := ExtType(fs[0]);
      assert Types(fs) == [t] + Types(fs[1..]);
      assert s.ids + ([t] + Types(fs[1..])) == (s.ids + [t]) + Types(fs[1..]);
      var sigs := SigAlgsFound(Find(fs[1..], EXT_SIGNATURE_ALGORITHMS));
      assert t == EXT_SIGNATURE_ALGORITHMS ==> s1.sigAlgs + sigs == s1.sigAlgs;
    }
  }

  lemma {:induction false} FindMember(fs: seq<frame>, f: frame)
    requires DistinctTypes(fs) && f in fs
    ensures Find(fs, ExtType(f)) == Some(Data(f))
  {
    if fs[0] != f {
      TailDistinct(fs);
      FindMember(fs[1..], f);
    }
  }

  /** Lookups do not depend on the order of the extensions. */
  lemma FindPermuted(a: seq<frame>, b: seq<frame>, t: u16)
    requires multiset(a) == multiset(b) && DistinctTypes(a)
    ensures DistinctTypes(b) && Find(a, t) == Find(b, t)
  {
    FlatMapPermute(TypeOne, a, b);
    FindIffPresent(a, t);
    FindIffPresent(b, t);
    if Find(a, t).Some? {
      var f :| f in a && ExtType(f) == t && Data(f) == Find(a, t).value;
      assert f in multiset(b);
      FindMember(b, f);
    }
  }

  // ---- Stability ----

  lemma ScanStable(e1: seq<frame>, e2: seq<frame>, s: Scan)
    requires multiset(KeptExts(e1)) == multiset(KeptExts(e2)) && DistinctTypes(KeptExts(e1))
    ensures var a, b := ScanAll(e1, s), ScanAll(e2, s);
            && a == Lookups(KeptExts(e1), s) && b == Lookups(KeptExts(e2), s)
            && a.(ids := []) == b.(ids := [])
            && multiset(a.ids) == multiset(b.ids)
  {
    hide DistinctTypes, SigAlgs, Versions, FirstProtocol, IsGrease, FlatMap, Find, ScanAll;
    var k1, k2 := KeptExts(e1), KeptExts(e2);
    ScanSkipsGrease(e1, s);
    ScanSkipsGrease(e2, s);
    KeptExtsAreKept(e1);
    KeptExtsAreKept(e2);
    FindPermuted(k1, k2, EXT_SIGNATURE_ALGORITHMS);
    FindPermuted(k1, k2, EXT_ALPN);
    FindPermuted(k1, k2, EXT_SERVER_NAME);
    FindPermuted(k1, k2, EXT_SUPPORTED_VERSIONS);
    ScanIsLookups(k1, s);
    ScanIsLookups(k2, s);
    FlatMapPermute(TypeOne, k1, k2);
  }

  lemma CipherInputStable(k1: seq<u16>, k2: seq<u16>)
    requires multiset(k1) == multiset(k2)
    ensures CipherInput(k1) == CipherInput(k2) && |k1| == |k2|
  {
    SameSize(k1, k2);
    FlatMapPermute(HexOne, k1, k2);
    SortForgetsOrder(Hex4s(k1), Hex4s(k2));
  }

  /** The fingerprint ignores the order of ciphers and extensions, and GREASE among both: it is the
      same for any two ClientHellos whose non-GREASE ciphers and non-GREASE extensions are the same up
      to order, provided no non-GREASE extension type occurs twice. */
  lemma Ja4IsStable(sha: string -> string, version: u16,
                    c1: seq<u16>, c2: seq<u16>, e1: seq<frame>, e2: seq<frame>)
    requires multiset(Kept(c1)) == multiset(Kept(c2))
    requires multiset(KeptExts(e1)) == multiset(KeptExts(e2)) && DistinctTypes(KeptExts(e1))
    ensures Fingerprint(sha, version, c1, e1) == Fingerprint(sha, version, c2, e2)
  {
    hide DistinctTypes, FlatMap, ScanAll, Lookups, Join, SortStrings;
    var s := Scan([], [], "", false, version);
    ScanStable(e1, e2, s);
    CipherInputStable(Kept(c1), Kept(c2));
    var a, b := ScanAll(e1, s), ScanAll(e2, s);
    SameSize(a.ids, b.ids);
    FlatMapPermute(HashOne, a.ids, b.ids);
    FlatMapPermute(HexOne, Hashable(a.ids), Hashable(b.ids));
    SortForgetsOrder(Hex4s(Hashable(a.ids)), Hex4s(Hashable(b.ids)));
  }

  // ---- GREASE where the parser does not look for it ----

  lemma {:induction false} MaxOfBounds(vs: seq<u16>, v: u16)
    ensures MaxOf(vs, v) >= v && forall x :: x in vs ==> MaxOf(vs, v) >= x
    ensures MaxOf(vs, v) == v || MaxOf(vs, v) in vs
  {
    if vs != [] {
      MaxOfBounds(vs[1..], if vs[0] > v then vs[0] else v);
      assert vs == [vs[0]] + vs[1..];
    }
  }

  predicate NoGrease(vs: seq<u16>) {
    forall v :: v in vs ==> !IsGrease(v)
  }

  lemma GreaseIsUnknown(v: u16)
    ensures IsGrease(v) ==> v >= 0x0a0a
    ensures v > 0x0304 ==> VersionString(v) == "00"
  {
  }

  /** Values inside supported_versions are not filtered. The version string is that of the best version
      that is not GREASE exactly when the list has no GREASE, or that best version has no name of its own
      anyway; otherwise it reads "00". */
  lemma GreaseVersionShowsThrough(vs: seq<u16>, legacy: u16)
    ensures VersionString(MaxOf(vs, legacy)) == VersionString(MaxOf(Kept(vs), legacy))
       <==> NoGrease(vs) || VersionString(MaxOf(Kept(vs), legacy)) == "00"
    ensures !NoGrease(vs) ==> VersionString(MaxOf(vs, legacy)) == "00"
  {
    MaxOfBounds(vs, legacy);
    MaxOfBounds(Kept(vs), legacy);
    KeptMembers(vs);
    var best := MaxOf(vs, legacy);
    if v :| v in vs && IsGrease(v) {
      GreaseIsUnknown(v);
      GreaseIsUnknown(best);
    } else {
      NothingDropped(vs);
    }
  }

  lemma {:induction false} KeptMembers(vs: seq<u16>)
    ensures forall v :: v in Kept(vs) <==> v in vs && !IsGrease(v)
  {
    if vs != [] {
      KeptMembers(vs[1..]);
      assert vs == [vs[0]] + vs[1..];
    }
  }

  lemma {:induction false} NothingDropped(vs: seq<u16>)
    requires NoGrease(vs)
    ensures Kept(vs) == vs
  {
    if vs != [] {
      NothingDropped(vs[1..]);
      assert vs[0] in vs && vs == [vs[0]] + vs[1..];
    }
  }

  // ---- What the hashed parts still tell apart ----

  /** server_name (type 0) and ALPN (type 0x10) are counted but not hashed, every other type as often as it
      occurs. */
  lemma {:induction false} HashableCounts(ids: seq<u16>, t: u16)
    ensures multiset(Hashable(ids))[t] == if t == 0x0000 || t == 0x0010 then 0 else multiset(ids)[t]
  {
    if ids != [] {
      HashableCounts(ids[1..], t);
      assert ids == [ids[0]] + ids[1..];
      assert Hashable(ids) == HashOne(ids[0]) + Hashable(ids[1..]);
    }
  }

  function HexValue(c: char): nat {
    if '0' <= c <= '9' then c as int - '0' as int else if 'a' <= c <= 'f' then c as int - 'a' as int + 10 else 0
  }

  function UnhexOne(s: string): seq<u16> {
    if |s| == 4 then
      [HexValue(s[0]) * 0x1000 + HexValue(s[1]) * 0x100 + HexValue(s[2]) * 0x10 + HexValue(s[3])]
    else []
  }

  lemma DigitValue(d: nat)
    requires d < 0x10
    ensures HexValue(DIGITS[d]) == d && DIGITS[d] != '_' && DIGITS[d] != ','
  {
  }

  lemma FourDigits(v: u16)
    ensures v == v / 0x1000 * 0x1000 + v / 0x100 % 0x10 * 0x100 + v / 0x10 % 0x10 * 0x10 + v % 0x10
  {
    var w := v / 0x10;
    var u := w / 0x10;
    assert v == 0x10 * w + v % 0x10;
    assert w == 0x10 * u + w % 0x10;
    assert u == 0x10 * (u / 0x10) + u % 0x10;
    assert u == v / 0x100 && u / 0x10 == v / 0x1000;
  }

  lemma UnhexHex(v: u16)
    ensures UnhexOne(Hex4(v)) == [v]
    ensures '_' !in Hex4(v)
  {
    hide HexValue;
    FourDigits(v);
    DigitValue(v / 0x1000);
    DigitValue(v / 0x100 % 0x10);
    DigitValue(v / 0x10 % 0x10);
    DigitValue(v % 0x10);
  }

  /** A count in two digits, 99 from 99 on. */
  lemma TwoDigitCounts(n: nat)
    ensures |TwoDigit(n)| == 2
    ensures 10 * HexValue(TwoDigit(n)[0]) + HexValue(TwoDigit(n)[1]) == if n < 99 then n else 99
  {
    var m := if n > 99 then 99 else n;
    DigitValue(m / 10);
    DigitValue(m % 10);
    hide HexValue;
  }

  lemma {:induction false} UnhexAll(vs: seq<u16>)
    ensures FlatMap(UnhexOne, Hex4s(vs)) == vs
  {
    hide UnhexOne, Hex4;
    if vs != [] {
      UnhexAll(vs[1..]);
      UnhexHex(vs[0]);
      FlatMapOne(UnhexOne, Hex4(vs[0]));
      FlatMapAppend(UnhexOne, [Hex4(vs[0])], Hex4s(vs[1..]));
      assert vs == [vs[0]] + vs[1..];
    }
  }

  ghost predicate FourEach(parts: seq<string>) {
    forall i :: 0 <= i < |parts| ==> |parts[i]| == 4
  }

  lemma {:induction false} JoinLength(parts: seq<string>)
    requires FourEach(parts)
    ensures |Join(parts, ",")| == if parts == [] then 0 else 5 * |parts| - 1
  {
    if |parts| > 1 {
      JoinLength(parts[1..]);
    }
  }

  lemma {:induction false} JoinInjective(a: seq<string>, b: seq<string>)
    requires FourEach(a) && FourEach(b) && Join(a, ",") == Join(b, ",")
    ensures a == b
  {
    JoinLength(a);
    JoinLength(b);
    assert |a| == |b|;
    if |a| == 1 {
      assert a == [a[0]] && b == [b[0]];
    } else if |a| > 1 {
      var ja, jb := Join(a, ","), Join(b, ",");
      assert ja[..4] == a[0] && jb[..4] == b[0];
      assert ja[5..] == Join(a[1..], ",") && jb[5..] == Join(b[1..], ",");
      JoinInjective(a[1..], b[1..]);
      assert a == [a[0]] + a[1..] && b == [b[0]] + b[1..];
    }
  }

  lemma SortedHexFour(vs: seq<u16>)
    ensures FourEach(Hex4s(vs)) && FourEach(SortStrings(Hex4s(vs)))
  {
    Hex4sSize(vs);
    SortStringsSorts(Hex4s(vs));
    var sorted := SortStrings(Hex4s(vs));
    forall i | 0 <= i < |sorted|
      ensures |sorted[i]| == 4
    {
      assert sorted[i] in multiset(sorted);
      assert sorted[i] in Hex4s(vs);
    }
  }

  lemma SortedJoinExact(k1: seq<u16>, k2: seq<u16>)
    ensures Join(SortStrings(Hex4s(k1)), ",") == Join(SortStrings(Hex4s(k2)), ",")
       <==> multiset(k1) == multiset(k2)
  {
    if Join(SortStrings(Hex4s(k1)), ",") == Join(SortStrings(Hex4s(k2)), ",") {
      SortedHexFour(k1);
      SortedHexFour(k2);
      JoinInjective(SortStrings(Hex4s(k1)), SortStrings(Hex4s(k2)));
      SortForgetsOrder(Hex4s(k1), Hex4s(k2));
      FlatMapPermute(UnhexOne, Hex4s(k1), Hex4s(k2));
      UnhexAll(k1);
      UnhexAll(k2);
    } else if multiset(k1) == multiset(k2) {
      CipherInputStable(k1, k2);
    }
  }

  /** The cipher hash is fed the same string iff the non-GREASE ciphers agree up to order. */
  lemma CipherInputExact(c1: seq<u16>, c2: seq<u16>)
    ensures CipherInput(Kept(c1)) == CipherInput(Kept(c2)) <==> multiset(Kept(c1)) == multiset(Kept(c2))
  {
    SortedJoinExact(Kept(c1), Kept(c2));
  }

  lemma {:induction false} JoinHasNoUnderscore(parts: seq<string>)
    requires forall i :: 0 <= i < |parts| ==> '_' !in parts[i]
    ensures '_' !in Join(parts, ",")
  {
    if |parts| > 1 {
      JoinHasNoUnderscore(parts[1..]);
    }
  }

  lemma ExtensionPartHasNoUnderscore(vs: seq<u16>)
    ensures '_' !in Join(SortStrings(Hex4s(vs)), ",")
  {
    Hex4sSize(vs);
    SortStringsSorts(Hex4s(vs));
    var sorted := SortStrings(Hex4s(vs));
    forall i | 0 <= i < |sorted|
      ensures '_' !in sorted[i]
    {
      assert sorted[i] in multiset(sorted);
      assert sorted[i] in Hex4s(vs);
      var j :| 0 <= j < |vs| && Hex4s(vs)[j] == sorted[i];
      UnhexHex(vs[j]);
    }
    JoinHasNoUnderscore(sorted);
  }

  /** The first underscore splits a string in one way only. */
  lemma UnderscoreSplits(a: string, x: string, b: string, y: string)
    requires '_' !in a && '_' !in b
    requires x == "" || x[0] == '_'
    requires y == "" || y[0] == '_'
    requires a + x == b + y
    ensures a == b && x == y
  {
    var s := a + x;
    assert a == s[..|a|] && b == (b + y)[..|b|];
    assert x == s[|a|..] && y == (b + y)[|b|..];
  }

  /** The extension hash is fed the same string iff the hashed extension types agree up to order and
      the signature schemes agree in order. */
  lemma ExtensionInputExact(i1: seq<u16>, g1: seq<u16>, i2: seq<u16>, g2: seq<u16>)
    ensures ExtensionInput(i1, g1) == ExtensionInput(i2, g2)
       <==> multiset(Hashable(i1)) == multiset(Hashable(i2)) && g1 == g2
  {
    hide FlatMap, SortStrings, Join;
    var x := if g1 == [] then "" else "_" + Join(Hex4s(g1), ",");
    var y := if g2 == [] then "" else "_" + Join(Hex4s(g2), ",");
    SortedJoinExact(Hashable(i1), Hashable(i2));
    if ExtensionInput(i1, g1) == ExtensionInput(i2, g2) {
      ExtensionPartHasNoUnderscore(Hashable(i1));
      ExtensionPartHasNoUnderscore(Hashable(i2));
      UnderscoreSplits(Join(SortStrings(Hex4s(Hashable(i1))), ","), x,
                       Join(SortStrings(Hex4s(Hashable(i2))), ","), y);
      if g1 != [] && g2 != [] {
        assert x[1..] == Join(Hex4s(g1), ",") && y[1..] == Join(Hex4s(g2), ",");
        SortedHexFour(g1);
        SortedHexFour(g2);
        JoinInjective(Hex4s(g1), Hex4s(g2));
        UnhexAll(g1);
        UnhexAll(g2);
      }
    }
  }
}
