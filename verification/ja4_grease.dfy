/** GREASE in every list that the fingerprint reads (RFC 8701): among the ciphers, as extensions, among the
    versions, the signature schemes and the application protocols. When does the fingerprint stay the same?
    What other extensions carry is not read at all. */
module Ja4Grease {
  import opened Bytes
  import opened Frames
  import opened Lists
  import opened Outcomes
  import opened Text
  import opened Ja4
  import opened Ja4Stability
  import opened ClientHello

  // ---- The values offered inside extensions ----

  function SchemesOf(f: frame): seq<u16> {
    if ExtType(f) == EXT_SIGNATURE_ALGORITHMS then SigAlgs(Data(f)) else []
  }

  function Schemes(fs: seq<frame>): seq<u16> {
    FlatMap(SchemesOf, fs)
  }

  function VersionsOf(f: frame): seq<u16> {
    if ExtType(f) == EXT_SUPPORTED_VERSIONS then Versions(Data(f)) else []
  }

  function Offered(fs: seq<frame>): seq<u16> {
    FlatMap(VersionsOf, fs)
  }

  /** The protocol found after one more extension. */
  function AlpnAfter(f: frame, found: string): string {
    if ExtType(f) != EXT_ALPN then found
    else match FirstProtocol(Data(f))
      case None => found
      case Some(p) => p
  }

  /** The protocol found in a list of extensions: the first one of the last usable ALPN extension. */
  function AlpnOf(fs: seq<frame>, found: string): string {
    if fs == [] then found else AlpnOf(fs[1..], AlpnAfter(fs[0], found))
  }

  lemma {:induction false} MaxOfAppend(a: seq<u16>, b: seq<u16>, v: u16)
    ensures MaxOf(a + b, v) == MaxOf(b, MaxOf(a, v))
  {
    if a == [] {
      assert a + b == b;
    } else {
      assert (a + b)[1..] == a[1..] + b;
      MaxOfAppend(a[1..], b, if a[0] > v then a[0] else v);
    }
  }

  /** A scan collects the schemes, the best version and the protocol of all extensions, repeated ones
      included. */
  lemma {:induction false} ScanCollects(fs: seq<frame>, s: Scan)
    ensures ScanAll(fs, s).sigAlgs == s.sigAlgs + Schemes(fs)
    ensures ScanAll(fs, s).version == MaxOf(Offered(fs), s.version)
    ensures ScanAll(fs, s).alpn == AlpnOf(fs, s.alpn)
    decreases fs
  {
    CollectStep(fs, s);
    hide *;
    if fs == [] {
      assert s.sigAlgs + [] == s.sigAlgs;
    } else {
      ScanCollects(fs[1..], ScanOne(fs[0], s));
      ScanOneCollects(fs[0], s);
      MaxOfAppend(VersionsOf(fs[0]), Offered(fs[1..]), s.version);
      assert s.sigAlgs + (SchemesOf(fs[0]) + Schemes(fs[1..])) == (s.sigAlgs + SchemesOf(fs[0])) + Schemes(fs[1..]);
    }
  }

  lemma CollectStep(fs: seq<frame>, s: Scan)
    ensures fs == [] ==> Schemes(fs) == [] && MaxOf(Offered(fs), s.version) == s.version && ScanAll(fs, s) == s
    ensures AlpnOf(fs, s.alpn) == if fs == [] then s.alpn else AlpnOf(fs[1..], AlpnAfter(fs[0], s.alpn))
    ensures fs != [] ==>
              && Schemes(fs) == SchemesOf(fs[0]) + Schemes(fs[1..])
              && Offered(fs) == VersionsOf(fs[0]) + Offered(fs[1..])
              && ScanAll(fs, s) == ScanAll(fs[1..], ScanOne(fs[0], s))
  {
    hide ScanOne, SchemesOf, VersionsOf, AlpnAfter;
  }

  lemma ScanOneCollects(f: frame, s: Scan)
    ensures ScanOne(f, s).sigAlgs == s.sigAlgs + SchemesOf(f)
    ensures ScanOne(f, s).version == MaxOf(VersionsOf(f), s.version)
    ensures ScanOne(f, s).alpn == AlpnAfter(f, s.alpn)
  {
    hide IsGrease, SigAlgs, Versions, FirstProtocol;
    assert s.sigAlgs + [] == s.sigAlgs;
  }

  // ---- The same hello without GREASE ----

  function EncodeSchemes(schemes: seq<u16>): bytes {
    PutU16(2 * |schemes|) + EncodeU16s(schemes)
  }

  function EncodeVersions(versions: seq<u16>): bytes {
    [2 * |versions| % 0x100] + EncodeU16s(versions)
  }

  // Application protocols: a 16-bit list length, then names with an 8-bit length (RFC 7301).

  predicate IsName(p: bytes) {
    0 < |p| < 0x100
  }

  /** GREASE identifiers are the two octets of a GREASE value. */
  predicate IsGreaseName(p: bytes) {
    |p| == 2 && IsGrease(p[0] as int * 0x100 + p[1])
  }

  function PutName(p: bytes): bytes {
    [|p| % 0x100] + p
  }

  function EncodeAlpn(names: seq<bytes>): bytes {
    PutU16(|FlatMap(PutName, names)|) + FlatMap(PutName, names)
  }

  function ReadNames(b: bytes): Option<seq<bytes>>
    decreases |b|
  {
    if b == [] then Some([])
    else if b[0] == 0 || 1 + b[0] as int > |b| then None
    else match ReadNames(b[1 + b[0] as int..])
      case None => None
      case Some(rest) => Some([b[1..1 + b[0] as int]] + rest)
  }

  /** The protocols of a well-formed ALPN extension. */
  function Names(data: bytes): Option<seq<bytes>> {
    if |data| < 2 || U16At(data, 0) != |data| - 2 then None else ReadNames(data[2..])
  }

  function KeepName(p: bytes): seq<bytes> { if IsGreaseName(p) then [] else [p] }

  function KeptNames(names: seq<bytes>): seq<bytes> {
    FlatMap(KeepName, names)
  }

  /** An extension without its GREASE; a GREASE-typed one disappears. */
  function CleanOne(f: frame): seq<frame> {
    if IsGrease(ExtType(f)) then []
    else if ExtType(f) == EXT_SIGNATURE_ALGORITHMS then
      [Ext(EXT_SIGNATURE_ALGORITHMS, EncodeSchemes(Kept(SigAlgs(Data(f)))))]
    else if ExtType(f) == EXT_SUPPORTED_VERSIONS then
      [Ext(EXT_SUPPORTED_VERSIONS, EncodeVersions(Kept(Versions(Data(f)))))]
    else if ExtType(f) == EXT_ALPN && Names(Data(f)).Some? then
      [Ext(EXT_ALPN, EncodeAlpn(KeptNames(Names(Data(f)).value)))]
    else [f]
  }

  function Clean(fs: seq<frame>): seq<frame> {
    FlatMap(CleanOne, fs)
  }

  lemma {:induction false} U16sSize(b: bytes)
    ensures |U16s(b)| == |b| / 2
  {
    if |b| >= 2 {
      U16sSize(b[2..]);
    }
  }

  lemma {:induction false} KeptIsShorter(vs: seq<u16>)
    ensures |Kept(vs)| <= |vs|
  {
    if vs != [] {
      KeptIsShorter(vs[1..]);
    }
  }

  lemma SchemesRead(schemes: seq<u16>)
    requires |schemes| < 0x8000
    ensures SigAlgs(EncodeSchemes(schemes)) == schemes && |EncodeSchemes(schemes)| == 2 + 2 * |schemes|
  {
    hide PutU16, EncodeU16s, U16s;
    U16sEncode(schemes);
    var d := EncodeSchemes(schemes);
    assert d[0..2] == PutU16(2 * |schemes|);
    U16Field(d, 0, 2 * |schemes|);
    assert d[2..] == EncodeU16s(schemes) && d[2..|d|] == d[2..];
  }

  lemma VersionsRead(versions: seq<u16>)
    requires |versions| < 0x80
    ensures Versions(EncodeVersions(versions)) == versions && |EncodeVersions(versions)| == 1 + 2 * |versions|
  {
    hide EncodeU16s, U16s;
    U16sEncode(versions);
    var d := EncodeVersions(versions);
    assert d[1..|d|] == EncodeU16s(versions);
  }

  lemma SchemesFit(data: bytes)
    requires |data| < 0x1_0000
    ensures |Kept(SigAlgs(data))| < 0x7fff
  {
    KeptIsShorter(SigAlgs(data));
    hide Kept;
    if |data| >= 2 {
      U16sSize(data[2..Min(2 + U16At(data, 0), |data|)]);
    }
    hide U16s;
  }

  lemma VersionsFit(data: bytes)
    ensures |Kept(Versions(data))| < 0x80
  {
    KeptIsShorter(Versions(data));
    hide Kept;
    if |data| >= 3 {
      U16sSize(data[1..Min(1 + data[0] as int, |data|)]);
    }
    hide U16s;
  }

  lemma KeptTwice(vs: seq<u16>)
    ensures Kept(Kept(vs)) == Kept(vs)
  {
    KeptMembers(vs);
    NothingDropped(Kept(vs));
  }

  lemma {:induction false} NamesFit(b: bytes)
    requires ReadNames(b).Some?
    ensures forall i :: 0 <= i < |ReadNames(b).value| ==> IsName(ReadNames(b).value[i])
    ensures |FlatMap(PutName, KeptNames(ReadNames(b).value))| <= |b|
    decreases |b|
  {
    if b != [] {
      var n := 1 + b[0] as int;
      var rest := ReadNames(b[n..]).value;
      NamesFit(b[n..]);
      var p := b[1..n];
      var names := [p] + rest;
      assert names[1..] == rest;
      assert KeptNames(names) == KeepName(p) + KeptNames(rest);
      FlatMapAppend(PutName, KeepName(p), KeptNames(rest));
      FlatMapOne(PutName, p);
      assert FlatMap(PutName, []) == [];
      hide FlatMap, IsGreaseName;
      assert |PutName(p)| == n;
    }
  }

  /** What cleaning does to one extension: its GREASE values are gone from both lists, all else is kept. */
  lemma CleanOneReads(f: frame)
    requires IsFrame(Extension, f)
    ensures Schemes(CleanOne(f)) == Kept(SchemesOf(f)) && Offered(CleanOne(f)) == Kept(VersionsOf(f))
    ensures AreFrames(Extension, CleanOne(f))
    ensures CleanOne(f) == [] <==> IsGrease(ExtType(f))
    ensures CleanOne(f) != [] ==> |CleanOne(f)| == 1 && ExtType(CleanOne(f)[0]) == ExtType(f)
    ensures CleanOne(f) == [] || CleanOne(f) == [f]
            || ExtType(f) in {EXT_SIGNATURE_ALGORITHMS, EXT_SUPPORTED_VERSIONS, EXT_ALPN}
  {
    var t, data := ExtType(f), Data(f);
    assert |data| < 0x1_0000;
    assert Kept([]) == [];
    SchemesFit(data);
    VersionsFit(data);
    SchemesRead(Kept(SigAlgs(data)));
    VersionsRead(Kept(Versions(data)));
    ExtFields(EXT_SIGNATURE_ALGORITHMS, EncodeSchemes(Kept(SigAlgs(data))));
    ExtFields(EXT_SUPPORTED_VERSIONS, EncodeVersions(Kept(Versions(data))));
    if Names(data).Some? {
      NamesFit(data[2..]);
      ExtFields(EXT_ALPN, EncodeAlpn(KeptNames(Names(data).value)));
    }
    hide EncodeAlpn, KeptNames, Names;
    hide SigAlgs, Versions, EncodeSchemes, EncodeVersions, Kept, Ext, Data, IsFrame;
    if CleanOne(f) != [] {
      var g := CleanOne(f)[0];
      assert CleanOne(f) == [g];
      FlatMapOne(SchemesOf, g);
      FlatMapOne(VersionsOf, g);
    }
  }

  lemma {:induction false} CleanReads(fs: seq<frame>)
    requires AreFrames(Extension, fs)
    ensures Schemes(Clean(fs)) == Kept(Schemes(fs)) && Offered(Clean(fs)) == Kept(Offered(fs))
  {
    hide CleanOne, SchemesOf, VersionsOf, KeepOne, IsFrame;
    if fs != [] {
      assert IsFrame(Extension, fs[0]) && AreFrames(Extension, fs[1..]);
      CleanOneReads(fs[0]);
      CleanReads(fs[1..]);
      FlatMapAppend(SchemesOf, CleanOne(fs[0]), Clean(fs[1..]));
      FlatMapAppend(VersionsOf, CleanOne(fs[0]), Clean(fs[1..]));
      FlatMapAppend(KeepOne, SchemesOf(fs[0]), Schemes(fs[1..]));
      FlatMapAppend(KeepOne, VersionsOf(fs[0]), Offered(fs[1..]));
    }
  }

  /** Two scans that differ in schemes, version and protocol at most. */
  predicate Alike(s: Scan, c: Scan) {
    s.ids == c.ids && s.hasSni == c.hasSni
  }

  lemma {:induction false} CleanScansAlike(fs: seq<frame>, s: Scan, c: Scan)
    requires AreFrames(Extension, fs) && Alike(s, c)
    ensures Alike(ScanAll(fs, s), ScanAll(Clean(fs), c))
    decreases fs
  {
    if fs != [] {
      assert IsFrame(Extension, fs[0]) && AreFrames(Extension, fs[1..]);
      CleanOneReads(fs[0]);
      var rest := Clean(fs[1..]);
      if IsGrease(ExtType(fs[0])) {
        GreaseIsInert(fs[0], s);
        assert Clean(fs) == rest;
        CleanScansAlike(fs[1..], s, c);
      } else {
        var g := CleanOne(fs[0])[0];
        assert Clean(fs) == [g] + rest && ([g] + rest)[1..] == rest;
        ScanOneAlike(fs[0], g, s, c);
        hide ScanOne, CleanOne, IsFrame, FlatMap;
        CleanScansAlike(fs[1..], ScanOne(fs[0], s), ScanOne(g, c));
      }
    }
  }

  lemma ScanOneAlike(f: frame, g: frame, s: Scan, c: Scan)
    requires ExtType(f) == ExtType(g) && Alike(s, c)
    requires f == g || ExtType(f) in {EXT_SIGNATURE_ALGORITHMS, EXT_SUPPORTED_VERSIONS, EXT_ALPN}
    ensures Alike(ScanOne(f, s), ScanOne(g, c))
  {
    hide IsGrease, SigAlgs, Versions, FirstProtocol, MaxOf;
  }

  // ---- The fingerprint ----

  function Start(version: u16): Scan {
    Scan([], [], "", false, version)
  }

  function HashInput(version: u16, exts: seq<frame>): string {
    var s := ScanAll(exts, Start(version));
    ExtensionInput(s.ids, s.sigAlgs)
  }

  /** Two scans that hash alike. */
  predicate HashedAlike(s: Scan, c: Scan) {
    Hashable(s.ids) == Hashable(c.ids) && s.sigAlgs == c.sigAlgs
  }

  lemma ScanOneHashed(f: frame, s: Scan, c: Scan)
    requires HashedAlike(s, c)
    ensures HashedAlike(ScanOne(f, s), ScanOne(f, c))
    ensures ExtType(f) == 0x0000 || ExtType(f) == 0x0010 ==> HashedAlike(ScanOne(f, s), c)
  {
    FlatMapSnoc(HashOne, s.ids, ExtType(f));
    FlatMapSnoc(HashOne, c.ids, ExtType(f));
    hide FlatMap, ExtType, IsGrease, SigAlgs, FirstProtocol, Versions, MaxOf;
    if ExtType(f) == 0x0000 || ExtType(f) == 0x0010 {
      assert Hashable(s.ids) + [] == Hashable(s.ids);
    }
  }

  lemma {:induction false} ScanAllHashed(fs: seq<frame>, s: Scan, c: Scan)
    requires HashedAlike(s, c)
    ensures HashedAlike(ScanAll(fs, s), ScanAll(fs, c))
    decreases fs
  {
    hide ScanOne, Hashable;
    if fs != [] {
      ScanOneHashed(fs[0], s, c);
      ScanAllHashed(fs[1..], ScanOne(fs[0], s), ScanOne(fs[0], c));
    }
  }

  /** A server_name or an ALPN extension, wherever it is added, leaves the hash input as it is. */
  lemma {:induction false} UnhashedAnywhere(pre: seq<frame>, f: frame, post: seq<frame>, s: Scan)
    requires ExtType(f) == 0x0000 || ExtType(f) == 0x0010
    ensures HashedAlike(ScanAll(pre + [f] + post, s), ScanAll(pre + post, s))
    decreases pre
  {
    hide ScanOne, HashedAlike, ExtType;
    if pre == [] {
      assert pre + [f] + post == [f] + post && ([f] + post)[1..] == post && pre + post == post;
      assert HashedAlike(s, s) by {
        AlikeItself(s);
      }
      ScanOneHashed(f, s, s);
      ScanAllHashed(post, ScanOne(f, s), s);
    } else {
      assert (pre + [f] + post)[0] == pre[0] && (pre + [f] + post)[1..] == pre[1..] + [f] + post;
      assert (pre + post)[0] == pre[0] && (pre + post)[1..] == pre[1..] + post;
      UnhashedAnywhere(pre[1..], f, post, ScanOne(pre[0], s));
    }
  }

  lemma AlikeItself(s: Scan)
    ensures HashedAlike(s, s)
  {
  }

  lemma NameAndAlpnAreNotHashed(version: u16, pre: seq<frame>, f: frame, post: seq<frame>)
    requires ExtType(f) == 0x0000 || ExtType(f) == 0x0010
    ensures HashInput(version, pre + [f] + post) == HashInput(version, pre + post)
  {
    UnhashedAnywhere(pre, f, post, Start(version));
    hide ScanAll, ExtType, Hashable, Join, SortStrings, Hex4s;
  }

  lemma VersionStringSize(v: u16)
    ensures |VersionString(v)| == 2
  {
  }

  /** One octet's string is known from what it starts. */
  lemma OctetStringSplits(c: char, x: string, d: char, y: string)
    requires c as int < 0x100 && d as int < 0x100
    ensures OctetString(c) + x == OctetString(d) + y <==> c == d && x == y
  {
    var a, b := OctetString(c) + x, OctetString(d) + y;
    if a == b {
      assert a[0] == OctetString(c)[0] && b[0] == OctetString(d)[0];
      if c as int >= 0x80 {
        assert a[1] == OctetString(c)[1] && b[1] == OctetString(d)[1];
      }
      assert x == a[|OctetString(c)|..] && y == b[|OctetString(d)|..];
    }
  }

  datatype Shown = Shown(first: char, last: char)

  /** The two characters an ALPN component shows. */
  function Ends(alpn: string): (e: Shown)
    requires IsOctets(alpn)
    ensures e.first as int < 0x100 && e.last as int < 0x100
  {
    if alpn == "" then Shown('0', '0')
    else if alpn == "h2" then Shown('h', '2')
    else if alpn == "h3" then Shown('h', '3')
    else if alpn == "http/1.1" then Shown('h', '1')
    else if alpn == "http/1.0" then Shown('h', '0')
    else Shown(alpn[0], alpn[|alpn| - 1])
  }

  lemma ComponentIsEnds(alpn: string)
    requires IsOctets(alpn)
    ensures AlpnComponent(alpn) == OctetString(Ends(alpn).first) + OctetString(Ends(alpn).last)
  {
    assert OctetString('h') == "h" && OctetString('0') == "0" && OctetString('1') == "1";
    assert OctetString('2') == "2" && OctetString('3') == "3";
    hide OctetString;
  }

  /** Two components with anything behind agree only when they are equal. */
  lemma ComponentSplits(a: string, x: string, b: string, y: string)
    requires IsOctets(a) && IsOctets(b)
    ensures AlpnComponent(a) + x == AlpnComponent(b) + y <==> AlpnComponent(a) == AlpnComponent(b) && x == y
  {
    ComponentIsEnds(a);
    ComponentIsEnds(b);
    hide OctetString, AlpnComponent, Ends;
    var Shown(c, d) := Ends(a);
    var Shown(e, f) := Ends(b);
    OctetStringSplits(c, OctetString(d) + x, e, OctetString(f) + y);
    OctetStringSplits(d, x, f, y);
    assert OctetString(c) + OctetString(d) + x == OctetString(c) + (OctetString(d) + x);
    assert OctetString(e) + OctetString(f) + y == OctetString(e) + (OctetString(f) + y);
  }

  lemma {:induction false} AlpnIsOctets(fs: seq<frame>, found: string)
    requires IsOctets(found)
    ensures IsOctets(AlpnOf(fs, found))
    decreases fs
  {
    hide FirstProtocol;
    if fs != [] {
      FirstIsOctets(Data(fs[0]));
      AlpnIsOctets(fs[1..], AlpnAfter(fs[0], found));
    }
  }

  lemma FirstIsOctets(data: bytes)
    ensures FirstProtocol(data).Some? ==> IsOctets(FirstProtocol(data).value)
  {
  }

  function Middle(ciphers: nat, s: Scan): string {
    (if s.hasSni then "d" else "i") + TwoDigit(ciphers) + TwoDigit(|s.ids|)
  }

  /** Two fingerprints that agree up to version, protocol and last hash agree altogether only when they agree
      in all three. */
  lemma PartsAgree(v: string, w: string, mid: string, a: string, b: string, hash: string, x: string, y: string)
    requires |v| == |w| && IsOctets(a) && IsOctets(b)
    ensures "t" + v + mid + AlpnComponent(a) + "_" + hash + "_" + x
         == "t" + w + mid + AlpnComponent(b) + "_" + hash + "_" + y
       <==> v == w && AlpnComponent(a) == AlpnComponent(b) && x == y
  {
    hide AlpnComponent;
    var p, q := "t" + v + mid, "t" + w + mid;
    var c, d := "_" + hash + "_" + x, "_" + hash + "_" + y;
    ComponentSplits(a, c, b, d);
    ConcatEqual(p, AlpnComponent(a) + c, q, AlpnComponent(b) + d);
    ConcatEqual("t" + v, mid, "t" + w, mid);
    ConcatEqual("t", v, "t", w);
    ConcatEqual("_" + hash + "_", x, "_" + hash + "_", y);
    assert p + (AlpnComponent(a) + c) == "t" + v + mid + AlpnComponent(a) + "_" + hash + "_" + x;
    assert q + (AlpnComponent(b) + d) == "t" + w + mid + AlpnComponent(b) + "_" + hash + "_" + y;
  }

  lemma PrefixSplits(ciphers: nat, s: Scan)
    ensures Prefix(ciphers, s) == "t" + VersionString(s.version) + Middle(ciphers, s) + AlpnComponent(s.alpn)
  {
    hide VersionString, TwoDigit, AlpnComponent;
  }

  /** GREASE in the lists the fingerprint reads leaves it as it is exactly when there is none among the
      signature schemes; none among the supported versions, unless the best other version has no name anyway;
      and the protocol found shows the same two characters without it. Ciphers and extension types may carry
      any amount. The hash must not collide on the two strings compared. */
  lemma GreaseAnywhere(sha: string -> string, version: u16, ciphers: seq<u16>, exts: seq<frame>)
    requires AreFrames(Extension, exts)
    requires var x, y := HashInput(version, exts), HashInput(version, Clean(exts)); sha(x) == sha(y) ==> x == y
    ensures Fingerprint(sha, version, ciphers, exts) == Fingerprint(sha, version, Kept(ciphers), Clean(exts))
       <==> && NoGrease(Schemes(exts))
            && (NoGrease(Offered(exts)) || VersionString(MaxOf(Kept(Offered(exts)), version)) == "00")
            && AlpnComponent(AlpnOf(exts, "")) == AlpnComponent(AlpnOf(Clean(exts), ""))
  {
    var s, c := ScanAll(exts, Start(version)), ScanAll(Clean(exts), Start(version));
    ScanCollects(exts, Start(version));
    ScanCollects(Clean(exts), Start(version));
    CleanReads(exts);
    CleanScansAlike(exts, Start(version), Start(version));
    KeptTwice(ciphers);
    AlpnIsOctets(exts, "");
    AlpnIsOctets(Clean(exts), "");
    hide ScanAll, VersionString, Clean, Schemes, Offered, MaxOf, ExtensionInput, CipherInput, FlatMap, AreFrames;
    hide IsGrease, AlpnOf, AlpnComponent, IsOctets, Prefix, NoGrease;
    assert [] + Schemes(exts) == Schemes(exts) && [] + Kept(Schemes(exts)) == Kept(Schemes(exts));
    var n := |Kept(ciphers)|;
    PrefixSplits(n, s);
    PrefixSplits(n, c);
    VersionStringSize(s.version);
    VersionStringSize(c.version);
    PartsAgree(VersionString(s.version), VersionString(c.version), Middle(n, s), s.alpn, c.alpn,
               sha(CipherInput(Kept(ciphers))), sha(HashInput(version, exts)), sha(HashInput(version, Clean(exts))));
    ExtensionInputExact(s.ids, s.sigAlgs, c.ids, c.sigAlgs);
    GreaseVersionShowsThrough(Offered(exts), version);
    SchemesKept(Schemes(exts));
  }

  /** The name begins and ends in the octet that the GREASE identifier repeats. */
  predicate BeginsAndEnds(name: bytes, grease: bytes) {
    name != [] && grease != [] && name[0] == grease[0] && name[|name| - 1] == grease[0]
  }

  /** The first protocol is taken unfiltered: with a GREASE identifier in front, the component is that of the
      list without GREASE exactly when the next protocol happens to begin and end in the same octet. */
  lemma GreaseProtocolShowsThrough(f: frame)
    requires IsFrame(Extension, f) && ExtType(f) == EXT_ALPN && Names(Data(f)).Some?
    ensures var names := Names(Data(f)).value;
            var kept := KeptNames(names);
            AlpnComponent(AlpnOf([f], "")) == AlpnComponent(AlpnOf(CleanOne(f), ""))
            <==> names == [] || !IsGreaseName(names[0])
                 || (kept != [] && BeginsAndEnds(kept[0], names[0]))
  {
    var data := Data(f);
    var names := Names(data).value;
    var kept := KeptNames(names);
    NamesFit(data[2..]);
    KeptNamesAre(names);
    CleanOneReads(f);
    var g := CleanOne(f)[0];
    assert !IsGrease(EXT_ALPN);
    ExtFields(EXT_ALPN, EncodeAlpn(kept));
    assert Data(g) == EncodeAlpn(kept);
    FirstOfNames(data);
    FirstOfEncoded(kept);
    assert CleanOne(f) == [g];
    AlpnOne(f);
    AlpnOne(g);
    hide AlpnOf, CleanOne, Names, KeptNames, EncodeAlpn, FirstProtocol;
    var p := if names == [] then "" else Str(names[0]);
    var q := if kept == [] then "" else Str(kept[0]);
    assert AlpnOf([f], "") == p && AlpnOf(CleanOne(f), "") == q;
    ComponentsDiffer(names, kept);
  }

  lemma AlpnOne(f: frame)
    ensures AlpnOf([f], "") == AlpnAfter(f, "")
  {
    hide AlpnAfter;
    assert [f][1..] == [];
  }

  lemma {:induction false} KeptNamesAre(names: seq<bytes>)
    requires forall i :: 0 <= i < |names| ==> IsName(names[i])
    ensures forall i :: 0 <= i < |KeptNames(names)| ==>
              IsName(KeptNames(names)[i]) && !IsGreaseName(KeptNames(names)[i])
    ensures names != [] && !IsGreaseName(names[0]) ==> KeptNames(names) != [] && KeptNames(names)[0] == names[0]
  {
    if names != [] {
      assert forall i :: 0 <= i < |names[1..]| ==> names[1..][i] == names[i + 1];
      KeptNamesAre(names[1..]);
      assert KeptNames(names) == KeepName(names[0]) + KeptNames(names[1..]);
    }
  }

  lemma FirstOfNames(data: bytes)
    requires Names(data).Some?
    ensures FirstProtocol(data) == if Names(data).value == [] then None else Some(Str(Names(data).value[0]))
  {
    var b := data[2..];
    if b != [] {
      assert b[0] == data[2] && b[1..1 + b[0] as int] == data[3..3 + data[2] as int];
    }
  }

  lemma FirstOfEncoded(names: seq<bytes>)
    requires forall i :: 0 <= i < |names| ==> IsName(names[i])
    ensures FirstProtocol(EncodeAlpn(names)) == if names == [] then None else Some(Str(names[0]))
  {
    hide PutU16;
    var data := EncodeAlpn(names);
    if names != [] {
      assert FlatMap(PutName, names) == PutName(names[0]) + FlatMap(PutName, names[1..]);
      assert data[2] == |names[0]| && data[3..3 + |names[0]|] == names[0];
    }
    hide FlatMap;
  }

  lemma ComponentsDiffer(names: seq<bytes>, kept: seq<bytes>)
    requires kept == KeptNames(names) && forall i :: 0 <= i < |names| ==> IsName(names[i])
    ensures var p := if names == [] then "" else Str(names[0]);
            var q := if kept == [] then "" else Str(kept[0]);
            AlpnComponent(p) == AlpnComponent(q)
            <==> names == [] || !IsGreaseName(names[0])
                 || (kept != [] && BeginsAndEnds(kept[0], names[0]))
  {
    KeptNamesAre(names);
    if names == [] {
      assert kept == [];
    } else if IsGreaseName(names[0]) {
      GreaseComponent(names[0], if kept == [] then [] else kept[0]);
      assert Str([]) == "";
    }
    hide IsGreaseName, AlpnComponent, FlatMap;
  }

  lemma GreaseComponent(g: bytes, name: bytes)
    requires IsGreaseName(g)
    ensures AlpnComponent(Str(g)) == AlpnComponent(Str(name)) <==> BeginsAndEnds(name, g)
  {
    GreaseEnds(g);
    NameEnds(name);
    hide IsGreaseName, Ends;
    ComponentIsEnds(Str(g));
    ComponentIsEnds(Str(name));
    hide AlpnComponent, OctetString;
    var Shown(c, d) := Ends(Str(g));
    var Shown(e, f) := Ends(Str(name));
    OctetStringSplits(c, OctetString(d), e, OctetString(f));
    OctetStringSplits(d, "", f, "");
    assert OctetString(d) + "" == OctetString(d) && OctetString(f) + "" == OctetString(f);
  }

  /** A name shows its first and last octet, or is one of four well-known names, or there is none; what is
      shown in those cases is never an octet that a GREASE identifier repeats. */
  lemma NameEnds(name: bytes)
    ensures var e := Ends(Str(name));
            || (name != [] && e == Shown(name[0] as char, name[|name| - 1] as char))
            || (e.first in {'0', 'h'} && (name == [] || name[0] == 'h' as int))
  {
    assert name != [] ==> Str(name)[0] == name[0] as char && Str(name)[|name| - 1] == name[|name| - 1] as char;
    assert "h2"[0] == "h3"[0] == "http/1.1"[0] == "http/1.0"[0] == 'h';
  }

  lemma GreaseEnds(p: bytes)
    requires IsGreaseName(p)
    ensures p[0] == p[1] && p[0] % 0x10 == 0xa && Ends(Str(p)) == Shown(p[0] as char, p[0] as char)
  {
    GreaseOctets(p[0], p[1]);
    hide IsGrease;
    var s := Str(p);
    assert |s| == 2 && s[0] == p[0] as char && s[1] == p[0] as char;
    assert 'h' as int % 0x10 != 0xa;
    assert s[0] != 'h';
  }

  lemma GreaseOctets(high: byte, low: byte)
    requires IsGrease(high as int * 0x100 + low)
    ensures high == low && low % 0x10 == 0xa
  {
    var v := high as int * 0x100 + low;
    assert v % 0x100 == low && v / 0x100 == high;
  }

  /** Payloads of all other extensions are not read: whatever they hold, GREASE groups and key shares
      included, the fingerprint is the same. */
  lemma {:induction false} OtherPayloadsAreUnread(fs: seq<frame>, gs: seq<frame>, s: Scan)
    requires |fs| == |gs|
    requires forall i :: 0 <= i < |fs| ==>
               && ExtType(fs[i]) == ExtType(gs[i])
               && (ExtType(fs[i]) in {EXT_SIGNATURE_ALGORITHMS, EXT_SUPPORTED_VERSIONS, EXT_ALPN} ==> fs[i] == gs[i])
    ensures ScanAll(fs, s) == ScanAll(gs, s)
    decreases fs
  {
    hide ExtType, SigAlgs, Versions, FirstProtocol, IsGrease, MaxOf;
    if fs != [] {
      assert ScanOne(fs[0], s) == ScanOne(gs[0], s);
      OtherPayloadsAreUnread(fs[1..], gs[1..], ScanOne(fs[0], s));
    }
  }

  /** Signature schemes are hashed unfiltered: the input is that of the list without GREASE exactly when
      the list has none. */
  lemma GreaseSchemesShowThrough(ids: seq<u16>, schemes: seq<u16>)
    ensures ExtensionInput(ids, schemes) == ExtensionInput(ids, Kept(schemes)) <==> NoGrease(schemes)
  {
    hide ExtensionInput, Kept, NoGrease, Hashable;
    ExtensionInputExact(ids, schemes, ids, Kept(schemes));
    SchemesKept(schemes);
  }

  lemma SchemesKept(vs: seq<u16>)
    ensures vs == Kept(vs) <==> NoGrease(vs)
  {
    KeptMembers(vs);
    if NoGrease(vs) {
      NothingDropped(vs);
    }
  }
}
