/** The ClientHello of the 0-RTT probe (section 4.1.2 of RFC 8446), and what any reader of it sees. */
module ClientHello {
  import opened Bytes
  import opened Frames
  import opened Lists
  import opened Outcomes
  import opened Ja4
  import opened Ja4Stability

  const HS_CLIENT_HELLO: byte := 1
  const CIPHER_AES128_GCM_SHA256: u16 := 0x1301
  const GROUP_X25519: u16 := 0x001d
  const EXT_SUPPORTED_GROUPS: u16 := 10
  const EXT_PSK_MODES: u16 := 45
  const EXT_KEY_SHARE: u16 := 51
  const SIGNATURE_ALGOS: seq<u16> :=
    [0x0804, 0x0403, 0x0401, 0x0805, 0x0503, 0x0806, 0x0603, 0x0501, 0x0601]

  function PutOne(v: u16): seq<byte> { PutU16(v) }

  function EncodeU16s(vs: seq<u16>): bytes {
    FlatMap(PutOne, vs)
  }

  lemma {:induction false} U16sEncode(vs: seq<u16>)
    ensures U16s(EncodeU16s(vs)) == vs && |EncodeU16s(vs)| == 2 * |vs|
  {
    if vs != [] {
      U16sEncode(vs[1..]);
      var b := EncodeU16s(vs);
      PutGetU16(vs[0]);
      hide PutU16;
      assert b == PutU16(vs[0]) + EncodeU16s(vs[1..]);
      assert U16At(b, 0) == U16At(PutU16(vs[0]), 0);
      assert b[2..] == EncodeU16s(vs[1..]);
      assert vs == [vs[0]] + vs[1..];
    }
  }

  /** A ClientHello as its sender means it. */
  datatype Hello = Hello(version: u16, random: bytes, sessionId: bytes, ciphers: seq<u16>,
                         compression: bytes, exts: seq<frame>)

  predicate WellFormed(h: Hello) {
    && |h.random| == 32 && |h.sessionId| < 0x100 && |h.ciphers| < 0x8000 && |h.compression| < 0x100
    && AreFrames(Extension, h.exts) && |Concat(h.exts)| < 0x1_0000
  }

  /** The body that follows the 4-byte handshake header. */
  function Encode(h: Hello): bytes
    requires |h.sessionId| < 0x100 && |h.compression| < 0x100
  {
    PutU16(h.version) + h.random + [|h.sessionId|] + h.sessionId
      + PutU16(|EncodeU16s(h.ciphers)|) + EncodeU16s(h.ciphers)
      + [|h.compression|] + h.compression
      + PutU16(|Concat(h.exts)|) + Concat(h.exts)
  }

  /** The view of any body of this shape, with the extension length cut to 16 bits. */
  lemma ViewLayout(body: bytes, version: u16, random: bytes, sid: bytes, cs: bytes, comp: bytes, ext: bytes)
    requires |random| == 32 && |sid| < 0x100 && |cs| < 0x1_0000 && |comp| < 0x100
    requires body == PutU16(version) + random + [|sid|] + sid + PutU16(|cs|) + cs
                     + [|comp|] + comp + PutU16(|ext|) + ext
    ensures View(body) == Some(HelloView(version, cs, ext[..|ext| % 0x1_0000]))
  {
    hide PutU16, U16At, View;
    var c := 37 + |sid|;
    var e := c + |cs| + 1 + |comp| + 2;
    assert body[0..2] == PutU16(version) && body[34] == |sid|;
    U16Field(body, 0, version);
    assert body[c - 2..c] == PutU16(|cs|) && body[c..c + |cs|] == cs;
    U16Field(body, c - 2, |cs|);
    assert body[c + |cs|] == |comp|;
    assert body[e - 2..e] == PutU16(|ext|) && body[e..] == ext;
    U16Field(body, e - 2, |ext|);
    assert body[e..e + |ext| % 0x1_0000] == ext[..|ext| % 0x1_0000];
    ViewAt(body, c, c + |cs|, e, e + |ext| % 0x1_0000);
  }

  lemma ViewAt(body: bytes, c: nat, cEnd: nat, e: nat, eEnd: nat)
    requires 38 <= |body| && c == 37 + body[34] as int <= |body|
    requires cEnd == c + U16At(body, c - 2) < |body|
    requires e == cEnd + 3 + body[cEnd] as int <= |body|
    requires eEnd == e + U16At(body, e - 2) <= |body|
    ensures View(body) == Some(HelloView(U16At(body, 0), body[c..cEnd], body[e..eEnd]))
  {
  }

  /** The JA4 parser recovers every well-formed ClientHello. */
  lemma ViewEncode(h: Hello)
    requires WellFormed(h)
    ensures View(Encode(h)) == Some(HelloView(h.version, EncodeU16s(h.ciphers), Concat(h.exts)))
  {
    hide EncodeU16s, Concat, PutU16, View;
    U16sEncode(h.ciphers);
    var ext := Concat(h.exts);
    ViewLayout(Encode(h), h.version, h.random, h.sessionId, EncodeU16s(h.ciphers), h.compression, ext);
    assert ext[..|ext|] == ext;
  }

  lemma Ja4OfEncode(sha: string -> string, h: Hello)
    requires WellFormed(h)
    ensures Ja4Of(sha, Encode(h)) == Fingerprint(sha, h.version, h.ciphers, h.exts)
  {
    hide Encode, View, Fingerprint, Walk;
    ViewEncode(h);
    U16sEncode(h.ciphers);
    WalkConcat(Extension, h.exts);
  }

  /** On the wire: two well-formed ClientHellos of one version whose non-GREASE ciphers and non-GREASE
      extensions agree up to order have the same JA4, whatever their random, session id and
      compression methods, as long as no non-GREASE extension type occurs twice. */
  lemma Ja4IsStableOnTheWire(sha: string -> string, h1: Hello, h2: Hello)
    requires WellFormed(h1) && WellFormed(h2) && h1.version == h2.version
    requires multiset(Kept(h1.ciphers)) == multiset(Kept(h2.ciphers))
    requires multiset(KeptExts(h1.exts)) == multiset(KeptExts(h2.exts)) && DistinctTypes(KeptExts(h1.exts))
    ensures Ja4Of(sha, Encode(h1)) == Ja4Of(sha, Encode(h2))
  {
    hide *;
    Ja4OfEncode(sha, h1);
    Ja4OfEncode(sha, h2);
    Ja4IsStable(sha, h1.version, h1.ciphers, h2.ciphers, h1.exts, h2.exts);
  }

  // ---- The probe's own hello ----

  function KeyShareData(pub: bytes): bytes {
    var entry := PutU16(GROUP_X25519) + PutU16(|pub|) + pub;
    PutU16(|entry|) + entry
  }

  function SniData(sni: bytes): bytes {
    var entry := [0] + PutU16(|sni|) + sni;
    PutU16(|entry|) + entry
  }

  function FixedExts(pub: bytes): seq<frame> {
    [Ext(EXT_SUPPORTED_VERSIONS, [2, 0x03, 0x04]),
     Ext(EXT_SUPPORTED_GROUPS, [0x00, 0x02, 0x00, 0x1d]),
     Ext(EXT_SIGNATURE_ALGORITHMS, PutU16(2 * |SIGNATURE_ALGOS|) + EncodeU16s(SIGNATURE_ALGOS)),
     Ext(EXT_KEY_SHARE, KeyShareData(pub)),
     Ext(EXT_PSK_MODES, [1, 1])]
  }

  function ProbeExts(pub: bytes, sni: bytes): seq<frame> {
    FixedExts(pub) + if sni == [] then [] else [Ext(EXT_SERVER_NAME, SniData(sni))]
  }

  function ProbeHello(random: bytes, sessionId: bytes, pub: bytes, sni: bytes): Hello {
    Hello(0x0303, random, sessionId, [CIPHER_AES128_GCM_SHA256], [0], ProbeExts(pub, sni))
  }

  method AppendExtension(ext: bytes, extType: u16, data: bytes) returns (r: bytes)
    ensures r == ext + Ext(extType, data)
  {
    r := ext + PutU16(extType);
    r := r + PutU16(|data|);
    r := r + data;
    assert r == ext + Ext(extType, data);
  }

  lemma Grow(fs: seq<frame>, f: frame)
    ensures Concat(fs + [f]) == Concat(fs) + f
  {
    ConcatAppend(fs, [f]);
    ConcatOne(f);
  }

  method BuildExtensions(pub: bytes, sni: bytes) returns (ext: bytes)
    ensures ext == Concat(ProbeExts(pub, sni))
  {
    hide Ext, Concat, EncodeU16s;
    ext := [];
    ghost var fs: seq<frame> := [];
    assert ext == Concat([]) by {
      NoParts();
    }
    ext := AppendExtension(ext, EXT_SUPPORTED_VERSIONS, [2, 0x03, 0x04]);
    Grow(fs, Ext(EXT_SUPPORTED_VERSIONS, [2, 0x03, 0x04]));
    fs := fs + [Ext(EXT_SUPPORTED_VERSIONS, [2, 0x03, 0x04])];
    ext := AppendExtension(ext, EXT_SUPPORTED_GROUPS, [0x00, 0x02, 0x00, 0x1d]);
    Grow(fs, Ext(EXT_SUPPORTED_GROUPS, [0x00, 0x02, 0x00, 0x1d]));
    fs := fs + [Ext(EXT_SUPPORTED_GROUPS, [0x00, 0x02, 0x00, 0x1d])];
    var sigAlgoBuf := WriteSignatureAlgos();
    ext := AppendExtension(ext, EXT_SIGNATURE_ALGORITHMS, sigAlgoBuf);
    Grow(fs, Ext(EXT_SIGNATURE_ALGORITHMS, sigAlgoBuf));
    fs := fs + [Ext(EXT_SIGNATURE_ALGORITHMS, sigAlgoBuf)];
    var keyShareEntry := PutU16(GROUP_X25519) + PutU16(|pub|) + pub;
    var ksBuf := PutU16(|keyShareEntry|) + keyShareEntry;
    ext := AppendExtension(ext, EXT_KEY_SHARE, ksBuf);
    Grow(fs, Ext(EXT_KEY_SHARE, ksBuf));
    fs := fs + [Ext(EXT_KEY_SHARE, ksBuf)];
    ext := AppendExtension(ext, EXT_PSK_MODES, [1, 1]);
    Grow(fs, Ext(EXT_PSK_MODES, [1, 1]));
    fs := fs + [Ext(EXT_PSK_MODES, [1, 1])];
    assert fs == FixedExts(pub);
    if sni != [] {
      var entry := [0] + PutU16(|sni|) + sni;
      var sniBuf := PutU16(|entry|) + entry;
      ext := AppendExtension(ext, EXT_SERVER_NAME, sniBuf);
      Grow(fs, Ext(EXT_SERVER_NAME, sniBuf));
      fs := fs + [Ext(EXT_SERVER_NAME, sniBuf)];
    }
    assert fs == ProbeExts(pub, sni);
  }

  lemma NoParts()
    ensures Concat([]) == []
  {
  }

  method WriteSignatureAlgos() returns (b: bytes)
    ensures b == PutU16(2 * |SIGNATURE_ALGOS|) + EncodeU16s(SIGNATURE_ALGOS)
  {
    hide FlatMap, PutU16;
    b := PutU16(2 * |SIGNATURE_ALGOS|);
    ghost var start := b;
    ghost var done: bytes := [];
    var i := 0;
    assert SIGNATURE_ALGOS[0..] == SIGNATURE_ALGOS;
    while i < |SIGNATURE_ALGOS|
      invariant 0 <= i <= |SIGNATURE_ALGOS|
      invariant b == start + done
      invariant EncodeU16s(SIGNATURE_ALGOS) == done + FlatMap(PutOne, SIGNATURE_ALGOS[i..])
    {
      FlatMapStep(PutOne, SIGNATURE_ALGOS, i);
      assert start + (done + PutU16(SIGNATURE_ALGOS[i])) == (start + done) + PutU16(SIGNATURE_ALGOS[i]);
      ghost var later := FlatMap(PutOne, SIGNATURE_ALGOS[i + 1..]);
      assert done + (PutU16(SIGNATURE_ALGOS[i]) + later) == (done + PutU16(SIGNATURE_ALGOS[i])) + later;
      b := b + PutU16(SIGNATURE_ALGOS[i]);
      done := done + PutU16(SIGNATURE_ALGOS[i]);
      i := i + 1;
    }
    FlatMapStep(PutOne, SIGNATURE_ALGOS, i);
    assert done + [] == done;
  }

  /** The handshake message of the probe; randomness and the key share are inputs. */
  method BuildClientHello(random: bytes, sessionId: bytes, pub: bytes, sni: bytes) returns (hs: bytes)
    requires |random| == 32 && |sessionId| == 32 && |pub| == 32
    ensures hs == Msg(HS_CLIENT_HELLO, Encode(ProbeHello(random, sessionId, pub, sni)))
  {
    hide Concat, PutU16, ProbeExts, FlatMap;
    var body: bytes := [0x03, 0x03];
    assert body == PutU16(0x0303) && PutU16(2) == [0, 2] && PutU16(CIPHER_AES128_GCM_SHA256) == [0x13, 0x01] by {
      Literals();
    }
    body := body + random;
    body := body + [32];
    body := body + sessionId;
    body := body + PutU16(2);
    body := body + PutU16(CIPHER_AES128_GCM_SHA256);
    body := body + [1, 0];
    var ext := BuildExtensions(pub, sni);
    body := body + PutU16(|ext|);
    body := body + ext;
    OneCipher();
    var h := ProbeHello(random, sessionId, pub, sni);
    assert body == Encode(h);
    hs := [HS_CLIENT_HELLO];
    hs := hs + [|body| / 0x1_0000 % 0x100, |body| / 0x100 % 0x100, |body| % 0x100];
    hs := hs + body;
  }

  lemma Literals()
    ensures PutU16(0x0303) == [0x03, 0x03] && PutU16(2) == [0, 2] && PutU16(CIPHER_AES128_GCM_SHA256) == [0x13, 0x01]
  {
  }

  lemma OneCipher()
    ensures EncodeU16s([CIPHER_AES128_GCM_SHA256]) == PutU16(CIPHER_AES128_GCM_SHA256)
  {
    FlatMapOne(PutOne, CIPHER_AES128_GCM_SHA256);
  }

  // ---- What a reader of the probe's hello sees ----

  const MAX_SNI := 65439

  lemma SignatureBytes()
    ensures |EncodeU16s(SIGNATURE_ALGOS)| == 18
  {
    U16sEncode(SIGNATURE_ALGOS);
  }

  lemma AllExtsAreFrames(pub: bytes, sni: bytes)
    requires |pub| == 32 && |sni| <= MAX_SNI
    ensures AreFrames(Extension, ProbeExts(pub, sni))
  {
    hide EncodeU16s, IsFrame, Ext, KeyShareData, SniData;
    SignatureBytes();
    DataLengths(pub, sni);
    ExtFields(EXT_SUPPORTED_VERSIONS, [2, 0x03, 0x04]);
    ExtFields(EXT_SUPPORTED_GROUPS, [0x00, 0x02, 0x00, 0x1d]);
    ExtFields(EXT_SIGNATURE_ALGORITHMS, PutU16(2 * |SIGNATURE_ALGOS|) + EncodeU16s(SIGNATURE_ALGOS));
    ExtFields(EXT_KEY_SHARE, KeyShareData(pub));
    ExtFields(EXT_PSK_MODES, [1, 1]);
    ExtFields(EXT_SERVER_NAME, SniData(sni));
  }

  lemma DataLengths(pub: bytes, sni: bytes)
    ensures |KeyShareData(pub)| == 6 + |pub| && |SniData(sni)| == 5 + |sni|
  {
  }

  lemma KeySharePrefixes(pub: bytes)
    requires |pub| == 32
    ensures var d := KeyShareData(pub);
            U16At(d, 0) == |d| - 2 && U16At(d, 4) == |pub| && d[6..] == pub
  {
    var d := KeyShareData(pub);
    PutGetU16(|pub|);
    PutGetU16(4 + |pub|);
    hide PutU16;
    assert U16At(d, 0) == U16At(PutU16(4 + |pub|), 0);
    assert U16At(d, 4) == U16At(PutU16(|pub|), 0);
  }

  lemma SniPrefixes(sni: bytes)
    requires |sni| <= MAX_SNI
    ensures var d := SniData(sni);
            U16At(d, 0) == |d| - 2 && U16At(d, 3) == |sni| && d[5..] == sni
  {
    SniLayout(sni);
    hide *;
    FitsU16(|sni|);
    FitsU16(3 + |sni|);
  }

  lemma FitsU16(n: nat)
    requires n <= 3 + MAX_SNI
    ensures U16At(PutU16(n), 0) == n
  {
    PutGetU16(n);
    hide PutU16, U16At;
  }

  lemma SniLayout(sni: bytes)
    ensures var d := SniData(sni);
            && |d| == 5 + |sni| && d[5..] == sni
            && U16At(d, 0) == U16At(PutU16(3 + |sni|), 0) && U16At(d, 3) == U16At(PutU16(|sni|), 0)
  {
    hide PutU16;
  }

  /** Every length prefix inside the extensions is exact while the name fits its own 16-bit fields. */
  lemma NestedPrefixesExact(pub: bytes, sni: bytes)
    requires |pub| == 32 && |sni| <= MAX_SNI
    ensures AreFrames(Extension, ProbeExts(pub, sni))
    ensures U16At(KeyShareData(pub), 0) == |KeyShareData(pub)| - 2 && U16At(KeyShareData(pub), 4) == |pub|
    ensures KeyShareData(pub)[6..] == pub
    ensures U16At(SniData(sni), 0) == |SniData(sni)| - 2 && U16At(SniData(sni), 3) == |sni|
    ensures SniData(sni)[5..] == sni
  {
    DataLengths(pub, sni);
    hide *;
    AllExtsAreFrames(pub, sni);
    KeySharePrefixes(pub);
    SniPrefixes(sni);
  }

  lemma {:induction false} ConcatLength(fs: seq<bytes>)
    ensures |Concat(fs)| == TotalLength(fs)
  {
    if fs != [] {
      ConcatLength(fs[1..]);
    }
  }

  function TotalLength(fs: seq<bytes>): nat {
    if fs == [] then 0 else |fs[0]| + TotalLength(fs[1..])
  }

  lemma ExtensionsLength(pub: bytes, sni: bytes)
    requires |pub| == 32
    ensures |Concat(ProbeExts(pub, sni))| == 87 + if sni == [] then 0 else 9 + |sni|
  {
    hide Ext, Concat, EncodeU16s;
    SignatureBytes();
    var fs := ProbeExts(pub, sni);
    ConcatLength(fs);
    ExtLength(EXT_SUPPORTED_VERSIONS, [2, 0x03, 0x04]);
    ExtLength(EXT_SUPPORTED_GROUPS, [0x00, 0x02, 0x00, 0x1d]);
    ExtLength(EXT_SIGNATURE_ALGORITHMS, PutU16(2 * |SIGNATURE_ALGOS|) + EncodeU16s(SIGNATURE_ALGOS));
    ExtLength(EXT_KEY_SHARE, KeyShareData(pub));
    ExtLength(EXT_PSK_MODES, [1, 1]);
    ExtLength(EXT_SERVER_NAME, SniData(sni));
    assert |fs| >= 5;
    assert TotalLength(fs) == |fs[0]| + TotalLength(fs[1..]);
    assert TotalLength(fs[1..]) == |fs[1]| + TotalLength(fs[2..]) by { assert fs[1..][1..] == fs[2..]; }
    assert TotalLength(fs[2..]) == |fs[2]| + TotalLength(fs[3..]) by { assert fs[2..][1..] == fs[3..]; }
    assert TotalLength(fs[3..]) == |fs[3]| + TotalLength(fs[4..]) by { assert fs[3..][1..] == fs[4..]; }
    assert TotalLength(fs[4..]) == |fs[4]| + TotalLength(fs[5..]) by { assert fs[4..][1..] == fs[5..]; }
    if sni != [] {
      assert TotalLength(fs[5..]) == |fs[5]| + TotalLength(fs[6..]) by { assert fs[5..][1..] == fs[6..]; }
    }
  }

  lemma ExtLength(typ: u16, data: bytes)
    ensures |Ext(typ, data)| == 4 + |data|
  {
  }

  /** A reader finds exactly the cipher and the extensions that were written iff the name has at most
      65439 bytes; beyond that the outer extension length is cut to 16 bits. */
  lemma OuterPrefixExact(random: bytes, sessionId: bytes, pub: bytes, sni: bytes)
    requires |random| == 32 && |sessionId| == 32 && |pub| == 32
    ensures View(Encode(ProbeHello(random, sessionId, pub, sni)))
         == Some(HelloView(0x0303, PutU16(CIPHER_AES128_GCM_SHA256), Concat(ProbeExts(pub, sni))))
       <==> |sni| <= MAX_SNI
  {
    hide View, Concat, EncodeU16s, PutU16, ProbeExts;
    OneCipher();
    ExtensionsLength(pub, sni);
    var h := ProbeHello(random, sessionId, pub, sni);
    var ext := Concat(h.exts);
    ViewLayout(Encode(h), h.version, random, sessionId, EncodeU16s(h.ciphers), h.compression, ext);
    assert ext[..|ext|] == ext;
  }

  lemma ScanHead(f: frame, rest: seq<frame>, s: Scan)
    ensures ScanAll([f] + rest, s) == ScanAll(rest, ScanOne(f, s))
  {
    assert ([f] + rest)[1..] == rest;
  }

  /** The version the JA4 parser reads from the supported_versions extension of the probe. */
  lemma OffersTls13(v: u16)
    requires v <= 0x0304
    ensures MaxOf(Versions([2, 0x03, 0x04]), v) == 0x0304
  {
    var data: bytes := [2, 0x03, 0x04];
    assert data[1..3] == [0x03, 0x04];
    assert U16At([0x03, 0x04], 0) == 0x0304;
    assert U16s([0x03, 0x04]) == [0x0304] + U16s([0x03, 0x04][2..]);
    assert U16s([]) == [];
    assert Versions(data) == [0x0304];
    assert [0x0304][1..] == [];
  }

  lemma ScanProbe(pub: bytes, sni: bytes)
    requires |pub| == 32 && |sni| <= MAX_SNI
    ensures var s := ScanAll(ProbeExts(pub, sni), Scan([], [], "", false, 0x0303));
            s.version == 0x0304 && s.alpn == "" && s.hasSni == (sni != [])
            && |s.ids| == (if sni == [] then 5 else 6)
  {
    hide EncodeU16s, IsFrame, Ext, Versions, MaxOf, SigAlgs, FirstProtocol, KeyShareData, SniData, ScanAll;
    SignatureBytes();
    OffersTls13(0x0303);
    assert |KeyShareData(pub)| == 38 && |SniData(sni)| == 5 + |sni| by {
      DataLengths(pub, sni);
    }
    var sig := PutU16(2 * |SIGNATURE_ALGOS|) + EncodeU16s(SIGNATURE_ALGOS);
    ExtFields(EXT_SUPPORTED_VERSIONS, [2, 0x03, 0x04]);
    ExtFields(EXT_SUPPORTED_GROUPS, [0x00, 0x02, 0x00, 0x1d]);
    ExtFields(EXT_SIGNATURE_ALGORITHMS, sig);
    ExtFields(EXT_KEY_SHARE, KeyShareData(pub));
    ExtFields(EXT_PSK_MODES, [1, 1]);
    ExtFields(EXT_SERVER_NAME, SniData(sni));
    var f0, f1, f2 := Ext(EXT_SUPPORTED_VERSIONS, [2, 0x03, 0x04]),
      Ext(EXT_SUPPORTED_GROUPS, [0x00, 0x02, 0x00, 0x1d]), Ext(EXT_SIGNATURE_ALGORITHMS, sig);
    var f3, f4 := Ext(EXT_KEY_SHARE, KeyShareData(pub)), Ext(EXT_PSK_MODES, [1, 1]);
    var r5: seq<frame> := if sni == [] then [] else [Ext(EXT_SERVER_NAME, SniData(sni))];
    var r4: seq<frame> := [f4] + r5;
    var r3: seq<frame> := [f3] + r4;
    var r2: seq<frame> := [f2] + r3;
    var r1: seq<frame> := [f1] + r2;
    assert ProbeExts(pub, sni) == [f0] + r1;
    var s0 := Scan([], [], "", false, 0x0303);
    ScanHead(f0, r1, s0);
    var s1 := ScanOne(f0, s0);
    ScanHead(f1, r2, s1);
    var s2 := ScanOne(f1, s1);
    ScanHead(f2, r3, s2);
    var s3 := ScanOne(f2, s2);
    ScanHead(f3, r4, s3);
    var s4 := ScanOne(f3, s3);
    ScanHead(f4, r5, s4);
    var s5 := ScanOne(f4, s4);
    ScanNothing(s5);
    if sni != [] {
      assert r5 == [Ext(EXT_SERVER_NAME, SniData(sni))] + [];
      ScanHead(Ext(EXT_SERVER_NAME, SniData(sni)), [], s5);
      ScanNothing(ScanOne(Ext(EXT_SERVER_NAME, SniData(sni)), s5));
    }
  }

  lemma ScanNothing(s: Scan)
    ensures ScanAll([], s) == s
  {
  }

  lemma ReadablePart(s: Scan, bare: bool)
    requires s.version == 0x0304 && s.alpn == "" && s.hasSni == !bare && |s.ids| == (if bare then 5 else 6)
    ensures Prefix(1, s) == if bare then "t13i010500" else "t13d010600"
  {
  }

  /** The readable part of the probe's own JA4: TLS 1.3, one cipher, five extensions, six with a name. */
  lemma ProbePrefix(sha: string -> string, random: bytes, sessionId: bytes, pub: bytes, sni: bytes)
    requires |random| == 32 && |sessionId| == 32 && |pub| == 32 && |sni| <= MAX_SNI
    ensures var r := Ja4Of(sha, Encode(ProbeHello(random, sessionId, pub, sni)));
            |r| >= 10 && r[..10] == if sni == [] then "t13i010500" else "t13d010600"
  {
    hide Encode, ProbeExts, Ja4Of, ScanAll, CipherInput, ExtensionInput;
    var h := ProbeHello(random, sessionId, pub, sni);
    NestedPrefixesExact(pub, sni);
    ExtensionsLength(pub, sni);
    Ja4OfEncode(sha, h);
    ScanProbe(pub, sni);
    var kept := Kept([CIPHER_AES128_GCM_SHA256]);
    FlatMapOne(KeepOne, CIPHER_AES128_GCM_SHA256);
    var s := ScanAll(h.exts, Scan([], [], "", false, 0x0303));
    var p := Prefix(|kept|, s);
    ReadablePart(s, sni == []);
    hide Prefix;
    assert Fingerprint(sha, 0x0303, h.ciphers, h.exts)[..10] == p;
  }
}
