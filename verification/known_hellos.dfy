/** Whole hellos octet by octet, and the fingerprints they must have. */
module KnownHellos {
  import opened Bytes
  import opened Frames
  import opened Lists
  import opened Outcomes
  import opened Text
  import opened Ja4
  import opened Ja4Stability
  import opened ClientHello
  import SH = ServerHello

  // ---- A ClientHello ----

  const GREASE_EXT: bytes := [0x1a, 0x1a, 0x00, 0x00]
  /** server_name: the host name "a". */
  const NAME_EXT: bytes := [0x00, 0x00, 0x00, 0x06, 0x00, 0x04, 0x00, 0x00, 0x01, 0x61]
  /** Application protocols: "h2". */
  const ALPN_EXT: bytes := [0x00, 0x10, 0x00, 0x05, 0x00, 0x03, 0x02, 0x68, 0x32]
  /** Versions 1.2 and 1.3. */
  const VERSIONS_EXT: bytes := [0x00, 0x2b, 0x00, 0x05, 0x04, 0x03, 0x03, 0x03, 0x04]
  const SCHEMES_EXT: bytes := [0x00, 0x0d, 0x00, 0x06, 0x00, 0x04, 0x08, 0x04, 0x04, 0x03]
  const GROUPS_EXT: bytes := [0x00, 0x0a, 0x00, 0x04, 0x00, 0x02, 0x00, 0x1d]

  const CLIENT_EXTS: seq<frame> := [GREASE_EXT, NAME_EXT, ALPN_EXT, VERSIONS_EXT, SCHEMES_EXT, GROUPS_EXT]

  /** A ClientHello of a browser in small: three ciphers of which one is GREASE, six extensions of which one
      is GREASE. */
  function ClientOctets(random: bytes, sid: bytes): bytes
    requires |sid| < 0x100
  {
    [3, 3] + random + [|sid|] + sid
      + [0x00, 0x06] + [0x13, 0x02, 0x0a, 0x0a, 0x13, 0x01] + [0x01] + [0x00] + [0x00, 0x32]
      + (GREASE_EXT + NAME_EXT + ALPN_EXT + VERSIONS_EXT + SCHEMES_EXT + GROUPS_EXT)
  }

  function ClientMeant(random: bytes, sid: bytes): Hello {
    Hello(0x0303, random, sid, [0x1302, 0x0a0a, 0x1301], [0], CLIENT_EXTS)
  }

  lemma ClientExts()
    ensures AreFrames(Extension, CLIENT_EXTS) && |Concat(CLIENT_EXTS)| == 50
    ensures Concat(CLIENT_EXTS) == GREASE_EXT + NAME_EXT + ALPN_EXT + VERSIONS_EXT + SCHEMES_EXT + GROUPS_EXT
  {
    ConcatSix(GREASE_EXT, NAME_EXT, ALPN_EXT, VERSIONS_EXT, SCHEMES_EXT, GROUPS_EXT);
    hide Concat;
  }

  lemma ConcatSix(a: bytes, b: bytes, c: bytes, d: bytes, e: bytes, f: bytes)
    ensures Concat([a, b, c, d, e, f]) == a + b + c + d + e + f
  {
    ConcatOne(f);
    ConcatCons(e, [f]);
    ConcatCons(d, [e, f]);
    ConcatCons(c, [d, e, f]);
    ConcatCons(b, [c, d, e, f]);
    ConcatCons(a, [b, c, d, e, f]);
    hide Concat;
    assert [e] + [f] == [e, f] && [d] + [e, f] == [d, e, f] && [c] + [d, e, f] == [c, d, e, f];
    assert [b] + [c, d, e, f] == [b, c, d, e, f] && [a] + [b, c, d, e, f] == [a, b, c, d, e, f];
  }

  lemma ThreeCiphers()
    ensures EncodeU16s([0x1302, 0x0a0a, 0x1301]) == [0x13, 0x02, 0x0a, 0x0a, 0x13, 0x01]
    ensures Kept([0x1302, 0x0a0a, 0x1301]) == [0x1302, 0x1301]
  {
    FlatMapThree(PutOne, 0x1302, 0x0a0a, 0x1301);
    FlatMapThree(KeepOne, 0x1302, 0x0a0a, 0x1301);
    hide FlatMap;
  }

  lemma FlatMapThree<A, B>(f: A -> seq<B>, x: A, y: A, z: A)
    ensures FlatMap(f, [x, y, z]) == f(x) + f(y) + f(z)
  {
    FlatMapOne(f, x);
    FlatMapSnoc(f, [x], y);
    FlatMapSnoc(f, [x, y], z);
    hide FlatMap;
    assert [x] + [y] == [x, y] && [x, y] + [z] == [x, y, z];
  }

  lemma ClientEncodes(random: bytes, sid: bytes)
    requires |random| == 32 && |sid| < 0x100
    ensures WellFormed(ClientMeant(random, sid)) && Encode(ClientMeant(random, sid)) == ClientOctets(random, sid)
  {
    var h := ClientMeant(random, sid);
    ClientExts();
    ThreeCiphers();
    ClientNumbers();
    hide Concat, EncodeU16s, Kept, AreFrames, PutU16;
    assert h.exts == CLIENT_EXTS && |EncodeU16s(h.ciphers)| == 6;
    assert WellFormed(h);
    hide CLIENT_EXTS, WellFormed, GREASE_EXT, NAME_EXT, ALPN_EXT, VERSIONS_EXT, SCHEMES_EXT, GROUPS_EXT;
    ClientParts(random, sid, Concat(h.exts));
  }

  lemma ClientNumbers()
    ensures PutU16(0x0303) == [3, 3] && PutU16(6) == [0, 6] && PutU16(50) == [0x00, 0x32]
  {
  }

  lemma ClientParts(random: bytes, sid: bytes, exts: bytes)
    requires |sid| < 0x100
    requires exts == GREASE_EXT + NAME_EXT + ALPN_EXT + VERSIONS_EXT + SCHEMES_EXT + GROUPS_EXT
    ensures ClientOctets(random, sid)
         == [3, 3] + random + [|sid|] + sid + [0x00, 0x06] + [0x13, 0x02, 0x0a, 0x0a, 0x13, 0x01] + [1] + [0]
            + [0x00, 0x32] + exts
  {
    hide GREASE_EXT, NAME_EXT, ALPN_EXT, VERSIONS_EXT, SCHEMES_EXT, GROUPS_EXT;
  }

  lemma ScanStep(f: frame, rest: seq<frame>, s: Scan)
    ensures ScanAll([f] + rest, s) == ScanAll(rest, ScanOne(f, s))
  {
    assert ([f] + rest)[1..] == rest;
  }

  lemma ScanSix(a: frame, b: frame, c: frame, d: frame, e: frame, f: frame, s: Scan)
    ensures ScanAll([a, b, c, d, e, f], s)
         == ScanOne(f, ScanOne(e, ScanOne(d, ScanOne(c, ScanOne(b, ScanOne(a, s))))))
  {
    hide ScanOne;
    ScanStep(a, [b, c, d, e, f], s);
    assert [a] + [b, c, d, e, f] == [a, b, c, d, e, f];
    var s1 := ScanOne(a, s);
    ScanStep(b, [c, d, e, f], s1);
    assert [b] + [c, d, e, f] == [b, c, d, e, f];
    var s2 := ScanOne(b, s1);
    ScanStep(c, [d, e, f], s2);
    assert [c] + [d, e, f] == [c, d, e, f];
    var s3 := ScanOne(c, s2);
    ScanStep(d, [e, f], s3);
    assert [d] + [e, f] == [d, e, f];
    var s4 := ScanOne(d, s3);
    ScanStep(e, [f], s4);
    assert [e] + [f] == [e, f];
    ScanStep(f, [], ScanOne(e, s4));
    assert [f] + [] == [f];
  }

  lemma ClientPayloads()
    ensures FirstProtocol(ALPN_EXT[4..]) == Some("h2")
    ensures Versions(VERSIONS_EXT[4..]) == [0x0303, 0x0304]
    ensures SigAlgs(SCHEMES_EXT[4..]) == [0x0804, 0x0403]
  {
    assert ALPN_EXT[4..][3..5] == [0x68, 0x32];
    assert Str([0x68, 0x32]) == "h2";
    assert VERSIONS_EXT[4..][1..5] == [3, 3, 3, 4];
    TwoU16s(3, 3, 3, 4);
    assert SCHEMES_EXT[4..][2..6] == [8, 4, 4, 3];
    TwoU16s(8, 4, 4, 3);
    hide U16s;
  }

  lemma TwoU16s(a: byte, b: byte, c: byte, d: byte)
    ensures U16s([a, b, c, d]) == [a as int * 0x100 + b, c as int * 0x100 + d]
  {
    assert [a, b, c, d][2..] == [c, d] && [c, d][2..] == [];
    assert U16s([c, d]) == [c as int * 0x100 + d] + U16s([]);
  }

  lemma ClientTypes()
    ensures ExtType(GREASE_EXT) == 0x1a1a && ExtType(NAME_EXT) == 0 && ExtType(ALPN_EXT) == 0x10
    ensures ExtType(VERSIONS_EXT) == 0x2b && ExtType(SCHEMES_EXT) == 0x0d && ExtType(GROUPS_EXT) == 0x0a
  {
  }

  lemma GreaseScans(s: Scan)
    ensures ScanOne(GREASE_EXT, s) == s
  {
    ClientTypes();
    hide ExtType;
  }

  lemma NameScans(s: Scan)
    ensures ScanOne(NAME_EXT, s) == s.(ids := s.ids + [0x0000], hasSni := true)
  {
    ClientTypes();
    hide ExtType;
  }

  lemma AlpnScans(s: Scan)
    ensures ScanOne(ALPN_EXT, s) == s.(ids := s.ids + [0x0010], alpn := "h2")
  {
    ClientTypes();
    ClientPayloads();
    hide ExtType, FirstProtocol;
  }

  lemma VersionsScans(s: Scan)
    requires s.version == 0x0303
    ensures ScanOne(VERSIONS_EXT, s) == s.(ids := s.ids + [0x002b], version := 0x0304)
  {
    ClientTypes();
    ClientPayloads();
    BestOfTwo();
    hide ExtType, Versions, MaxOf;
  }

  lemma SchemesScans(s: Scan)
    ensures ScanOne(SCHEMES_EXT, s) == s.(ids := s.ids + [0x000d], sigAlgs := s.sigAlgs + [0x0804, 0x0403])
  {
    ClientTypes();
    ClientPayloads();
    hide ExtType, SigAlgs;
  }

  lemma GroupsScans(s: Scan)
    ensures ScanOne(GROUPS_EXT, s) == s.(ids := s.ids + [0x000a])
  {
    ClientTypes();
    hide ExtType;
  }

  lemma ClientScan()
    ensures ScanAll(CLIENT_EXTS, Scan([], [], "", false, 0x0303))
         == Scan([0x0000, 0x0010, 0x002b, 0x000d, 0x000a], [0x0804, 0x0403], "h2", true, 0x0304)
  {
    var s0 := Scan([], [], "", false, 0x0303);
    ScanSix(GREASE_EXT, NAME_EXT, ALPN_EXT, VERSIONS_EXT, SCHEMES_EXT, GROUPS_EXT, s0);
    var s1 := ScanOne(NAME_EXT, s0);
    var s2 := ScanOne(ALPN_EXT, s1);
    var s3 := ScanOne(VERSIONS_EXT, s2);
    var s4 := ScanOne(SCHEMES_EXT, s3);
    GreaseScans(s0);
    NameScans(s0);
    AlpnScans(s1);
    VersionsScans(s2);
    SchemesScans(s3);
    GroupsScans(s4);
    hide ScanAll, ScanOne;
    assert s4.ids == [0x0000, 0x0010, 0x002b, 0x000d];
  }

  lemma BestOfTwo()
    ensures MaxOf([0x0303, 0x0304], 0x0303) == 0x0304
  {
    assert [0x0303, 0x0304][1..] == [0x0304];
    assert [0x0304][1..] == [];
  }

  lemma SortTwo(a: string, b: string)
    requires StrLt(b, a)
    ensures SortStrings([a, b]) == [b, a]
  {
    hide StrLt;
    assert [a, b][1..] == [b] && [b][1..] == [];
    assert SortStrings([b]) == Insert(b, []) == [b];
    assert Insert(a, [b]) == [b] + Insert(a, []);
  }

  lemma SortThree(a: string, b: string, c: string)
    requires StrLt(c, b) && StrLt(b, a) && StrLt(c, a)
    ensures SortStrings([a, b, c]) == [c, b, a]
  {
    hide StrLt;
    assert [a, b, c][1..] == [b, c] && [c, b][1..] == [b] && [b][1..] == [];
    SortTwo(b, c);
    hide SortStrings;
    InsertLast(a, c, b);
  }

  lemma InsertLast(a: string, c: string, b: string)
    requires StrLt(c, a) && StrLt(b, a)
    ensures Insert(a, [c, b]) == [c, b, a]
  {
    hide StrLt;
    assert [c, b][1..] == [b] && [b][1..] == [];
    assert Insert(a, [b]) == [b] + Insert(a, []);
    assert Insert(a, [c, b]) == [c] + Insert(a, [b]);
  }

  lemma JoinTwo(a: string, b: string)
    ensures Join([a, b], ",") == a + "," + b
  {
    assert [a, b][1..] == [b];
  }

  lemma JoinThree(a: string, b: string, c: string)
    ensures Join([a, b, c], ",") == a + "," + b + "," + c
  {
    assert [a, b, c][1..] == [b, c];
    JoinTwo(b, c);
    hide Join;
  }

  lemma HexTwo(v: u16, w: u16)
    ensures Hex4s([v, w]) == [Hex4(v), Hex4(w)]
  {
    FlatMapOne(HexOne, v);
    FlatMapSnoc(HexOne, [v], w);
    hide FlatMap, Hex4;
    assert [v] + [w] == [v, w];
  }

  lemma SuiteNumerals()
    ensures Hex4(0x1301) == "1301" && Hex4(0x1302) == "1302"
  {
  }

  lemma TypeNumerals()
    ensures Hex4(0x000a) == "000a" && Hex4(0x000d) == "000d" && Hex4(0x002b) == "002b"
  {
    SmallNumeral(0, 10);
    SmallNumeral(0, 13);
    SmallNumeral(2, 11);
    hide Hex4;
  }

  lemma SmallDigits(v: nat, high: nat, low: nat)
    requires high < 0x10 && low < 0x10 && v == 0x10 * high + low
    ensures v / 0x1000 == 0 && v / 0x100 % 0x10 == 0 && v / 0x10 % 0x10 == high && v % 0x10 == low
  {
    assert v < 0x100 && v / 0x10 == high;
  }

  lemma SmallNumeral(high: nat, low: nat)
    requires high < 0x10 && low < 0x10
    ensures Hex4(0x10 * high + low) == ['0', '0', DIGITS[high], DIGITS[low]]
  {
    SmallDigits(0x10 * high + low, high, low);
    assert DIGITS[0] == '0' && |DIGITS| == 16;
    hide DIGITS;
  }

  lemma SchemeNumerals()
    ensures Hex4(0x0804) == "0804" && Hex4(0x0403) == "0403"
  {
  }

  lemma ListOfTwo(v: u16, w: u16, x: string, y: string)
    requires Hex4(v) == x && Hex4(w) == y
    ensures Join(Hex4s([v, w]), ",") == x + "," + y
    ensures StrLt(y, x) ==> Join(SortStrings(Hex4s([v, w])), ",") == y + "," + x
  {
    HexTwo(v, w);
    JoinTwo(x, y);
    JoinTwo(y, x);
    hide Hex4, Hex4s, StrLt, SortStrings, Join;
    if StrLt(y, x) {
      SortTwo(x, y);
    }
  }

  lemma ListOfThree(v: u16, w: u16, u: u16, x: string, y: string, z: string)
    requires Hex4(v) == x && Hex4(w) == y && Hex4(u) == z
    requires StrLt(z, y) && StrLt(y, x) && StrLt(z, x)
    ensures Join(SortStrings(Hex4s([v, w, u])), ",") == z + "," + y + "," + x
  {
    FlatMapThree(HexOne, v, w, u);
    hide Hex4, FlatMap, StrLt;
    assert Hex4s([v, w, u]) == [x, y, z];
    hide Hex4s, SortStrings, Join;
    SortThree(x, y, z);
    JoinThree(z, y, x);
  }

  lemma ClientCipherHash()
    ensures CipherInput([0x1302, 0x1301]) == "1301,1302"
  {
    SuiteNumerals();
    hide Hex4, Hex4s, SortStrings, Join, StrLt;
    LastDiffers("130", '1', '2');
    assert "130" + ['1'] == "1301" && "130" + ['2'] == "1302";
    ListOfTwo(0x1302, 0x1301, "1302", "1301");
    assert "1301" + "," + "1302" == "1301,1302";
  }

  lemma {:induction false} LastDiffers(p: string, c: char, d: char)
    requires c < d
    ensures StrLt(p + [c], p + [d])
  {
    if p == "" {
      assert p + [c] == [c] && p + [d] == [d];
    } else {
      assert (p + [c])[1..] == p[1..] + [c] && (p + [d])[1..] == p[1..] + [d];
      LastDiffers(p[1..], c, d);
    }
  }

  lemma SmallerNumerals()
    ensures StrLt("000a", "000d") && StrLt("000d", "002b") && StrLt("000a", "002b")
  {
    LastDiffers("000", 'a', 'd');
    assert "000d"[1..] == "00d" && "002b"[1..] == "02b" && "000a"[1..] == "00a";
    assert "00d"[1..] == "0d" && "02b"[1..] == "2b" && "00a"[1..] == "0a";
    assert StrLt("0d", "2b") && StrLt("0a", "2b");
    assert StrLt("00d", "02b") && StrLt("00a", "02b");
  }

  lemma FlatMapTwo<A, B>(f: A -> seq<B>, x: A, y: A)
    ensures FlatMap(f, [x, y]) == f(x) + f(y)
  {
    FlatMapOne(f, x);
    FlatMapSnoc(f, [x], y);
    hide FlatMap;
    assert [x] + [y] == [x, y];
  }

  lemma HashedOnes()
    ensures HashOne(0x0000) == [] && HashOne(0x0010) == [] && HashOne(0x002b) == [0x002b]
    ensures HashOne(0x000d) == [0x000d] && HashOne(0x000a) == [0x000a]
  {
  }

  lemma ClientHashed()
    ensures Hashable([0x0000, 0x0010, 0x002b, 0x000d, 0x000a]) == [0x002b, 0x000d, 0x000a]
  {
    var a: seq<u16>, b: seq<u16> := [0x0000, 0x0010], [0x002b, 0x000d, 0x000a];
    HashedOnes();
    hide FlatMap, HashOne;
    FlatMapTwo(HashOne, 0x0000, 0x0010);
    FlatMapThree(HashOne, 0x002b, 0x000d, 0x000a);
    FlatMapAppend(HashOne, a, b);
    assert FlatMap(HashOne, a) == [] && FlatMap(HashOne, b) == b;
    assert a + b == [0x0000, 0x0010, 0x002b, 0x000d, 0x000a];
  }

  lemma ClientTypeList()
    ensures Join(SortStrings(Hex4s([0x002b, 0x000d, 0x000a])), ",") == "000a,000d,002b"
  {
    TypeNumerals();
    SmallerNumerals();
    hide Hex4, Hex4s, SortStrings, Join, StrLt;
    ListOfThree(0x002b, 0x000d, 0x000a, "002b", "000d", "000a");
    assert "000a" + "," + "000d" + "," + "002b" == "000a,000d,002b";
  }

  lemma ClientSchemeList()
    ensures Join(Hex4s([0x0804, 0x0403]), ",") == "0804,0403"
  {
    SchemeNumerals();
    hide Hex4, Hex4s, SortStrings, Join, StrLt;
    ListOfTwo(0x0804, 0x0403, "0804", "0403");
    assert "0804" + "," + "0403" == "0804,0403";
  }

  lemma ClientExtensionHash()
    ensures ExtensionInput([0x0000, 0x0010, 0x002b, 0x000d, 0x000a], [0x0804, 0x0403])
         == "000a,000d,002b_0804,0403"
  {
    ClientHashed();
    ClientTypeList();
    ClientSchemeList();
    hide Hashable, Hex4s, SortStrings, Join;
    assert "000a,000d,002b" + ("_" + "0804,0403") == "000a,000d,002b_0804,0403";
  }

  lemma ClientPrefix()
    ensures Prefix(2, Scan([0x0000, 0x0010, 0x002b, 0x000d, 0x000a], [0x0804, 0x0403], "h2", true, 0x0304))
         == "t13d0205h2"
  {
    assert TwoDigit(2) == "02" && TwoDigit(5) == "05";
  }

  /** The fingerprint of that hello, whatever its random and session id: TLS 1.3, a server name, two ciphers,
      five extensions, HTTP/2; the ciphers sorted; the extensions without server_name and ALPN sorted, and
      the signature schemes in the order sent. */
  lemma KnownClient(sha: string -> string, random: bytes, sid: bytes)
    requires |random| == 32 && |sid| < 0x100
    ensures Ja4Of(sha, ClientOctets(random, sid))
         == "t13d0205h2" + "_" + sha("1301,1302") + "_" + sha("000a,000d,002b_0804,0403")
  {
    ClientEncodes(random, sid);
    Ja4OfEncode(sha, ClientMeant(random, sid));
    ThreeCiphers();
    ClientScan();
    ClientCipherHash();
    ClientExtensionHash();
    ClientPrefix();
    hide Ja4Of, Encode, ClientOctets, Kept, ScanAll, CipherInput, ExtensionInput, Concat, Prefix;
  }

  // ---- The probe's own hello ----

  function Two(v: nat): bytes { [v / 0x100 % 0x100, v % 0x100] }

  function NameOctets(name: bytes): bytes {
    if name == [] then []
    else [0x00, 0x00] + Two(5 + |name|) + (Two(3 + |name|) + ([0x00] + Two(|name|) + name))
  }

  /** Nine signature schemes. */
  const SCHEME_OCTETS: bytes :=
    [0x08, 0x04, 0x04, 0x03, 0x04, 0x01] + [0x08, 0x05, 0x05, 0x03, 0x08, 0x06] + [0x06, 0x03, 0x05, 0x01, 0x06, 0x01]

  /** Versions: 1.3. Groups: x25519. The signature schemes. */
  const OFFERS: bytes :=
    [0x00, 0x2b, 0x00, 0x03, 0x02, 0x03, 0x04] + [0x00, 0x0a, 0x00, 0x04, 0x00, 0x02, 0x00, 0x1d]
    + ([0x00, 0x0d, 0x00, 0x14] + ([0x00, 0x12] + SCHEME_OCTETS))

  /** The extensions: the offers, an x25519 key share, PSK with key exchange, and the name if there is one. */
  function ProbeExtOctets(pub: bytes, name: bytes): bytes {
    OFFERS + ([0x00, 0x33, 0x00, 0x26, 0x00, 0x24, 0x00, 0x1d, 0x00, 0x20] + pub) + [0x00, 0x2d, 0x00, 0x02, 0x01, 0x01]
      + NameOctets(name)
  }

  /** The body: TLS 1.2 as the version field, random, session id, one cipher suite, null compression, extensions. */
  function ProbeBody(random: bytes, sid: bytes, exts: bytes): bytes {
    [0x03, 0x03] + random + [0x20] + sid + [0x00, 0x02] + [0x13, 0x01] + [0x01] + [0x00] + Two(|exts|) + exts
  }

  /** The header of a handshake message: type and 24-bit length. */
  function HandshakeHeader(typ: byte, n: nat): bytes {
    [typ, n / 0x1_0000 % 0x100, n / 0x100 % 0x100, n % 0x100]
  }

  lemma SixOctets(a: u16, b: u16, c: u16)
    ensures EncodeU16s([a, b, c]) == PutU16(a) + PutU16(b) + PutU16(c)
  {
    FlatMapThree(PutOne, a, b, c);
  }

  lemma SchemeOctets()
    ensures EncodeU16s(SIGNATURE_ALGOS) == SCHEME_OCTETS && |SCHEME_OCTETS| == 18
  {
    var a, b, c: seq<u16> := [0x0804, 0x0403, 0x0401], [0x0805, 0x0503, 0x0806], [0x0603, 0x0501, 0x0601];
    assert SIGNATURE_ALGOS == a + b + c;
    SchemeGroups();
    hide EncodeU16s, SIGNATURE_ALGOS;
    EncodeAppend(a, b);
    EncodeAppend(a + b, c);
  }

  lemma EncodeAppend(a: seq<u16>, b: seq<u16>)
    ensures EncodeU16s(a + b) == EncodeU16s(a) + EncodeU16s(b)
  {
    FlatMapAppend(PutOne, a, b);
    hide FlatMap;
  }

  lemma SixAre(a: u16, b: u16, c: u16, x: bytes, y: bytes, z: bytes)
    requires PutU16(a) == x && PutU16(b) == y && PutU16(c) == z
    ensures EncodeU16s([a, b, c]) == x + y + z
  {
    SixOctets(a, b, c);
    hide EncodeU16s, PutU16;
  }

  lemma SchemeNumbers()
    ensures PutU16(0x0804) == [0x08, 0x04] && PutU16(0x0403) == [0x04, 0x03] && PutU16(0x0401) == [0x04, 0x01]
    ensures PutU16(0x0805) == [0x08, 0x05] && PutU16(0x0503) == [0x05, 0x03] && PutU16(0x0806) == [0x08, 0x06]
    ensures PutU16(0x0603) == [0x06, 0x03] && PutU16(0x0501) == [0x05, 0x01] && PutU16(0x0601) == [0x06, 0x01]
  {
  }

  lemma SchemeGroups()
    ensures EncodeU16s([0x0804, 0x0403, 0x0401]) == [0x08, 0x04, 0x04, 0x03, 0x04, 0x01]
    ensures EncodeU16s([0x0805, 0x0503, 0x0806]) == [0x08, 0x05, 0x05, 0x03, 0x08, 0x06]
    ensures EncodeU16s([0x0603, 0x0501, 0x0601]) == [0x06, 0x03, 0x05, 0x01, 0x06, 0x01]
  {
    SchemeNumbers();
    hide EncodeU16s, PutU16;
    SixAre(0x0804, 0x0403, 0x0401, [0x08, 0x04], [0x04, 0x03], [0x04, 0x01]);
    SixAre(0x0805, 0x0503, 0x0806, [0x08, 0x05], [0x05, 0x03], [0x08, 0x06]);
    SixAre(0x0603, 0x0501, 0x0601, [0x06, 0x03], [0x05, 0x01], [0x06, 0x01]);
  }

  lemma OfferOctets()
    ensures Ext(43, [2, 3, 4]) + Ext(10, [0, 2, 0, 0x1d]) + Ext(13, PutU16(18) + EncodeU16s(SIGNATURE_ALGOS)) == OFFERS
  {
    SchemeOctets();
    OfferNumbers();
    hide EncodeU16s, SCHEME_OCTETS, PutU16;
    assert Ext(13, [0x00, 0x12] + SCHEME_OCTETS) == [0x00, 0x0d, 0x00, 0x14] + ([0x00, 0x12] + SCHEME_OCTETS);
  }

  lemma OfferNumbers()
    ensures PutU16(43) == [0, 43] && PutU16(10) == [0, 10] && PutU16(13) == [0, 13]
    ensures PutU16(3) == [0, 3] && PutU16(4) == [0, 4] && PutU16(20) == [0, 20] && PutU16(18) == [0, 18]
  {
  }

  lemma ShareExtOctets(pub: bytes)
    requires |pub| == 32
    ensures Ext(51, KeyShareData(pub)) == [0x00, 0x33, 0x00, 0x26, 0x00, 0x24, 0x00, 0x1d, 0x00, 0x20] + pub
    ensures Ext(45, [1, 1]) == [0x00, 0x2d, 0x00, 0x02, 0x01, 0x01]
  {
  }

  lemma NameExtOctets(name: bytes)
    requires name != []
    ensures Ext(0, SniData(name)) == NameOctets(name)
  {
    assert PutU16(|name|) == Two(|name|) && PutU16(3 + |name|) == Two(3 + |name|);
    assert PutU16(5 + |name|) == Two(5 + |name|);
    hide PutU16, Two;
    assert SniData(name) == Two(3 + |name|) + ([0x00] + Two(|name|) + name);
  }

  lemma ProbeExtsAre(pub: bytes, name: bytes)
    requires |pub| == 32
    ensures Concat(ProbeExts(pub, name)) == ProbeExtOctets(pub, name)
  {
    var a, b := Ext(43, [2, 3, 4]), Ext(10, [0, 2, 0, 0x1d]);
    var c := Ext(13, PutU16(18) + EncodeU16s(SIGNATURE_ALGOS));
    var d, e := Ext(51, KeyShareData(pub)), Ext(45, [1, 1]);
    OfferOctets();
    ShareExtOctets(pub);
    var last: seq<bytes> := if name == [] then [] else [Ext(0, SniData(name))];
    assert ProbeExts(pub, name) == [a, b, c, d, e] + last;
    if name != [] {
      NameExtOctets(name);
      ConcatOne(Ext(0, SniData(name)));
    }
    hide Ext, EncodeU16s, KeyShareData, SniData, ProbeExts, NameOctets, OFFERS;
    FiveParts(a, b, c, d, e, last);
    assert Concat(last) == NameOctets(name) by {
      if name == [] {
        assert Concat([]) == [] && NameOctets([]) == [] by {
          NoName();
        }
      }
    }
  }

  lemma NoName()
    ensures Concat([]) == [] && NameOctets([]) == []
  {
  }

  lemma FiveParts(a: bytes, b: bytes, c: bytes, d: bytes, e: bytes, last: seq<bytes>)
    ensures Concat([a, b, c, d, e] + last) == a + b + c + d + e + Concat(last)
  {
    ConcatAppend([a, b, c, d, e], last);
    ConcatOne(e);
    ConcatCons(d, [e]);
    ConcatCons(c, [d, e]);
    ConcatCons(b, [c, d, e]);
    ConcatCons(a, [b, c, d, e]);
    hide Concat;
    assert [d] + [e] == [d, e] && [c] + [d, e] == [c, d, e] && [b] + [c, d, e] == [b, c, d, e];
    assert [a] + [b, c, d, e] == [a, b, c, d, e];
  }

  /** What BuildClientHello writes, octet by octet, for every random, session id, key and name. */
  lemma KnownProbe(random: bytes, sid: bytes, pub: bytes, name: bytes)
    requires |random| == |sid| == |pub| == 32
    ensures var exts := ProbeExtOctets(pub, name);
            Msg(1, Encode(ProbeHello(random, sid, pub, name)))
            == HandshakeHeader(1, 75 + |exts|) + ProbeBody(random, sid, exts)
  {
    var exts := ProbeExtOctets(pub, name);
    ProbeEncodes(random, sid, pub, name);
    ProbeLength(random, sid, exts);
    hide ProbeExtOctets, Encode, ProbeHello, ProbeBody;
  }

  lemma ProbeLength(random: bytes, sid: bytes, exts: bytes)
    requires |random| == |sid| == 32
    ensures |ProbeBody(random, sid, exts)| == 75 + |exts|
  {
  }

  lemma EncodeParts(h: Hello, version: bytes, suites: bytes, exts: bytes)
    requires |h.sessionId| == 32 && h.compression == [0]
    requires PutU16(h.version) == version && EncodeU16s(h.ciphers) == suites && Concat(h.exts) == exts
    ensures Encode(h) == version + h.random + [32] + h.sessionId + PutU16(|suites|) + suites + [1] + [0]
                         + PutU16(|exts|) + exts
  {
    hide PutU16, EncodeU16s, Concat;
  }

  lemma ProbeEncodes(random: bytes, sid: bytes, pub: bytes, name: bytes)
    requires |random| == |sid| == |pub| == 32
    ensures Encode(ProbeHello(random, sid, pub, name)) == ProbeBody(random, sid, ProbeExtOctets(pub, name))
  {
    ProbeExtsAre(pub, name);
    OneCipher();
    var h, exts := ProbeHello(random, sid, pub, name), ProbeExtOctets(pub, name);
    ProbeNumbers(|exts|);
    hide ProbeExtOctets, ProbeExts, Concat, EncodeU16s, PutU16, Two, Encode;
    EncodeParts(h, [3, 3], [0x13, 0x01], exts);
  }

  lemma ProbeNumbers(n: nat)
    ensures PutU16(0x0303) == [3, 3] && PutU16(2) == [0, 2] && PutU16(0x1301) == [0x13, 0x01] && PutU16(n) == Two(n)
  {
  }

  // ---- A ServerHello ----

  /** The selected version, 1.3, in a supported_versions extension. */
  const SELECTED_EXT: bytes := [0x00, 0x2b, 0x00, 0x02, 0x03, 0x04]

  /** An x25519 key share. */
  function ShareOctets(pub: bytes): bytes
    requires |pub| == 32
  {
    [0x00, 0x33, 0x00, 0x24, 0x00, 0x1d, 0x00, 0x20] + pub
  }

  /** The body of a TLS 1.3 ServerHello that selects TLS_AES_128_GCM_SHA256; the version field in front is
      that of TLS 1.2, as section 4.1.3 of RFC 8446 wants it. */
  function ServerOctets(random: bytes, sid: bytes, pub: bytes): bytes
    requires |sid| < 0x100 && |pub| == 32
  {
    [3, 3] + random + [|sid|] + sid + [0x13, 0x01] + [0x00] + [0x00, 0x2e] + SELECTED_EXT + ShareOctets(pub)
  }

  function ServerExts(pub: bytes): seq<frame>
    requires |pub| == 32
  {
    [SELECTED_EXT, ShareOctets(pub)]
  }

  lemma ServerExtsAre(pub: bytes)
    requires |pub| == 32
    ensures AreFrames(Extension, ServerExts(pub))
    ensures Concat(ServerExts(pub)) == SELECTED_EXT + ShareOctets(pub) && |Concat(ServerExts(pub))| == 46
    ensures ExtType(SELECTED_EXT) == 0x2b && Data(SELECTED_EXT) == [0x03, 0x04]
    ensures ExtType(ShareOctets(pub)) == 0x33 && Data(ShareOctets(pub)) == [0x00, 0x1d, 0x00, 0x20] + pub
  {
    ConcatOne(ShareOctets(pub));
    ConcatCons(SELECTED_EXT, [ShareOctets(pub)]);
    assert [SELECTED_EXT] + [ShareOctets(pub)] == ServerExts(pub);
    hide Concat;
    assert ShareOctets(pub)[4..] == [0x00, 0x1d, 0x00, 0x20] + pub;
  }

  lemma ServerEncodes(random: bytes, sid: bytes, pub: bytes)
    requires |random| == 32 && |sid| < 0x100 && |pub| == 32
    ensures SH.Body(0x0303, random, sid, 0x1301, 0, ServerExts(pub)) == ServerOctets(random, sid, pub)
  {
    ServerExtsAre(pub);
    hide Concat, ShareOctets;
    assert PutU16(0x0303) == [3, 3] && PutU16(0x1301) == [0x13, 0x01] && PutU16(46) == [0x00, 0x2e];
  }

  lemma ServerTypes(pub: bytes)
    requires |pub| == 32
    ensures Types(ServerExts(pub)) == [0x2b, 0x33]
    ensures SH.SelectedVersion(ServerExts(pub)) == 0x0304
  {
    ServerExtsAre(pub);
    var a: frame, b: frame := SELECTED_EXT, ShareOctets(pub);
    FlatMapOne(TypeOne, a);
    FlatMapSnoc(TypeOne, [a], b);
    assert [a] + [b] == ServerExts(pub);
    hide FlatMap, ExtType, Data, ShareOctets;
  }

  lemma ServerVersion(random: bytes, sid: bytes, pub: bytes)
    requires |sid| < 0x100 && |pub| == 32
    ensures |ServerOctets(random, sid, pub)| >= 2 && U16At(ServerOctets(random, sid, pub), 0) == 0x0303
  {
    var body := ServerOctets(random, sid, pub);
    assert body[0] == 3 && body[1] == 3;
  }

  lemma ServerReads(random: bytes, sid: bytes, pub: bytes)
    requires |random| == 32 && |sid| < 0x100 && |pub| == 32
    ensures var body := ServerOctets(random, sid, pub);
            && |body| > 37 + |sid| && body[34] == |sid|
            && U16At(body, 0) == 0x0303 && U16At(body, 35 + |sid|) == 0x1301
            && Walk(Extension, SH.ExtensionBytes(body)) == ServerExts(pub)
  {
    var body := ServerOctets(random, sid, pub);
    ServerExtsAre(pub);
    ServerEncodes(random, sid, pub);
    ServerVersion(random, sid, pub);
    assert body + [] == body;
    hide Walk, Concat, SH.Body, SH.Extensions, ServerOctets, ServerExts, U16At;
    SH.ExtensionsRead(0x0303, random, sid, 0x1301, 0, ServerExts(pub), []);
    SH.BodyLayout(0x0303, random, sid, 0x1301, 0, ServerExts(pub));
  }

  lemma DecimalOf(v: nat)
    requires v >= 10
    ensures SH.Decimal(v) == SH.Decimal(v / 10) + SH.Decimal(v % 10)
  {
  }

  lemma ServerNumerals()
    ensures SH.Decimal(0x0303) == "771" && SH.Decimal(0x1301) == "4865"
    ensures SH.Decimal(0x2b) == "43" && SH.Decimal(0x33) == "51"
  {
    DecimalOf(771);
    DecimalOf(77);
    DecimalOf(4865);
    DecimalOf(486);
    DecimalOf(48);
    DecimalOf(43);
    DecimalOf(51);
  }

  lemma ServerJa3(pub: bytes)
    requires |pub| == 32
    ensures SH.Raw(0x0303, 0x1301, Types(ServerExts(pub))) == "771,4865,43-51"
  {
    ServerTypes(pub);
    ServerNumerals();
    FlatMapOne(SH.DecimalOne, 0x2b);
    FlatMapSnoc(SH.DecimalOne, [0x2b], 0x33);
    assert [0x2b] + [0x33] == [0x2b, 0x33];
    hide SH.Decimal, FlatMap, Types, ServerExts;
    assert ["43", "51"][1..] == ["51"];
    assert Join(["43", "51"], "-") == "43-51";
    hide Join;
    assert "771" + "," + "4865" + "," + "43-51" == "771,4865,43-51";
  }

  lemma ServerKept()
    ensures Kept([0x2b, 0x33]) == [0x2b, 0x33]
  {
    FlatMapOne(KeepOne, 0x2b);
    FlatMapSnoc(KeepOne, [0x2b], 0x33);
    hide FlatMap;
    assert [0x2b] + [0x33] == [0x2b, 0x33];
  }

  lemma ServerTypeList()
    ensures Join(Hex4s([0x2b, 0x33]), ",") == "002b,0033"
    ensures Hex4(0x1301) == "1301"
  {
    SuiteNumerals();
    LastNumerals();
    hide Hex4, Hex4s, SortStrings, Join, StrLt;
    ListOfTwo(0x2b, 0x33, "002b", "0033");
    assert "002b" + "," + "0033" == "002b,0033";
  }

  lemma LastNumerals()
    ensures Hex4(0x2b) == "002b" && Hex4(0x33) == "0033"
  {
  }

  lemma ServerPrefix()
    ensures SH.Transport("h2") + VersionString(0x0304) + TwoDigit(2) + AlpnComponent("h2") == "t1302h2"
    ensures SH.Transport("h3") + VersionString(0x0304) + TwoDigit(2) + AlpnComponent("h3") == "q1302h3"
    ensures SH.Transport("h3-29") + VersionString(0x0304) + TwoDigit(2) + AlpnComponent("") == "q130200"
  {
    assert TwoDigit(2) == "02";
  }

  /** JA3S shows the version field, JA4S the selected version: 771 beside 13. Both list the two extensions
      in the order sent, JA3S in decimal and JA4S in hex. */
  lemma KnownServer(sha: string -> string, random: bytes, sid: bytes, pub: bytes)
    requires |random| == 32 && |sid| < 0x100 && |pub| == 32
    ensures var body := ServerOctets(random, sid, pub);
            && SH.Ja3sOf(body) == SH.Ja3s("771,4865,43-51", 0x0303, 0x1301, 2)
            && SH.Ja4sOf(sha, body, "h2", "h2") == "t1302h2" + "_" + "1301" + "_" + sha("002b,0033")
            && SH.Ja4sOf(sha, body, "h3", "h3") == "q1302h3" + "_" + "1301" + "_" + sha("002b,0033")
            && SH.Ja4sOf(sha, body, "h3-29", "") == "q130200" + "_" + "1301" + "_" + sha("002b,0033")
  {
    ServerReads(random, sid, pub);
    ServerTypes(pub);
    ServerJa3(pub);
    ServerKept();
    ServerTypeList();
    ServerPrefix();
    hide Walk, SH.ExtensionBytes, ServerOctets, ServerExts, SH.Raw, Types, Kept, Hex4, Hex4s, Join, U16At;
    hide SH.SelectedVersion, SH.Transport, VersionString, TwoDigit, AlpnComponent;
  }

  /** The handshake's own parser reads the same message: cipher, key and random, and no retry. */
  lemma KnownServerParses(random: bytes, sid: bytes, pub: bytes, tail: bytes)
    requires |random| == 32 && |sid| < 0x100 && |pub| == 32 && random != SH.HRR_RANDOM
    ensures var n := 86 + |sid|;
            var msg := [2, 0, n / 0x100, n % 0x100] + ServerOctets(random, sid, pub);
            SH.Parse(msg + tail) == Ok(SH.Parsed(random, 0x1301, Some(pub), false, msg))
  {
    var n := 86 + |sid|;
    var body := ServerOctets(random, sid, pub);
    ServerExtsAre(pub);
    ServerEncodes(random, sid, pub);
    assert |body| == n;
    assert Msg(2, body) == [2, 0, n / 0x100, n % 0x100] + body;
    SH.ParseLaidOut(0x0303, random, sid, 0x1301, 0, ServerExts(pub), tail);
    ServerShare(pub);
    hide SH.Parse, SH.Body, SH.KeyShares, ServerOctets, Msg, ServerExts, Concat;
  }

  lemma ServerShare(pub: bytes)
    requires |pub| == 32
    ensures SH.KeyShares(ServerExts(pub), None) == Ok(Some(pub))
  {
    ServerExtsAre(pub);
    var d := Data(ShareOctets(pub));
    assert d[0] == 0 && d[1] == 0x1d && d[2] == 0 && d[3] == 0x20 && d[4..36] == pub;
    assert SH.KeyShare(d) == Ok(pub);
    hide SH.KeyShare, ShareOctets, ExtType, Data;
    assert ServerExts(pub)[1..] == [ShareOctets(pub)] && [ShareOctets(pub)][1..] == [];
    assert SH.KeyShares([], Some(pub)) == Ok(Some(pub));
    assert SH.KeyShares([ShareOctets(pub)], None) == SH.KeyShares([], SH.Copied(pub));
  }
}
