/** Readers of a ServerHello (section 4.1.3 of RFC 8446): the handshake's own parser, the extension
    lookups, and the JA3S and JA4S fingerprints. Each walks the same bytes with its own cursor. */
module ServerHello {
  import opened Bytes
  import opened Frames
  import opened Lists
  import opened Outcomes
  import opened Text
  import opened Ja4
  import opened Ja4Stability

  const HS_SERVER_HELLO: byte := 2
  const EXT_KEY_SHARE: u16 := 51
  const GROUP_X25519: u16 := 0x001d

  const HRR_RANDOM: bytes := [
    0xCF, 0x21, 0xAD, 0x74, 0xE5, 0x9A, 0x61, 0x11, 0xBE, 0x1D, 0x8C, 0x02, 0x1E, 0x65, 0xB8, 0x91,
    0xC2, 0xA2, 0x11, 0x16, 0x7A, 0xBB, 0x8C, 0x5E, 0x07, 0x9E, 0x09, 0xE2, 0xC8, 0xA8, 0x33, 0x9C]

  datatype ParseError =
    | NotServerHello | ShortBody | TruncatedHeader | TruncatedSessionId | MissingExtensionsLength
    | ExtensionsTruncated | ExtensionLengthOverflow | KeyShareTooShort | UnsupportedGroup
    | KeyShareLengthOverflow | MissingKeyShare

  datatype Parsed = Parsed(random: bytes, cipherSuite: u16, serverPub: Option<bytes>,
                           helloRetryRequest: bool, raw: bytes)

  /** The public key in a key_share entry. */
  function KeyShare(data: bytes): Result<bytes, ParseError> {
    if |data| < 4 then Err(KeyShareTooShort)
    else if U16At(data, 0) != GROUP_X25519 then Err(UnsupportedGroup)
    else if 4 + U16At(data, 2) > |data| then Err(KeyShareLengthOverflow)
    else Ok(data[4..4 + U16At(data, 2)])
  }

  /** Appending to a nil slice: appending nothing leaves it nil, so an empty key reads as no key. */
  function Copied(k: bytes): Option<bytes> {
    if k == [] then None else Some(k)
  }

  /** The last key_share wins, an empty one included; a bad one ends the parse. */
  function KeyShares(fs: seq<frame>, found: Option<bytes>): Result<Option<bytes>, ParseError> {
    if fs == [] then Ok(found)
    else if ExtType(fs[0]) != EXT_KEY_SHARE then KeyShares(fs[1..], found)
    else match KeyShare(Data(fs[0]))
      case Err(e) => Err(e)
      case Ok(k) => KeyShares(fs[1..], Copied(k))
  }

  function ScanShares(exts: bytes, found: Option<bytes>): Result<Option<bytes>, ParseError> {
    match KeyShares(Walk(Extension, exts), found)
    case Err(e) => Err(e)
    case Ok(k) => if |Rest(Extension, exts)| >= 4 then Err(ExtensionLengthOverflow) else Ok(k)
  }

  function ParseBody(body: bytes, raw: bytes): Result<Parsed, ParseError> {
    if |body| < 35 then Err(TruncatedHeader)
    else
      var c := 35 + body[34] as int;
      if c + 3 > |body| then Err(TruncatedSessionId)
      else if c + 5 > |body| then Err(MissingExtensionsLength)
      else if c + 5 + U16At(body, c + 3) > |body| then Err(ExtensionsTruncated)
      else match ScanShares(body[c + 5..c + 5 + U16At(body, c + 3)], None)
        case Err(e) => Err(e)
        case Ok(k) =>
          var hrr := body[2..34] == HRR_RANDOM;
          if !hrr && k == None then Err(MissingKeyShare)
          else Ok(Parsed(body[2..34], U16At(body, c), k, hrr, raw))
  }

  function Parse(msg: bytes): Result<Parsed, ParseError> {
    if |msg| < 4 || msg[0] != HS_SERVER_HELLO then Err(NotServerHello)
    else if |msg| < 4 + U24At(msg, 1) then Err(ShortBody)
    else ParseBody(msg[4..4 + U24At(msg, 1)], msg[..4 + U24At(msg, 1)])
  }

  method FindKeyShare(exts: bytes) returns (r: Result<Option<bytes>, ParseError>)
    ensures r == ScanShares(exts, None)
  {
    hide Walk, Rest;
    var found: Option<bytes> := None;
    var eo := 0;
    assert exts[0..] == exts;
    while eo + 4 <= |exts|
      invariant 0 <= eo <= |exts|
      invariant KeyShares(Walk(Extension, exts), None) == KeyShares(Walk(Extension, exts[eo..]), found)
      invariant Rest(Extension, exts) == Rest(Extension, exts[eo..])
    {
      WalkAt(Extension, exts, eo);
      var etype := U16At(exts, eo);
      var elen := U16At(exts, eo + 2);
      if eo + 4 + elen > |exts| {
        return Err(ExtensionLengthOverflow);
      }
      var edata := exts[eo + 4..eo + 4 + elen];
      ghost var f: frame := exts[eo..eo + 4 + elen];
      assert edata == Data(f) && etype == ExtType(f);
      ghost var later := Walk(Extension, exts[eo + 4 + elen..]);
      assert ([f] + later)[1..] == later;
      if etype == EXT_KEY_SHARE {
        if |edata| < 4 {
          return Err(KeyShareTooShort);
        }
        if U16At(edata, 0) != GROUP_X25519 {
          return Err(UnsupportedGroup);
        }
        var klen := U16At(edata, 2);
        if 4 + klen > |edata| {
          return Err(KeyShareLengthOverflow);
        }
        found := if klen == 0 then None else Some(edata[4..4 + klen]);
      }
      eo := eo + 4 + elen;
    }
    WalkAt(Extension, exts, eo);
    return Ok(found);
  }

  method IsHrrRandom(random: bytes) returns (hrr: bool)
    requires |random| == 32
    ensures hrr <==> random == HRR_RANDOM
  {
    hrr := true;
    var i := 0;
    while i < 32
      invariant 0 <= i <= 32
      invariant hrr && forall j :: 0 <= j < i ==> random[j] == HRR_RANDOM[j]
    {
      if random[i] != HRR_RANDOM[i] {
        return false;
      }
      i := i + 1;
    }
  }

  method ParseServerHello(msg: bytes) returns (r: Result<Parsed, ParseError>)
    ensures r == Parse(msg)
  {
    hide ScanShares, U24At, U16At;
    if |msg| < 4 || msg[0] != HS_SERVER_HELLO {
      return Err(NotServerHello);
    }
    var bodyLen := U24At(msg, 1);
    if |msg| < 4 + bodyLen {
      return Err(ShortBody);
    }
    var body := msg[4..4 + bodyLen];
    if |body| < 2 + 32 + 1 {
      return Err(TruncatedHeader);
    }
    var off := 2;
    var random := body[off..off + 32];
    off := off + 32;
    var sidLen := body[off] as int;
    off := off + 1;
    if off + sidLen + 2 + 1 > |body| {
      return Err(TruncatedSessionId);
    }
    off := off + sidLen;
    var cipherSuite := U16At(body, off);
    off := off + 3;
    if off + 2 > |body| {
      return Err(MissingExtensionsLength);
    }
    var extLen := U16At(body, off);
    off := off + 2;
    if off + extLen > |body| {
      return Err(ExtensionsTruncated);
    }
    var exts := body[off..off + extLen];
    var hrr := IsHrrRandom(random);
    var share := FindKeyShare(exts);
    if share.Err? {
      return Err(share.error);
    }
    if !hrr && share.value == None {
      return Err(MissingKeyShare);
    }
    return Ok(Parsed(random, cipherSuite, share.value, hrr, msg[..4 + bodyLen]));
  }

  // ---- The other readers ----

  /** The extension bytes of a ServerHello body, read without judging their contents. */
  function Extensions(body: bytes): Option<bytes> {
    if |body| < 35 then None
    else
      var off := 38 + body[34] as int;
      if off + 2 > |body| || off + 2 + U16At(body, off) > |body| then None
      else Some(body[off + 2..off + 2 + U16At(body, off)])
  }

  function ExtensionBytes(body: bytes): bytes {
    match Extensions(body) case Some(e) => e case None => []
  }

  method ServerHelloExtensions(body: bytes) returns (r: Option<bytes>)
    ensures r == Extensions(body)
  {
    if |body| < 35 {
      return None;
    }
    var sidLen := body[34] as int;
    var off := 35 + sidLen + 2 + 1;
    if off + 2 > |body| {
      return None;
    }
    var extLen := U16At(body, off);
    off := off + 2;
    if off + extLen > |body| {
      return None;
    }
    return Some(body[off..off + extLen]);
  }

  /** Types of the extensions a walk over the bytes sees. */
  function Ids(ext: bytes): seq<u16> {
    Types(Walk(Extension, ext))
  }

  /** Some extension the walk sees has the type. */
  ghost predicate Present(ext: bytes, t: u16) {
    exists f :: f in Walk(Extension, ext) && ExtType(f) == t
  }

  lemma {:induction false} TypesAreTypes(fs: seq<frame>, t: u16)
    ensures t in Types(fs) <==> exists f :: f in fs && ExtType(f) == t
  {
    hide ExtType;
    if fs != [] {
      TypesAreTypes(fs[1..], t);
      assert fs == [fs[0]] + fs[1..];
    }
  }

  method ExtensionPresent(ext: bytes, wantType: u16) returns (r: bool)
    ensures r <==> Present(ext, wantType)
  {
    PresentIffListed(ext, wantType);
    hide *;
    NoneCollected(ext);
    var i := 0;
    ghost var done: seq<u16> := [];
    while i + 4 <= |ext|
      invariant 0 <= i <= |ext|
      invariant Ids(ext) == done + Types(Walk(Extension, ext[i..]))
      invariant wantType !in done
    {
      IdsStep(ext, i);
      var extType := U16At(ext, i);
      var end := i + 4 + U16At(ext, i + 2);
      if end > |ext| {
        assert done + [] == done;
        return false;
      }
      if extType == wantType {
        assert Ids(ext)[|done|] == wantType;
        return true;
      }
      ghost var later := Types(Walk(Extension, ext[end..]));
      assert done + ([extType] + later) == (done + [extType]) + later;
      done := done + [extType];
      i := end;
    }
    IdsStep(ext, i);
    assert done + [] == done;
    return false;
  }

  lemma PresentIffListed(ext: bytes, t: u16)
    ensures Present(ext, t) <==> t in Ids(ext)
  {
    TypesAreTypes(Walk(Extension, ext), t);
    hide Walk, Types;
  }

  lemma TypesOfNone()
    ensures Types([]) == []
  {
  }

  lemma TypesStep(f: frame, later: seq<frame>)
    ensures Types([f] + later) == [ExtType(f)] + Types(later)
  {
    assert ([f] + later)[1..] == later;
  }

  /** The identifier loop of JA3S and, with GREASE dropped, of JA4S. */
  method CollectIds(ext: bytes, dropGrease: bool) returns (ids: seq<u16>)
    ensures ids == if dropGrease then Kept(Ids(ext)) else Ids(ext)
  {
    hide *;
    ids := [];
    ghost var done: seq<u16> := [];
    var i := 0;
    NoneCollected(ext);
    while i + 4 <= |ext|
      invariant 0 <= i <= |ext|
      invariant Ids(ext) == done + Types(Walk(Extension, ext[i..]))
      invariant ids == if dropGrease then Kept(done) else done
    {
      IdsStep(ext, i);
      var extType := U16At(ext, i);
      var end := i + 4 + U16At(ext, i + 2);
      if end > |ext| {
        break;
      }
      KeptSnoc(done, extType);
      assert done + ([extType] + Types(Walk(Extension, ext[end..])))
          == (done + [extType]) + Types(Walk(Extension, ext[end..]));
      if !(dropGrease && IsGrease(extType)) {
        ids := ids + [extType];
      }
      done := done + [extType];
      i := end;
    }
    IdsStep(ext, i);
    assert done + [] == done;
  }

  lemma NoneCollected(ext: bytes)
    ensures Ids(ext) == [] + Types(Walk(Extension, ext[0..])) && Kept([]) == []
  {
    assert ext[0..] == ext;
    assert Ids(ext) == [] + Ids(ext);
  }

  /** One turn of an identifier loop standing at i. */
  lemma IdsStep(ext: bytes, i: nat)
    requires i <= |ext|
    ensures Types(Walk(Extension, ext[i..]))
         == if i + 4 <= |ext| && i + 4 + U16At(ext, i + 2) <= |ext|
            then [U16At(ext, i)] + Types(Walk(Extension, ext[i + 4 + U16At(ext, i + 2)..]))
            else []
  {
    hide Walk, FlatMap, Types;
    WalkAt(Extension, ext, i);
    TypesOfNone();
    if i + 4 <= |ext| && i + 4 + U16At(ext, i + 2) <= |ext| {
      var end := i + 4 + U16At(ext, i + 2);
      var f: frame := ext[i..end];
      assert ExtType(f) == U16At(ext, i);
      TypesStep(f, Walk(Extension, ext[end..]));
    }
  }

  lemma KeptSnoc(done: seq<u16>, t: u16)
    ensures Kept(done + [t]) == if IsGrease(t) then Kept(done) else Kept(done) + [t]
  {
    FlatMapAppend(KeepOne, done, [t]);
    FlatMapOne(KeepOne, t);
  }

  // ---- The readers agree ----

  /** The last key_share of an extension list. */
  function LastShare(fs: seq<frame>): Option<frame> {
    if fs == [] then None
    else
      var later := LastShare(fs[1..]);
      if later.Some? then later else if ExtType(fs[0]) == EXT_KEY_SHARE then Some(fs[0]) else None
  }

  /** The key the last key_share carries; None when there is no key_share or its key is empty. */
  function LastKey(fs: seq<frame>): Option<bytes> {
    match LastShare(fs)
    case None => None
    case Some(f) =>
      match KeyShare(Data(f))
      case Err(_) => None
      case Ok(k) => Copied(k)
  }

  /** Whatever the handshake parser accepts, the other readers see the same message: the same
      extension bytes and the same cipher. The parser has a key exactly when a key_share is visible to
      them and the last one is not empty. */
  lemma ReadersAgree(msg: bytes)
    requires Parse(msg).Ok?
    ensures var p := Parse(msg).value;
            var body := msg[4..4 + U24At(msg, 1)];
            var c := 35 + body[34] as int;
            var fs := Walk(Extension, ExtensionBytes(body));
            && p.raw == msg[..4 + U24At(msg, 1)] && p.random == body[2..34]
            && Extensions(body) == Some(body[c + 5..c + 5 + U16At(body, c + 3)])
            && Ja3sOf(body).cipher == p.cipherSuite
            && (LastShare(fs).Some? <==> EXT_KEY_SHARE in Ids(ExtensionBytes(body)))
            && p.serverPub == LastKey(fs)
            && (p.serverPub.Some? <==> LastShare(fs).Some? && KeyShare(Data(LastShare(fs).value)) != Ok([]))
            && (!p.helloRetryRequest ==> p.serverPub.Some?)
  {
    hide Walk, Rest, FlatMap;
    var body := msg[4..4 + U24At(msg, 1)];
    SharesFound(Walk(Extension, ExtensionBytes(body)), None);
  }

  lemma {:induction false} SharesFound(fs: seq<frame>, found: Option<bytes>)
    requires KeyShares(fs, found).Ok?
    ensures LastShare(fs).Some? <==> EXT_KEY_SHARE in Types(fs)
    ensures LastShare(fs).Some? ==> KeyShare(Data(LastShare(fs).value)).Ok?
    ensures KeyShares(fs, found).value == if LastShare(fs).Some? then LastKey(fs) else found
    decreases fs
  {
    hide KeyShare, ExtType;
    if fs != [] {
      assert fs == [fs[0]] + fs[1..];
      TypesStep(fs[0], fs[1..]);
      if ExtType(fs[0]) != EXT_KEY_SHARE {
        SharesFound(fs[1..], found);
      } else {
        SharesFound(fs[1..], Copied(KeyShare(Data(fs[0])).value));
      }
    }
  }

  /** On any extension bytes the lookup, the JA3S list and the JA4S list tell the same story, down to how
      often a type occurs. */
  lemma ListsAgree(ext: bytes, t: u16)
    ensures Present(ext, t) <==> t in Ids(ext)
    ensures t in Kept(Ids(ext)) <==> Present(ext, t) && !IsGrease(t)
    ensures multiset(Kept(Ids(ext)))[t] == if IsGrease(t) then 0 else multiset(Ids(ext))[t]
    ensures |Ids(ext)| == |Walk(Extension, ext)|
  {
    FlatMapSingletons(TypeOne, Walk(Extension, ext));
    TypesAreTypes(Walk(Extension, ext), t);
    KeptMembers(Ids(ext));
    KeptCounts(Ids(ext), t);
  }

  lemma {:induction false} KeptCounts(vs: seq<u16>, t: u16)
    ensures multiset(Kept(vs))[t] == if IsGrease(t) then 0 else multiset(vs)[t]
  {
    hide IsGrease;
    if vs != [] {
      KeptCounts(vs[1..], t);
      assert vs == [vs[0]] + vs[1..];
      assert Kept(vs) == KeepOne(vs[0]) + Kept(vs[1..]);
    }
  }

  // ---- JA3S ----

  function Decimal(v: nat): (s: string)
    ensures |s| > 0
  {
    if v < 10 then [DIGITS[v]] else Decimal(v / 10) + [DIGITS[v % 10]]
  }

  function DecimalOne(v: u16): seq<string> { [Decimal(v)] }

  function Decimals(vs: seq<u16>): seq<string> {
    FlatMap(DecimalOne, vs)
  }

  datatype Ja3s = Ja3s(raw: string, version: u16, cipher: u16, extCount: nat)

  /** The record before hashing; all zero when the body is too short. */
  function Ja3sOf(body: bytes): Ja3s {
    if |body| < 35 then Ja3s("", 0, 0, 0)
    else
      var off := 35 + body[34] as int;
      if off + 2 > |body| then Ja3s("", U16At(body, 0), 0, 0)
      else
        var ids := Ids(ExtensionBytes(body));
        Ja3s(Raw(U16At(body, 0), U16At(body, off), ids), U16At(body, 0), U16At(body, off), |ids|)
  }

  function Raw(version: u16, cipher: u16, ids: seq<u16>): string {
    Decimal(version) + "," + Decimal(cipher) + "," + Join(Decimals(ids), "-")
  }

  /** Digits are written from the end of a small buffer. */
  method DecimalUint16(v0: u16) returns (s: string)
    ensures s == Decimal(v0)
  {
    hide *;
    FiveDigits();
    if v0 == 0 {
      return "0";
    }
    var buf := new char[6];
    var i := 6;
    var v: nat := v0;
    assert Decimal(v0) == Decimal(v) + "";
    ghost var done: string := "";
    while v > 0
      invariant 1 <= i <= 6
      invariant v < Pow10(i - 1)
      invariant buf[i..] == done
      invariant Decimal(v0) == (if v > 0 then Decimal(v) else "") + done
    {
      DecimalStep(v, done);
      OneDigitLess(v, i - 1);
      i := i - 1;
      buf[i] := ('0' as int + v % 10) as char;
      done := [buf[i]] + done;
      assert buf[i..] == done;
      v := v / 10;
    }
    s := buf[i..];
  }

  lemma FiveDigits()
    ensures Pow10(0) == 1 && Pow10(5) == 100000 && Decimal(0) == "0"
  {
    assert Pow10(3) == 1000;
  }

  lemma OneDigitLess(v: nat, k: nat)
    requires 0 < v < Pow10(k)
    ensures k > 0 && v / 10 < Pow10(k - 1)
  {
  }

  lemma DecimalStep(v: nat, done: string)
    requires v > 0
    ensures var c := ('0' as int + v % 10) as char;
            Decimal(v) + done == (if v / 10 > 0 then Decimal(v / 10) else "") + ([c] + done)
  {
    assert ('0' as int + v % 10) as char == DIGITS[v % 10];
  }

  function Pow10(n: nat): nat {
    if n == 0 then 1 else 10 * Pow10(n - 1)
  }

  method ComputeJa3s(body: bytes) returns (out: Ja3s)
    ensures out == Ja3sOf(body)
  {
    hide Walk, FlatMap, Join, Decimal;
    out := Ja3s("", 0, 0, 0);
    if |body| < 35 {
      return;
    }
    out := out.(version := U16At(body, 0));
    var off := 35 + body[34] as int;
    if off + 2 > |body| {
      return;
    }
    out := out.(cipher := U16At(body, off));
    var found := ServerHelloExtensions(body);
    var ext := if found.Some? then found.value else [];
    var ids := CollectIds(ext, false);
    var strs := FormatDecimal(ids);
    var v := DecimalUint16(out.version);
    var c := DecimalUint16(out.cipher);
    out := out.(extCount := |ids|, raw := v + "," + c + "," + Join(strs, "-"));
  }

  method FormatDecimal(vs: seq<u16>) returns (strs: seq<string>)
    ensures strs == Decimals(vs)
  {
    hide FlatMap;
    strs := [];
    assert vs[0..] == vs;
    for i := 0 to |vs|
      invariant Decimals(vs) == strs + FlatMap(DecimalOne, vs[i..])
    {
      FlatMapStep(DecimalOne, vs, i);
      var d := DecimalUint16(vs[i]);
      assert strs + ([d] + FlatMap(DecimalOne, vs[i + 1..])) == (strs + [d]) + FlatMap(DecimalOne, vs[i + 1..]);
      strs := strs + [d];
    }
    FlatMapStep(DecimalOne, vs, |vs|);
    assert strs + [] == strs;
  }

  function DecimalValue(s: string): nat {
    if s == "" then 0 else 10 * DecimalValue(s[..|s| - 1]) + HexValue(s[|s| - 1])
  }

  predicate AllDigits(s: string) {
    forall i :: 0 <= i < |s| ==> '0' <= s[i] <= '9'
  }

  lemma {:induction false} DecimalReads(v: nat)
    ensures DecimalValue(Decimal(v)) == v && AllDigits(Decimal(v))
  {
    if v < 10 {
      assert Decimal(v)[..0] == "";
      assert HexValue(DIGITS[v]) == v;
    } else {
      DecimalReads(v / 10);
      var s := Decimal(v);
      assert s[..|s| - 1] == Decimal(v / 10);
      assert HexValue(DIGITS[v % 10]) == v % 10;
    }
  }

  /** The first separator after some digits ends them in one way only. */
  lemma DigitsSplit(a: string, x: string, b: string, y: string, sep: char)
    requires AllDigits(a) && AllDigits(b) && !('0' <= sep <= '9')
    requires (x == "" || x[0] == sep) && (y == "" || y[0] == sep)
    requires a + x == b + y
    ensures a == b && x == y
  {
    var s, t := a + x, b + y;
    assert forall i :: 0 <= i < |a| ==> s[i] == a[i];
    assert forall i :: 0 <= i < |b| ==> t[i] == b[i];
    assert x != "" ==> s[|a|] == sep;
    assert y != "" ==> t[|b|] == sep;
    assert |a| == |b|;
    assert a == s[..|a|] && b == t[..|b|];
    assert x == s[|a|..] && y == t[|b|..];
  }

  lemma DecimalsHead(vs: seq<u16>)
    requires vs != []
    ensures Decimals(vs) == [Decimal(vs[0])] + Decimals(vs[1..])
    ensures |Decimals(vs)| == |vs|
    ensures Join(Decimals(vs), "-")
         == Decimal(vs[0]) + if |vs| == 1 then "" else "-" + Join(Decimals(vs[1..]), "-")
  {
    FlatMapSingletons(DecimalOne, vs);
    FlatMapSingletons(DecimalOne, vs[1..]);
    assert Decimals(vs)[1..] == Decimals(vs[1..]);
    assert Decimal(vs[0]) + "" == Decimal(vs[0]);
  }

  lemma {:induction false} IdListReads(a: seq<u16>, b: seq<u16>)
    requires Join(Decimals(a), "-") == Join(Decimals(b), "-")
    ensures a == b
  {
    hide Decimal, DecimalValue;
    if a != [] && b != [] {
      hide FlatMap, Join;
      DecimalsHead(a);
      DecimalsHead(b);
      DecimalReads(a[0]);
      DecimalReads(b[0]);
      var x := if |a| == 1 then "" else "-" + Join(Decimals(a[1..]), "-");
      var y := if |b| == 1 then "" else "-" + Join(Decimals(b[1..]), "-");
      DigitsSplit(Decimal(a[0]), x, Decimal(b[0]), y, '-');
      if |a| > 1 && |b| > 1 {
        assert x[1..] == Join(Decimals(a[1..]), "-") && y[1..] == Join(Decimals(b[1..]), "-");
        IdListReads(a[1..], b[1..]);
      }
      assert a == [a[0]] + a[1..] && b == [b[0]] + b[1..];
    } else if a != [] {
      DecimalsHead(a);
    } else if b != [] {
      DecimalsHead(b);
    }
  }

  /** The JA3S record is uniquely decodable: equal strings mean equal version, cipher and extension
      list, in order. */
  lemma RawIsInjective(v1: u16, c1: u16, i1: seq<u16>, v2: u16, c2: u16, i2: seq<u16>)
    ensures Raw(v1, c1, i1) == Raw(v2, c2, i2) <==> v1 == v2 && c1 == c2 && i1 == i2
  {
    hide Decimal, FlatMap, Join, DecimalValue;
    if Raw(v1, c1, i1) == Raw(v2, c2, i2) {
      var j1, j2 := Join(Decimals(i1), "-"), Join(Decimals(i2), "-");
      var r1, r2 := "," + (Decimal(c1) + ("," + j1)), "," + (Decimal(c2) + ("," + j2));
      DecimalReads(v1);
      DecimalReads(v2);
      assert Raw(v1, c1, i1) == Decimal(v1) + r1 && Raw(v2, c2, i2) == Decimal(v2) + r2;
      DigitsSplit(Decimal(v1), r1, Decimal(v2), r2, ',');
      DecimalReads(c1);
      DecimalReads(c2);
      assert r1[1..] == Decimal(c1) + ("," + j1) && r2[1..] == Decimal(c2) + ("," + j2);
      DigitsSplit(Decimal(c1), "," + j1, Decimal(c2), "," + j2, ',');
      assert ("," + j1)[1..] == j1 && ("," + j2)[1..] == j2;
      IdListReads(i1, i2);
    }
  }

  // ---- JA4S ----

  /** The selected version: first supported_versions entry that is long enough, else 0. */
  function SelectedVersion(fs: seq<frame>): u16 {
    if fs == [] then 0
    else if ExtType(fs[0]) == EXT_SUPPORTED_VERSIONS && |Data(fs[0])| >= 2 then U16At(Data(fs[0]), 0)
    else SelectedVersion(fs[1..])
  }

  function Transport(protocol: string): string {
    if protocol == "h3" || protocol == "h3-29" then "q" else "t"
  }

  function Ja4sOf(sha: string -> string, body: bytes, protocol: string, alpn: string): string {
    if |body| < 35 || 37 + body[34] as int > |body| then ""
    else
      var fs := Walk(Extension, ExtensionBytes(body));
      var ids := Kept(Types(fs));
      var version := if SelectedVersion(fs) != 0 then SelectedVersion(fs) else U16At(body, 0);
      Transport(protocol) + VersionString(version) + TwoDigit(|ids|) + AlpnComponent(alpn)
        + "_" + Hex4(U16At(body, 35 + body[34] as int)) + "_" + sha(Join(Hex4s(ids), ","))
  }

  method SupportedVersionsFromExtensions(ext: bytes) returns (v: u16)
    ensures v == SelectedVersion(Walk(Extension, ext))
  {
    hide Walk;
    var i := 0;
    assert ext[0..] == ext;
    while i + 4 <= |ext|
      invariant 0 <= i <= |ext|
      invariant SelectedVersion(Walk(Extension, ext)) == SelectedVersion(Walk(Extension, ext[i..]))
    {
      WalkAt(Extension, ext, i);
      var extType := U16At(ext, i);
      var extDataLen := U16At(ext, i + 2);
      var end := i + 4 + extDataLen;
      if end > |ext| {
        return 0;
      }
      ghost var f: frame := ext[i..end];
      ghost var later := Walk(Extension, ext[end..]);
      assert ExtType(f) == extType && Data(f) == ext[i + 4..end];
      assert ([f] + later)[1..] == later;
      if extType == EXT_SUPPORTED_VERSIONS && extDataLen >= 2 {
        return U16At(ext, i + 4);
      }
      i := end;
    }
    WalkAt(Extension, ext, i);
    return 0;
  }

  method ComputeJa4s(sha: string -> string, body: bytes, protocol: string, alpn: string) returns (r: string)
    ensures r == Ja4sOf(sha, body, protocol, alpn)
  {
    hide Walk, FlatMap, Join, AlpnComponent, VersionString, TwoDigit, Hex4, U16At, Extensions, SelectedVersion;
    hide Kept, Types, Hex4s;
    if |body| < 35 {
      return "";
    }
    var tlsVer := U16At(body, 0);
    var off := 35 + body[34] as int;
    if off + 2 > |body| {
      return "";
    }
    var cipher := U16At(body, off);
    var found := ServerHelloExtensions(body);
    var ext := if found.Some? then found.value else [];
    var sv := SupportedVersionsFromExtensions(ext);
    if sv != 0 {
      tlsVer := sv;
    }
    var extIds := CollectIds(ext, true);
    var transport := "t";
    if protocol == "h3" || protocol == "h3-29" {
      transport := "q";
    }
    var a := transport + VersionString(tlsVer) + TwoDigit(|extIds|) + AlpnComponent(alpn);
    var extStrs := FormatHex(extIds);
    r := a + "_" + Hex4(cipher) + "_" + sha(Join(extStrs, ","));
  }

  /** Unlike the client fingerprint, JA4S keeps the order of the extensions: its hash is fed the same
      string iff the non-GREASE lists are equal as lists. */
  lemma Ja4sKeepsOrder(i1: seq<u16>, i2: seq<u16>)
    ensures Join(Hex4s(Kept(i1)), ",") == Join(Hex4s(Kept(i2)), ",") <==> Kept(i1) == Kept(i2)
  {
    if Join(Hex4s(Kept(i1)), ",") == Join(Hex4s(Kept(i2)), ",") {
      hide FlatMap;
      SortedHexFour(Kept(i1));
      SortedHexFour(Kept(i2));
      JoinInjective(Hex4s(Kept(i1)), Hex4s(Kept(i2)));
      UnhexAll(Kept(i1));
      UnhexAll(Kept(i2));
    }
  }

  // ---- A server's side ----

  function Body(version: u16, random: bytes, sid: bytes, cipher: u16, compression: byte, exts: seq<frame>): bytes
    requires |sid| < 0x100
  {
    PutU16(version) + random + [|sid|] + sid + PutU16(cipher) + [compression]
      + PutU16(|Concat(exts)|) + Concat(exts)
  }

  function KeyShareEntry(pub: bytes): bytes {
    PutU16(GROUP_X25519) + PutU16(|pub|) + pub
  }

  lemma KeyShareReads(pub: bytes)
    requires |pub| < 0x1_0000
    ensures KeyShare(KeyShareEntry(pub)) == Ok(pub)
  {
    var d := KeyShareEntry(pub);
    PutGetU16(|pub|);
    PutGetU16(GROUP_X25519);
    hide PutU16;
    assert U16At(d, 0) == U16At(PutU16(GROUP_X25519), 0);
    assert U16At(d, 2) == U16At(PutU16(|pub|), 0);
    assert d[4..4 + |pub|] == pub;
  }

  lemma {:induction false} OneShare(pre: seq<frame>, share: frame, post: seq<frame>, pub: bytes, found: Option<bytes>)
    requires EXT_KEY_SHARE !in Types(pre) && EXT_KEY_SHARE !in Types(post)
    requires ExtType(share) == EXT_KEY_SHARE && KeyShare(Data(share)) == Ok(pub)
    ensures KeyShares(pre + [share] + post, found) == Ok(Copied(pub))
    decreases pre
  {
    hide KeyShare, ExtType, FlatMap;
    var fs := pre + [share] + post;
    if pre == [] {
      assert fs[0] == share && fs[1..] == post;
      NoShare(post, Copied(pub));
    } else {
      assert fs[0] == pre[0] && fs[1..] == pre[1..] + [share] + post;
      assert pre == [pre[0]] + pre[1..];
      TypesStep(pre[0], pre[1..]);
      assert ExtType(pre[0]) in Types(pre);
      OneShare(pre[1..], share, post, pub, found);
    }
  }

  lemma {:induction false} NoShare(fs: seq<frame>, found: Option<bytes>)
    requires EXT_KEY_SHARE !in Types(fs)
    ensures KeyShares(fs, found) == Ok(found)
  {
    hide KeyShare, ExtType, FlatMap;
    if fs != [] {
      assert fs == [fs[0]] + fs[1..];
      TypesStep(fs[0], fs[1..]);
      assert ExtType(fs[0]) in Types(fs);
      NoShare(fs[1..], found);
    }
  }

  lemma BodyLayout(version: u16, random: bytes, sid: bytes, cipher: u16, compression: byte, exts: seq<frame>)
    requires |random| == 32 && |sid| < 0x100 && |Concat(exts)| < 0x1_0000
    ensures var b := Body(version, random, sid, cipher, compression, exts);
            var c := 35 + |sid|;
            && |b| == c + 5 + |Concat(exts)| && b[2..34] == random && b[34] == |sid|
            && U16At(b, c) == cipher && U16At(b, c + 3) == |Concat(exts)|
            && b[c + 5..c + 5 + |Concat(exts)|] == Concat(exts)
  {
    var b := Body(version, random, sid, cipher, compression, exts);
    var c := 35 + |sid|;
    PutGetU16(cipher);
    PutGetU16(|Concat(exts)|);
    hide PutU16, Concat;
    assert U16At(b, c) == U16At(PutU16(cipher), 0);
    assert U16At(b, c + 3) == U16At(PutU16(|Concat(exts)|), 0);
  }

  /** Parsing a message that was laid out field by field comes down to its key shares. */
  lemma ParseLaidOut(version: u16, random: bytes, sid: bytes, cipher: u16, compression: byte,
                     exts: seq<frame>, tail: bytes)
    requires |random| == 32 && |sid| < 0x100 && AreFrames(Extension, exts) && |Concat(exts)| < 0x1_0000
    ensures var msg := Msg(HS_SERVER_HELLO, Body(version, random, sid, cipher, compression, exts));
            Parse(msg + tail)
            == match KeyShares(exts, None)
               case Err(e) => Err(e)
               case Ok(k) =>
                 if random != HRR_RANDOM && k == None then Err(MissingKeyShare)
                 else Ok(Parsed(random, cipher, k, random == HRR_RANDOM, msg))
  {
    hide Walk, Rest, KeyShares, Body, Concat, IsFrame, U16At, U24At, Msg;
    BodyLayout(version, random, sid, cipher, compression, exts);
    WalkConcat(Extension, exts);
    MsgReads(Body(version, random, sid, cipher, compression, exts), tail);
  }

  /** A ServerHello with one x25519 key share is parsed back, same random, cipher and public key, whatever
      the session id, compression byte, other extensions and trailing bytes: exactly when the key is not
      empty or the random is that of a HelloRetryRequest. */
  lemma ParseServer(version: u16, random: bytes, sid: bytes, cipher: u16, compression: byte,
                    pre: seq<frame>, pub: bytes, post: seq<frame>, tail: bytes)
    requires |random| == 32 && |sid| < 0x100 && |pub| + 4 < 0x1_0000
    requires AreFrames(Extension, pre) && AreFrames(Extension, post)
    requires EXT_KEY_SHARE !in Types(pre) && EXT_KEY_SHARE !in Types(post)
    requires |Concat(pre + [Ext(EXT_KEY_SHARE, KeyShareEntry(pub))] + post)| < 0x1_0000
    ensures var exts := pre + [Ext(EXT_KEY_SHARE, KeyShareEntry(pub))] + post;
            var msg := Msg(HS_SERVER_HELLO, Body(version, random, sid, cipher, compression, exts));
            Parse(msg + tail)
            == if pub != [] || random == HRR_RANDOM
               then Ok(Parsed(random, cipher, Copied(pub), random == HRR_RANDOM, msg))
               else Err(MissingKeyShare)
  {
    hide *;
    var share := Ext(EXT_KEY_SHARE, KeyShareEntry(pub));
    EntryLength(pub);
    ExtFields(EXT_KEY_SHARE, KeyShareEntry(pub));
    KeyShareReads(pub);
    OneShare(pre, share, post, pub, None);
    FramesAround(pre, share, post);
    CopiedIs(pub);
    ParseLaidOut(version, random, sid, cipher, compression, pre + [share] + post, tail);
  }

  lemma FramesAround(pre: seq<frame>, share: frame, post: seq<frame>)
    requires AreFrames(Extension, pre) && IsFrame(Extension, share) && AreFrames(Extension, post)
    ensures AreFrames(Extension, pre + [share] + post)
  {
    hide IsFrame;
  }

  lemma CopiedIs(pub: bytes)
    ensures Copied(pub) == if pub == [] then None else Some(pub)
  {
  }

  /** A key_share the parser puts up with: group, length and key in bounds, and the group x25519. */
  predicate IsUsableShare(f: frame) {
    |Data(f)| >= 4 && U16At(Data(f), 0) == GROUP_X25519 && 4 + U16At(Data(f), 2) <= |Data(f)|
  }

  lemma {:induction false} SharesUsable(fs: seq<frame>, found: Option<bytes>)
    ensures KeyShares(fs, found).Ok? <==>
              forall i :: 0 <= i < |fs| && ExtType(fs[i]) == EXT_KEY_SHARE ==> IsUsableShare(fs[i])
    decreases fs
  {
    hide ExtType, U16At;
    if fs != [] {
      assert forall i :: 0 < i < |fs| ==> fs[i] == fs[1..][i - 1];
      assert forall i :: 0 <= i < |fs[1..]| ==> fs[1..][i] == fs[i + 1];
      if ExtType(fs[0]) != EXT_KEY_SHARE {
        SharesUsable(fs[1..], found);
      } else if KeyShare(Data(fs[0])).Ok? {
        SharesUsable(fs[1..], Copied(KeyShare(Data(fs[0])).value));
      }
    }
  }

  /** A HelloRetryRequest is reported as one exactly when every key_share in it is one of a ServerHello. */
  lemma ParseRetry(version: u16, sid: bytes, cipher: u16, compression: byte, exts: seq<frame>, tail: bytes)
    requires |sid| < 0x100 && AreFrames(Extension, exts) && |Concat(exts)| < 0x1_0000
    ensures var r := Parse(Msg(HS_SERVER_HELLO, Body(version, HRR_RANDOM, sid, cipher, compression, exts)) + tail);
            && (r.Ok? <==> forall i :: 0 <= i < |exts| && ExtType(exts[i]) == EXT_KEY_SHARE ==> IsUsableShare(exts[i]))
            && (r.Ok? ==> r.value.helloRetryRequest && r.value.cipherSuite == cipher)
  {
    hide KeyShares, Body, Concat, IsFrame, IsUsableShare, ExtType, Parse, Msg;
    ParseLaidOut(version, HRR_RANDOM, sid, cipher, compression, exts, tail);
    SharesUsable(exts, None);
  }

  /** The key_share of a conforming HelloRetryRequest is the selected group alone (section 4.2.8 of RFC 8446),
      so a conforming retry that has one is refused, whatever else is in it. */
  lemma ConformingRetryIsRefused(version: u16, sid: bytes, cipher: u16, compression: byte,
                                 pre: seq<frame>, group: u16, post: seq<frame>, tail: bytes)
    requires |sid| < 0x100 && AreFrames(Extension, pre) && AreFrames(Extension, post)
    requires |Concat(pre + [Ext(EXT_KEY_SHARE, PutU16(group))] + post)| < 0x1_0000
    ensures var exts := pre + [Ext(EXT_KEY_SHARE, PutU16(group))] + post;
            Parse(Msg(HS_SERVER_HELLO, Body(version, HRR_RANDOM, sid, cipher, compression, exts)) + tail).Err?
  {
    hide Walk, Rest, KeyShares, Body, Concat, IsFrame, ExtType, Ext, Data, Parse, PutU16;
    var share := Ext(EXT_KEY_SHARE, PutU16(group));
    var exts := pre + [share] + post;
    ExtFields(EXT_KEY_SHARE, PutU16(group));
    assert exts[|pre|] == share && !IsUsableShare(share);
    assert AreFrames(Extension, exts);
    ParseRetry(version, sid, cipher, compression, exts, tail);
  }

  /** Octets behind the last whole extension are ignored when they are fewer than a header, and refused when
      they are a header with too little behind it. */
  lemma LeftoverDecides(exts: seq<frame>, leftover: bytes)
    requires AreFrames(Extension, exts) && KeyShares(exts, None).Ok? && !Complete(Extension, leftover)
    ensures ScanShares(Concat(exts) + leftover, None)
         == if |leftover| < 4 then KeyShares(exts, None) else Err(ExtensionLengthOverflow)
  {
    WalkConcat(Extension, exts);
    WalkAppend(Extension, Concat(exts), leftover);
    WalkUnfolds(Extension, leftover);
    assert Walk(Extension, leftover) == [];
    hide Walk, Rest, KeyShares, Complete;
    assert [] + leftover == leftover && exts + [] == exts;
  }

  /** The extension reader recovers exactly the extensions a server wrote, whatever stands behind them. */
  lemma ExtensionsRead(version: u16, random: bytes, sid: bytes, cipher: u16, compression: byte,
                       exts: seq<frame>, tail: bytes)
    requires |random| == 32 && |sid| < 0x100 && |Concat(exts)| < 0x1_0000 && AreFrames(Extension, exts)
    ensures var body := Body(version, random, sid, cipher, compression, exts);
            && Extensions(body + tail) == Some(Concat(exts))
            && Walk(Extension, Concat(exts)) == exts
            && forall n :: 0 <= n < |body| ==> Extensions(body[..n]) == None
  {
    hide Walk, Rest, Concat, Body;
    BodyLayout(version, random, sid, cipher, compression, exts);
    WalkConcat(Extension, exts);
    var body := Body(version, random, sid, cipher, compression, exts);
    var c := 35 + |sid|;
    assert U16At(body + tail, c + 3) == U16At(body, c + 3);
    assert (body + tail)[c + 5..c + 5 + |Concat(exts)|] == Concat(exts);
    forall n | 0 <= n < |body|
      ensures Extensions(body[..n]) == None
    {
      if n >= c + 5 {
        assert U16At(body[..n], c + 3) == U16At(body, c + 3);
      }
    }
  }

  lemma EntryLength(pub: bytes)
    ensures |KeyShareEntry(pub)| == 4 + |pub|
  {
  }

  lemma MsgReads(body: bytes, tail: bytes)
    requires |body| < 0x100_0000
    ensures var m := Msg(HS_SERVER_HELLO, body) + tail;
            && |m| == 4 + |body| + |tail| && m[0] == HS_SERVER_HELLO && U24At(m, 1) == |body|
            && m[4..4 + |body|] == body && m[..4 + |body|] == Msg(HS_SERVER_HELLO, body)
  {
    var msg := Msg(HS_SERVER_HELLO, body);
    MsgFields(HS_SERVER_HELLO, body);
    hide PutU24;
    var m := msg + tail;
    assert m[..4 + |body|] == msg;
    assert U24At(m, 1) == U24At(msg, 1);
    assert m[4..4 + |body|] == msg[4..];
  }
}
