/** The JA4 client fingerprint: a ClientHello body is parsed with cursors, and the parts are counted,
    sorted, hashed and joined. SHA-256 truncated to 12 hex digits is a parameter. */
module Ja4 {
  import opened Bytes
  import opened Frames
  import opened Lists
  import opened Outcomes
  import opened Text

  const EXT_SERVER_NAME: u16 := 0x0000
  const EXT_SIGNATURE_ALGORITHMS: u16 := 0x000d
  const EXT_ALPN: u16 := 0x0010
  const EXT_SUPPORTED_VERSIONS: u16 := 0x002b

  /** GREASE code points (section 2 of RFC 8701). */
  predicate IsGrease(v: u16) {
    var low, high := v % 0x100, v / 0x100;
    low % 0x10 == 0x0a && low == high
  }

  function VersionString(v: u16): string {
    if v == 0x0304 then "13"
    else if v == 0x0303 then "12"
    else if v == 0x0302 then "11"
    else if v == 0x0301 then "10"
    else if v == 0x0300 then "s3"
    else if v == 0x0200 then "s2"
    else "00"
  }

  /** A Go conversion of one octet to a string: the UTF-8 form of the code point, two octets from 0x80 on. */
  function OctetString(c: char): (s: string)
    ensures 1 <= |s| <= 2
  {
    if c < 0x80 as char then [c] else [(0xC0 + c as int / 0x40 % 4) as char, (0x80 + c as int % 0x40) as char]
  }

  function AlpnComponent(alpn: string): string {
    if alpn == "" then "00"
    else if alpn == "h2" then "h2"
    else if alpn == "h3" then "h3"
    else if alpn == "http/1.1" then "h1"
    else if alpn == "http/1.0" then "h0"
    else if |alpn| == 1 then OctetString(alpn[0]) + OctetString(alpn[0])
    else OctetString(alpn[0]) + OctetString(alpn[|alpn| - 1])
  }

  const DIGITS := "0123456789abcdef"

  function TwoDigit(n: nat): string {
    var m := if n > 99 then 99 else n;
    [DIGITS[m / 10], DIGITS[m % 10]]
  }

  function Hex4(v: u16): (s: string)
    ensures |s| == 4
  {
    [DIGITS[v / 0x1000], DIGITS[v / 0x100 % 0x10], DIGITS[v / 0x10 % 0x10], DIGITS[v % 0x10]]
  }

  function HexOne(v: u16): seq<string> { [Hex4(v)] }

  function Hex4s(vs: seq<u16>): seq<string> {
    FlatMap(HexOne, vs)
  }

  // ---- Fields of a ClientHello body ----

  /** Two-byte values; a trailing odd byte is not read. */
  function U16s(b: bytes): seq<u16> {
    if |b| < 2 then [] else [U16At(b, 0)] + U16s(b[2..])
  }

  function Min(a: nat, b: nat): nat {
    if a < b then a else b
  }

  /** Signature schemes in a signature_algorithms extension. */
  function SigAlgs(data: bytes): seq<u16> {
    if |data| < 2 then [] else U16s(data[2..Min(2 + U16At(data, 0), |data|)])
  }

  /** Versions in a supported_versions extension. */
  function Versions(data: bytes): seq<u16> {
    if |data| < 3 then [] else U16s(data[1..Min(1 + data[0] as int, |data|)])
  }

  /** The first protocol of an ALPN extension, when it is there. */
  function FirstProtocol(data: bytes): Option<string> {
    if |data| > 3 && 3 + data[2] as int <= |data| then Some(Str(data[3..3 + data[2]])) else None
  }

  function MaxOf(vs: seq<u16>, v: u16): u16 {
    if vs == [] then v else MaxOf(vs[1..], if vs[0] > v then vs[0] else v)
  }

  function KeepOne(v: u16): seq<u16> { if IsGrease(v) then [] else [v] }

  /** The values that are not GREASE, in order. */
  function Kept(vs: seq<u16>): seq<u16> {
    FlatMap(KeepOne, vs)
  }

  /** What the extension loop accumulates. */
  datatype Scan = Scan(ids: seq<u16>, sigAlgs: seq<u16>, alpn: string, hasSni: bool, version: u16)

  function ScanOne(f: frame, s: Scan): Scan {
    var t, data := ExtType(f), Data(f);
    var s1 := if IsGrease(t) then s else s.(ids := s.ids + [t]);
    if t == EXT_SERVER_NAME then s1.(hasSni := true)
    else if t == EXT_SIGNATURE_ALGORITHMS then s1.(sigAlgs := s1.sigAlgs + SigAlgs(data))
    else if t == EXT_ALPN then s1.(alpn := match FirstProtocol(data) case Some(p) => p case None => s1.alpn)
    else if t == EXT_SUPPORTED_VERSIONS then s1.(version := MaxOf(Versions(data), s1.version))
    else s1
  }

  function ScanAll(fs: seq<frame>, s: Scan): Scan {
    if fs == [] then s else ScanAll(fs[1..], ScanOne(fs[0], s))
  }

  function HashOne(id: u16): seq<u16> {
    if id == EXT_SERVER_NAME || id == EXT_ALPN then [] else [id]
  }

  /** server_name and ALPN are counted but not hashed. */
  function Hashable(ids: seq<u16>): seq<u16> {
    FlatMap(HashOne, ids)
  }

  /** Input of the cipher hash. */
  function CipherInput(kept: seq<u16>): string {
    Join(SortStrings(Hex4s(kept)), ",")
  }

  /** Input of the extension hash. */
  function ExtensionInput(ids: seq<u16>, sigAlgs: seq<u16>): string {
    Join(SortStrings(Hex4s(Hashable(ids))), ",")
      + (if sigAlgs == [] then "" else "_" + Join(Hex4s(sigAlgs), ","))
  }

  function Prefix(ciphers: nat, s: Scan): string {
    "t" + VersionString(s.version) + (if s.hasSni then "d" else "i")
      + TwoDigit(ciphers) + TwoDigit(|s.ids|) + AlpnComponent(s.alpn)
  }

  /** The fingerprint of a version, a cipher list and an extension list. */
  function Fingerprint(sha: string -> string, version: u16, ciphers: seq<u16>, exts: seq<frame>): string {
    var kept := Kept(ciphers);
    var s := ScanAll(exts, Scan([], [], "", false, version));
    Prefix(|kept|, s) + "_" + sha(CipherInput(kept)) + "_" + sha(ExtensionInput(s.ids, s.sigAlgs))
  }

  datatype HelloView = HelloView(version: u16, ciphers: bytes, exts: bytes)

  /** Where the parser finds the cipher list and the extensions; None when it gives up. */
  function View(body: bytes): Option<HelloView> {
    if |body| < 38 then None
    else
      var c := 37 + body[34] as int;
      if c > |body| then None
      else
        var cEnd := c + U16At(body, c - 2);
        if cEnd + 1 > |body| then None
        else
          var e := cEnd + 1 + body[cEnd] as int + 2;
          if e > |body| then None
          else
            var eEnd := e + U16At(body, e - 2);
            if eEnd > |body| then None
            else Some(HelloView(U16At(body, 0), body[c..cEnd], body[e..eEnd]))
  }

  // ---- The loops of the parser ----

  /** One turn of a two-byte loop. */
  lemma U16sStep(data: bytes, j: nat, to: nat)
    requires j <= to <= |data|
    ensures U16s(data[j..to]) == if j + 2 <= to then [U16At(data, j)] + U16s(data[j + 2..to]) else []
  {
    if j + 2 <= to {
      assert data[j..to][2..] == data[j + 2..to];
      assert U16At(data[j..to], 0) == U16At(data, j);
    }
  }

  lemma KeptOfNone()
    ensures Kept([]) == []
  {
  }

  lemma KeptStep(c: u16, later: seq<u16>)
    ensures Kept([c] + later) == KeepOne(c) + Kept(later)
  {
    assert ([c] + later)[1..] == later;
  }

  lemma MaxStep(c: u16, later: seq<u16>, v: u16)
    ensures MaxOf([c] + later, v) == MaxOf(later, if c > v then c else v)
  {
    assert ([c] + later)[1..] == later;
  }

  method ReadU16s(data: bytes, from: nat, to: nat) returns (vs: seq<u16>)
    requires from <= to <= |data|
    ensures vs == U16s(data[from..to])
  {
    hide U16s;
    vs := [];
    var j := from;
    while j + 2 <= to
      invariant from <= j <= to
      invariant U16s(data[from..to]) == vs + U16s(data[j..to])
    {
      U16sStep(data, j, to);
      vs := vs + [U16At(data, j)];
      j := j + 2;
    }
    U16sStep(data, j, to);
    assert vs + [] == vs;
  }

  method ReadCiphers(body: bytes, from: nat, to: nat) returns (ciphers: seq<u16>)
    requires from <= to <= |body|
    ensures ciphers == Kept(U16s(body[from..to]))
  {
    hide IsGrease, Kept, U16s, U16At, FlatMap;
    KeptOfNone();
    ciphers := [];
    var i := from;
    while i + 2 <= to
      invariant from <= i <= to
      invariant Kept(U16s(body[from..to])) == ciphers + Kept(U16s(body[i..to]))
    {
      U16sStep(body, i, to);
      var c := U16At(body, i);
      ghost var rest := Kept(U16s(body[i + 2..to]));
      KeptStep(c, U16s(body[i + 2..to]));
      if !IsGrease(c) {
        assert ciphers + ([c] + rest) == (ciphers + [c]) + rest;
        ciphers := ciphers + [c];
      } else {
        assert [] + rest == rest;
      }
      i := i + 2;
    }
    U16sStep(body, i, to);
    assert ciphers + [] == ciphers;
  }

  method MaxVersion(data: bytes, v0: u16) returns (v: u16)
    ensures v == MaxOf(Versions(data), v0)
  {
    hide U16s;
    v := v0;
    if |data| >= 3 {
      var to := Min(1 + data[0] as int, |data|);
      var j := 1;
      while j + 2 <= to
        invariant 1 <= j <= to
        invariant MaxOf(Versions(data), v0) == MaxOf(U16s(data[j..to]), v)
      {
        U16sStep(data, j, to);
        MaxStep(U16At(data, j), U16s(data[j + 2..to]), v);
        if U16At(data, j) > v {
          v := U16At(data, j);
        }
        j := j + 2;
      }
      U16sStep(data, j, to);
    }
  }

  method ScanExtensions(ext: bytes, start: Scan) returns (s: Scan)
    ensures s == ScanAll(Walk(Extension, ext), start)
  {
    hide Walk, Rest, SigAlgs, Versions, IsGrease;
    var ids, sigAlgs, alpn, hasSni, version := start.ids, start.sigAlgs, start.alpn, start.hasSni, start.version;
    var i := 0;
    assert ext[0..] == ext;
    while i + 4 <= |ext|
      invariant 0 <= i <= |ext|
      invariant ScanAll(Walk(Extension, ext), start)
             == ScanAll(Walk(Extension, ext[i..]), Scan(ids, sigAlgs, alpn, hasSni, version))
    {
      WalkAt(Extension, ext, i);
      var extType := U16At(ext, i);
      var end := i + 4 + U16At(ext, i + 2);
      if end > |ext| {
        break;
      }
      ghost var f: frame := ext[i..end];
      ghost var before := Scan(ids, sigAlgs, alpn, hasSni, version);
      ghost var later := Walk(Extension, ext[end..]);
      assert ([f] + later)[1..] == later;
      var data := ext[i + 4..end];
      assert ExtType(f) == extType && Data(f) == data;
      if !IsGrease(extType) {
        ids := ids + [extType];
      }
      if extType == EXT_SERVER_NAME {
        hasSni := true;
      } else if extType == EXT_SIGNATURE_ALGORITHMS {
        var algs := ReadSigAlgs(data);
        sigAlgs := sigAlgs + algs;
      } else if extType == EXT_ALPN {
        if |data| > 3 {
          var plen := data[2];
          if 3 + plen as int <= |data| {
            alpn := Str(data[3..3 + plen]);
          }
        }
      } else if extType == EXT_SUPPORTED_VERSIONS {
        version := MaxVersion(data, version);
      }
      assert Scan(ids, sigAlgs, alpn, hasSni, version) == ScanOne(f, before);
      i := end;
    }
    WalkAt(Extension, ext, i);
    s := Scan(ids, sigAlgs, alpn, hasSni, version);
  }

  method ReadSigAlgs(data: bytes) returns (algs: seq<u16>)
    ensures algs == SigAlgs(data)
  {
    algs := [];
    if |data| >= 2 {
      algs := ReadU16s(data, 2, Min(2 + U16At(data, 0), |data|));
    }
  }

  method FilterHashable(ids: seq<u16>) returns (out: seq<u16>)
    ensures out == Hashable(ids)
  {
    hide FlatMap;
    out := [];
    assert ids[0..] == ids;
    for i := 0 to |ids|
      invariant Hashable(ids) == out + FlatMap(HashOne, ids[i..])
    {
      FlatMapStep(HashOne, ids, i);
      ghost var rest := FlatMap(HashOne, ids[i + 1..]);
      if ids[i] == EXT_SERVER_NAME || ids[i] == EXT_ALPN {
        assert [] + rest == rest;
        continue;
      }
      assert out + ([ids[i]] + rest) == (out + [ids[i]]) + rest;
      out := out + [ids[i]];
    }
    FlatMapStep(HashOne, ids, |ids|);
    assert out + [] == out;
  }

  method FormatHex(vs: seq<u16>) returns (strs: seq<string>)
    ensures strs == Hex4s(vs)
  {
    hide FlatMap;
    strs := [];
    assert vs[0..] == vs;
    for i := 0 to |vs|
      invariant Hex4s(vs) == strs + FlatMap(HexOne, vs[i..])
    {
      FlatMapStep(HexOne, vs, i);
      assert strs + ([Hex4(vs[i])] + FlatMap(HexOne, vs[i + 1..]))
          == (strs + [Hex4(vs[i])]) + FlatMap(HexOne, vs[i + 1..]);
      strs := strs + [Hex4(vs[i])];
    }
    FlatMapStep(HexOne, vs, |vs|);
    assert strs + [] == strs;
  }

  /** The fingerprint of a ClientHello body; empty when it cannot be parsed. */
  function Ja4Of(sha: string -> string, body: bytes): string {
    match View(body)
    case None => ""
    case Some(v) => Fingerprint(sha, v.version, U16s(v.ciphers), Walk(Extension, v.exts))
  }

  method ComputeFromClientHello(sha: string -> string, body: bytes) returns (r: string)
    ensures r == Ja4Of(sha, body)
  {
    hide Walk, SortStrings, Join, Kept, ScanAll, U16s, U16At, Hashable, Prefix, Hex4s;
    if |body| < 38 {
      return "";
    }
    var tlsVer := U16At(body, 0);
    var off := 35 + body[34] as int;
    if off + 2 > |body| {
      return "";
    }
    var cipherListLen := U16At(body, off);
    off := off + 2;
    var cipherListEnd := off + cipherListLen;
    if cipherListEnd > |body| {
      return "";
    }
    var ciphers := ReadCiphers(body, off, cipherListEnd);
    off := cipherListEnd;
    if off + 1 > |body| {
      return "";
    }
    off := off + 1 + body[off] as int;
    if off + 2 > |body| {
      return "";
    }
    var extLen := U16At(body, off);
    off := off + 2;
    if off + extLen > |body| {
      return "";
    }
    var s := ScanExtensions(body[off..off + extLen], Scan([], [], "", false, tlsVer));
    var a := Prefix(|ciphers|, s);
    var cipherStrs := FormatHex(ciphers);
    var b := sha(Join(SortStrings(cipherStrs), ","));
    var filtered := FilterHashable(s.ids);
    var extStrs := FormatHex(filtered);
    var sigStrs := FormatHex(s.sigAlgs);
    var cInput := Join(SortStrings(extStrs), ",");
    Hex4sSize(s.sigAlgs);
    if |sigStrs| > 0 {
      cInput := cInput + ("_" + Join(sigStrs, ","));
    } else {
      assert cInput + "" == cInput;
    }
    r := a + "_" + b + "_" + sha(cInput);
  }

  lemma Hex4sSize(vs: seq<u16>)
    ensures |Hex4s(vs)| == |vs| && forall i :: 0 <= i < |vs| ==> Hex4s(vs)[i] == Hex4(vs[i])
  {
    FlatMapSingletons(HexOne, vs);
  }
}
