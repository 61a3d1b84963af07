/** The SSH side of the banner probe: the binary packet (section 6 of RFC 4253), the KEXINIT message
    (section 7.1), and the comma-separated lists inside it. */
module Ssh {
  import opened Bytes
  import opened Connection
  import opened Lists
  import opened Outcomes
  import opened Text

  // ---- Name-lists ----

  /** The non-empty parts, trimmed, in order. */
  function Kept(parts: seq<string>): seq<string> {
    if parts == [] then []
    else
      var t := TrimSpace(parts[0]);
      if t == "" then Kept(parts[1..]) else [t] + Kept(parts[1..])
  }

  function Names(s: string): seq<string> {
    if s == "" then [] else Kept(Split(s, ','))
  }

  lemma KeptStep(parts: seq<string>, i: nat)
    requires i <= |parts|
    ensures Kept(parts[i..])
         == if i == |parts| then []
            else if TrimSpace(parts[i]) == "" then Kept(parts[i + 1..])
            else [TrimSpace(parts[i])] + Kept(parts[i + 1..])
  {
    if i < |parts| {
      assert parts[i..][1..] == parts[i + 1..];
    }
  }

  /** The filter writes into the array it reads: the write index never overtakes the read index. */
  method FilterInPlace(parts: array<string>) returns (kept: nat)
    modifies parts
    ensures kept <= parts.Length && parts[..kept] == Kept(old(parts[..]))
  {
    hide Kept, TrimSpace;
    ghost var was := parts[..];
    ghost var out: seq<string> := [];
    kept := 0;
    assert was[0..] == was;
    for i := 0 to parts.Length
      invariant kept <= i && out == parts[..kept]
      invariant forall j :: i <= j < parts.Length ==> parts[j] == was[j]
      invariant out + Kept(was[i..]) == Kept(was)
    {
      KeptStep(was, i);
      var p := TrimSpace(parts[i]);
      if p != "" {
        parts[kept] := p;
        kept := kept + 1;
        assert out + ([p] + Kept(was[i + 1..])) == (out + [p]) + Kept(was[i + 1..]);
        out := out + [p];
      }
    }
    KeptStep(was, |was|);
    assert out + [] == out;
  }

  method SplitCsv(s: string) returns (names: seq<string>)
    ensures names == Names(s)
  {
    if s == "" {
      return [];
    }
    var split := Split(s, ',');
    var parts := new string[|split|](i requires 0 <= i < |split| => split[i]);
    assert parts[..] == split;
    var kept := FilterInPlace(parts);
    names := parts[..kept];
  }

  /** A name as RFC 4251 wants it: ASCII, not empty, no comma and no white space. */
  predicate IsToken(t: string) {
    t != "" && forall c :: c in t ==> c as int < 0x80 && c != ',' && !IsSpace(c)
  }

  lemma TokenIsTrimmed(t: string)
    requires IsToken(t)
    ensures TrimSpace(t) == t && ',' !in t
  {
    assert t[0] in t && t[|t| - 1] in t;
  }

  lemma {:induction false} TokensAreKept(tokens: seq<string>)
    requires forall t :: t in tokens ==> IsToken(t)
    ensures Kept(tokens) == tokens
  {
    if tokens != [] {
      TokenIsTrimmed(tokens[0]);
      TokensAreKept(tokens[1..]);
    }
  }

  /** Splitting undoes joining for every list of tokens, the empty one included. */
  lemma NamesOfJoin(tokens: seq<string>)
    requires forall t :: t in tokens ==> IsToken(t)
    ensures Names(Join(tokens, ",")) == tokens
  {
    if tokens != [] {
      forall i | 0 <= i < |tokens|
        ensures ',' !in tokens[i]
      {
        TokenIsTrimmed(tokens[i]);
      }
      SplitJoin(tokens, ',');
      TokensAreKept(tokens);
      JoinNotEmpty(tokens);
    }
  }

  lemma JoinNotEmpty(tokens: seq<string>)
    requires tokens != [] && forall t :: t in tokens ==> IsToken(t)
    ensures Join(tokens, ",") != ""
  {
    assert IsToken(tokens[0]);
  }

  lemma {:induction false} JoinIsOctets(tokens: seq<string>)
    requires forall t :: t in tokens ==> IsToken(t)
    ensures IsOctets(Join(tokens, ","))
  {
    if tokens != [] {
      assert IsToken(tokens[0]);
      assert forall i :: 0 <= i < |tokens[0]| ==> tokens[0][i] in tokens[0];
      JoinIsOctets(tokens[1..]);
    }
  }

  // ---- KEXINIT ----

  const KEXINIT: byte := 20
  const LISTS := 10

  function NameList(s: string): bytes {
    PutU32(|s|) + Octets(s)
  }

  function NameLists(lists: seq<string>): bytes {
    if lists == [] then [] else NameList(lists[0]) + NameLists(lists[1..])
  }

  function Payload(cookie: bytes, lists: seq<string>): bytes {
    [KEXINIT] + cookie + NameLists(lists) + [0, 0, 0, 0, 0]
  }

  /** Padding to a multiple of 8 with at least 4 octets. */
  function PadLen(payload: nat): (pad: nat)
    ensures 4 <= pad <= 11 && (5 + payload + pad) % 8 == 0
  {
    var pad := 8 - (5 + payload) % 8;
    if pad < 4 then pad + 8 else pad
  }

  function Packet(payload: bytes): bytes {
    var pad := PadLen(|payload|);
    PutU32(1 + |payload| + pad) + [pad] + payload + Zeros(pad)
  }

  lemma {:induction false} NameListsAppend(lists: seq<string>, s: string)
    ensures NameLists(lists + [s]) == NameLists(lists) + NameList(s)
  {
    hide NameList;
    if lists == [] {
      assert lists + [s] == [s] && [s][1..] == [];
    } else {
      assert (lists + [s])[1..] == lists[1..] + [s];
      NameListsAppend(lists[1..], s);
    }
  }

  method BuildPayload(cookie: bytes, lists: seq<string>) returns (payload: bytes)
    ensures payload == Payload(cookie, lists)
  {
    assert NameLists([]) == [];
    hide NameLists, PutU32;
    payload := [KEXINIT];
    payload := payload + cookie;
    for i := 0 to |lists|
      invariant payload == [KEXINIT] + cookie + NameLists(lists[..i])
    {
      assert lists[..i + 1] == lists[..i] + [lists[i]];
      NameListsAppend(lists[..i], lists[i]);
      var b := Octets(lists[i]);
      payload := payload + (PutU32(|b|) + b);
    }
    assert lists[..|lists|] == lists;
    payload := payload + [0, 0, 0, 0, 0];
  }

  method BuildKexInit(cookie: bytes, lists: seq<string>) returns (packet: bytes)
    requires |cookie| == 16 && |lists| == LISTS
    ensures packet == Packet(Payload(cookie, lists))
  {
    hide PutU32, Payload;
    var payload := BuildPayload(cookie, lists);
    var pad := 8 - (4 + 1 + |payload|) % 8;
    if pad < 4 {
      pad := pad + 8;
    }
    var padding := Zeros(pad);
    packet := PutU32(1 + |payload| + pad);
    packet := packet + [pad];
    packet := packet + payload;
    packet := packet + padding;
  }

  /** Section 6 of RFC 4253: whole blocks of 8 octets. */
  lemma PacketIsAligned(payload: bytes)
    ensures |Packet(payload)| % 8 == 0
    ensures 4 <= Packet(payload)[4] <= 11
    ensures |Packet(payload)| == 5 + |payload| + Packet(payload)[4] as int
  {
    hide PutU32;
  }

  /** The four octets of a number, the highest one first. */
  function FourOctets(v: nat): bytes {
    [v / 0x100_0000 % 0x100, v / 0x1_0000 % 0x100, v / 0x100 % 0x100, v % 0x100]
  }

  lemma FourOctetsAre(v: nat)
    ensures PutU32(v) == FourOctets(v)
  {
    assert v / 0x1_0000 / 0x100 == v / 0x100_0000;
  }

  /** The packet octet by octet: the length of all that follows it, the padding length, the payload and zeros.
      A name-list is its length and its octets. */
  lemma PacketOctets(payload: bytes, s: string)
    ensures exists pad: byte ::
              && Packet(payload) == FourOctets(1 + |payload| + pad as int) + [pad] + payload + Zeros(pad)
              && 4 <= pad <= 11
    ensures NameList(s) == FourOctets(|s|) + Octets(s)
  {
    var pad: byte := PadLen(|payload|);
    FourOctetsAre(1 + |payload| + pad as int);
    FourOctetsAre(|s|);
    hide PutU32, FourOctets, PadLen;
    assert Packet(payload) == FourOctets(1 + |payload| + pad as int) + [pad] + payload + Zeros(pad);
  }

  // ---- Reading a packet ----

  const MAX_PACKET := 0x4_0000

  datatype ReadError = Eof | BogusLength | PaddingTooLong

  datatype Reading = Reading(payload: Result<bytes, ReadError>, rest: bytes)

  function ReadAt(input: bytes): Reading {
    if |input| < 5 then Reading(Err(Eof), [])
    else
      var pktLen := U32At(input, 0);
      if pktLen < 1 || pktLen > MAX_PACKET then Reading(Err(BogusLength), input[5..])
      else if 4 + pktLen > |input| then Reading(Err(Eof), [])
      else if input[4] as int > pktLen - 1 then Reading(Err(PaddingTooLong), input[4 + pktLen..])
      else Reading(Ok(input[5..4 + pktLen - input[4]]), input[4 + pktLen..])
  }

  method ReadPacket(conn: Conn) returns (r: Result<bytes, ReadError>)
    modifies conn`input
    ensures Reading(r, conn.input) == ReadAt(old(conn.input))
  {
    ghost var input := conn.input;
    var header := conn.ReadFull(5);
    if header.None? {
      return Err(Eof);
    }
    var pktLen := U32At(header.value, 0);
    var padLen := header.value[4] as int;
    if pktLen < 1 || pktLen > MAX_PACKET {
      return Err(BogusLength);
    }
    var body := conn.ReadFull(pktLen - 1);
    if body.None? {
      return Err(Eof);
    }
    var rest := body.value;
    assert input[4] == header.value[4] && rest == input[5..][..pktLen - 1];
    SliceOfSlice(input, 5, |input|, 0, pktLen - 1);
    SliceOfSlice(input, 5, |input|, pktLen - 1, |input| - 5);
    assert input[5..|input|] == input[5..];
    if padLen > |rest| {
      return Err(PaddingTooLong);
    }
    SliceOfSlice(input, 5, 4 + pktLen, 0, pktLen - 1 - padLen);
    return Ok(rest[..|rest| - padLen]);
  }

  lemma PacketFields(payload: bytes, tail: bytes)
    ensures var pad := PadLen(|payload|);
            var total := 1 + |payload| + pad;
            var input := Packet(payload) + tail;
            && |input| == 4 + total + |tail|
            && U32At(input, 0) == total % 0x1_0000_0000
            && input[4] == pad
            && input[5..5 + |payload|] == payload
            && input[4 + total..] == tail
  {
    var total := 1 + |payload| + PadLen(|payload|);
    hide PutU32, PadLen;
    PutGetU32(total);
    assert U32At(Packet(payload) + tail, 0) == U32At(PutU32(total), 0);
  }

  /** A packet is read back, and nothing behind it is touched, exactly when its length field is within
      the reader's limit. */
  lemma ReadPacketBack(payload: bytes, tail: bytes)
    ensures ReadAt(Packet(payload) + tail) == Reading(Ok(payload), tail)
       <==> 1 + |payload| + PadLen(|payload|) <= 0x4_0000
  {
    PacketFields(payload, tail);
    hide PadLen, Packet, U32At;
    WrappedIsShorter(1 + |payload| + PadLen(|payload|));
  }

  lemma WrappedIsShorter(total: nat)
    ensures if total <= MAX_PACKET then total % 0x1_0000_0000 == total
            else total % 0x1_0000_0000 > MAX_PACKET || total % 0x1_0000_0000 < total
  {
  }

  // ---- Parsing KEXINIT ----

  datatype ParseError = TooShort | Truncated | Overrun

  datatype KexInfo = KexInfo(kex: seq<string>, hostKey: seq<string>, ciphersOut: seq<string>, ciphersIn: seq<string>,
                             macsOut: seq<string>, macsIn: seq<string>, compressionOut: seq<string>,
                             compressionIn: seq<string>)

  /** n consecutive name-lists at the front of p. */
  function ReadLists(p: bytes, n: nat): Result<seq<seq<string>>, ParseError>
    decreases n
  {
    if n == 0 then Ok([])
    else if |p| < 4 then Err(Truncated)
    else if U32At(p, 0) > |p| - 4 then Err(Overrun)
    else
      var end := 4 + U32At(p, 0);
      match ReadLists(p[end..], n - 1)
      case Err(e) => Err(e)
      case Ok(rest) => Ok([Names(Str(p[4..end]))] + rest)
  }

  /** Lists already read, in front of what the rest yields. */
  function Behind(lists: seq<seq<string>>, rest: Result<seq<seq<string>>, ParseError>)
    : Result<seq<seq<string>>, ParseError>
  {
    match rest
    case Err(e) => Err(e)
    case Ok(more) => Ok(lists + more)
  }

  lemma ReadListsStep(p: bytes, n: nat, lists: seq<seq<string>>)
    requires n > 0
    ensures Behind(lists, ReadLists(p, n))
         == if |p| < 4 then Err(Truncated)
            else if U32At(p, 0) > |p| - 4 then Err(Overrun)
            else Behind(lists + [Names(Str(p[4..4 + U32At(p, 0)]))], ReadLists(p[4 + U32At(p, 0)..], n - 1))
  {
    hide U32At, Names;
    if |p| >= 4 && U32At(p, 0) <= |p| - 4 {
      var end := 4 + U32At(p, 0);
      var name := Names(Str(p[4..end]));
      var rest := ReadLists(p[end..], n - 1);
      if rest.Ok? {
        assert lists + ([name] + rest.value) == (lists + [name]) + rest.value;
      }
    }
  }

  lemma {:induction false} ReadListsLength(p: bytes, n: nat)
    ensures ReadLists(p, n).Ok? ==> |ReadLists(p, n).value| == n
    decreases n
  {
    if n > 0 && |p| >= 4 && U32At(p, 0) <= |p| - 4 {
      ReadListsLength(p[4 + U32At(p, 0)..], n - 1);
    }
  }

  function FirstEight(lists: seq<seq<string>>): KexInfo
    requires |lists| == LISTS
  {
    KexInfo(lists[0], lists[1], lists[2], lists[3], lists[4], lists[5], lists[6], lists[7])
  }

  function KexInitOf(payload: bytes): Result<KexInfo, ParseError> {
    if |payload| < 16 then Err(TooShort)
    else
      ReadListsLength(payload[16..], LISTS);
      match ReadLists(payload[16..], LISTS)
      case Err(e) => Err(e)
      case Ok(lists) => Ok(FirstEight(lists))
  }

  lemma BehindUnits(lists: seq<seq<string>>, r: Result<seq<seq<string>>, ParseError>, p: bytes)
    ensures Behind([], r) == r
    ensures Behind(lists, ReadLists(p, 0)) == Ok(lists)
  {
    assert lists + [] == lists;
    if r.Ok? {
      assert [] + r.value == r.value;
    }
  }

  /** The loop over the name-lists; the slice p moves along. */
  method ReadListsLoop(start: bytes, n: nat) returns (r: Result<seq<seq<string>>, ParseError>)
    ensures r == ReadLists(start, n)
  {
    hide *;
    ghost var all := ReadLists(start, n);
    BehindUnits([], all, start);
    var p := start;
    var lists: seq<seq<string>> := [];
    for i := 0 to n
      invariant all == Behind(lists, ReadLists(p, n - i))
    {
      ReadListsStep(p, n - i, lists);
      if |p| < 4 {
        return Err(Truncated);
      }
      var l := U32At(p, 0);
      ghost var was := p;
      p := p[4..];
      if l > |p| {
        return Err(Overrun);
      }
      assert p[..l] == was[4..4 + l] && p[l..] == was[4 + l..];
      var names := SplitCsv(Str(p[..l]));
      lists := lists + [names];
      p := p[l..];
    }
    BehindUnits(lists, all, p);
    r := Ok(lists);
  }

  method ParseKexInit(payload: bytes) returns (r: Result<KexInfo, ParseError>)
    ensures r == KexInitOf(payload)
  {
    hide ReadLists;
    if |payload| < 16 {
      return Err(TooShort);
    }
    var lists := ReadListsLoop(payload[16..], LISTS);
    ReadListsLength(payload[16..], LISTS);
    match lists
    case Err(e) => r := Err(e);
    case Ok(l) => r := Ok(FirstEight(l));
  }

  // ---- The round trip ----

  function Joined(lists: seq<seq<string>>): seq<string> {
    seq(|lists|, i requires 0 <= i < |lists| => Join(lists[i], ","))
  }

  ghost predicate AreTokens(lists: seq<seq<string>>) {
    forall l, t :: l in lists && t in l ==> IsToken(t)
  }

  lemma ReadOneList(tokens: seq<string>, tail: bytes, n: nat)
    requires forall t :: t in tokens ==> IsToken(t)
    requires |Join(tokens, ",")| < 0x1_0000_0000 && n > 0
    ensures ReadLists(NameList(Join(tokens, ",")) + tail, n)
         == match ReadLists(tail, n - 1) case Err(e) => Err(e) case Ok(rest) => Ok([tokens] + rest)
  {
    hide PutU32, Join, Names;
    var s := Join(tokens, ",");
    var p := NameList(s) + tail;
    hide U32At, IsToken;
    NameListFields(s, tail);
    JoinIsOctets(tokens);
    OctetsRead(s);
    NamesOfJoin(tokens);
  }

  lemma NameListFields(s: string, tail: bytes)
    requires |s| < 0x1_0000_0000
    ensures var p := NameList(s) + tail;
            && |p| == 4 + |s| + |tail|
            && U32At(p, 0) == |s|
            && p[4..4 + |s|] == Octets(s)
            && p[4 + |s|..] == tail
  {
    hide PutU32, Octets;
    PutGetU32(|s|);
    assert U32At(NameList(s) + tail, 0) == U32At(PutU32(|s|), 0);
  }

  lemma JoinedStep(lists: seq<seq<string>>, tail: bytes)
    requires lists != []
    ensures var s := Join(lists[0], ",");
            var rest := NameLists(Joined(lists[1..]));
            && NameLists(Joined(lists)) + tail == NameList(s) + (rest + tail)
            && |NameLists(Joined(lists))| == 4 + |s| + |rest|
  {
    hide Join;
    assert Joined(lists)[1..] == Joined(lists[1..]);
  }

  lemma {:induction false} ReadNameLists(lists: seq<seq<string>>, tail: bytes)
    requires AreTokens(lists)
    requires |NameLists(Joined(lists))| < 0x1_0000_0000
    ensures ReadLists(NameLists(Joined(lists)) + tail, |lists|) == Ok(lists)
  {
    hide *;
    if lists == [] {
      ReadNothing(NameLists(Joined(lists)) + tail);
    } else {
      JoinedStep(lists, tail);
      TailIsTokens(lists);
      ReadNameLists(lists[1..], tail);
      ReadOneList(lists[0], NameLists(Joined(lists[1..])) + tail, |lists|);
      assert lists == [lists[0]] + lists[1..];
    }
  }

  lemma ReadNothing(p: bytes)
    ensures ReadLists(p, 0) == Ok([])
  {
  }

  lemma TailIsTokens(lists: seq<seq<string>>)
    requires AreTokens(lists) && lists != []
    ensures AreTokens(lists[1..]) && forall t :: t in lists[0] ==> IsToken(t)
  {
    assert forall l :: l in lists[1..] ==> l in lists;
    hide IsToken;
  }

  /** What the builder writes, the reader and the parser give back: for any ten lists of names whose
      packet is within the reader's limit, the first eight come back, name for name. */
  lemma KexInitRoundTrip(cookie: bytes, lists: seq<seq<string>>, tail: bytes)
    requires |cookie| == 16 && |lists| == 10 && AreTokens(lists)
    requires 1 + |Payload(cookie, Joined(lists))| + PadLen(|Payload(cookie, Joined(lists))|) <= 0x4_0000
    ensures var payload := Payload(cookie, Joined(lists));
            && ReadAt(Packet(payload) + tail) == Reading(Ok(payload), tail)
            && payload[0] == 20 && payload[1..17] == cookie
            && var r := KexInitOf(payload[1..]);
               && r.Ok?
               && r.value.kex == lists[0] && r.value.hostKey == lists[1]
               && r.value.ciphersOut == lists[2] && r.value.ciphersIn == lists[3]
               && r.value.macsOut == lists[4] && r.value.macsIn == lists[5]
               && r.value.compressionOut == lists[6] && r.value.compressionIn == lists[7]
  {
    var payload := Payload(cookie, Joined(lists));
    ReadPacketBack(payload, tail);
    hide Packet, ReadAt, NameLists, ReadLists;
    ReadNameLists(lists, [0, 0, 0, 0, 0]);
    assert payload[1..][16..] == NameLists(Joined(lists)) + [0, 0, 0, 0, 0];
  }
}
