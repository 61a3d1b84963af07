/** NewSessionTicket bodies (section 4.6.1 of RFC 8446) and their early_data extension. */
module NewSessionTicket {
  import opened Bytes
  import opened Frames
  import opened Outcomes

  const EXT_EARLY_DATA: u16 := 42

  datatype Ticket = Ticket(lifetime: u32, ageAdd: u32, nonce: bytes, ticket: bytes, maxEarlyData: u32)

  datatype TicketError =
    | TooShort | NonceOverflow | MissingTicketLength | TicketOverflow
    | ExtensionsOverflow | ExtensionLengthOverflow

  predicate CarriesEarlyData(f: frame) {
    ExtType(f) == EXT_EARLY_DATA && |Data(f)| >= 4
  }

  /** max_early_data_size after reading the extensions: the last usable one wins, 0 if there is none. */
  function EarlyData(fs: seq<frame>, found: u32): u32 {
    if fs == [] then found
    else EarlyData(fs[1..], if CarriesEarlyData(fs[0]) then U32At(Data(fs[0]), 0) else found)
  }

  /** An early_data extension (type 42) with room for the four octets of a size. */
  predicate IsGrant(f: frame) {
    ExtType(f) == 42 && |Data(f)| >= 4
  }

  /** The size a list of extensions grants: that of its last early_data extension, or 0 without one. */
  ghost predicate Grants(fs: seq<frame>, size: u32) {
    || (size == 0 && forall j :: 0 <= j < |fs| ==> !IsGrant(fs[j]))
    || exists i :: 0 <= i < |fs| && IsGrant(fs[i]) && U32At(Data(fs[i]), 0) == size
                   && forall j :: i < j < |fs| ==> !IsGrant(fs[j])
  }

  /** The meaning of EarlyData without the running value. */
  lemma {:induction false} EarlyDataIsLast(fs: seq<frame>, found: u32, i: nat)
    requires i <= |fs| && forall j :: i < j < |fs| ==> !IsGrant(fs[j])
    requires i < |fs| ==> IsGrant(fs[i])
    requires i == |fs| ==> forall j :: 0 <= j < |fs| ==> !IsGrant(fs[j])
    ensures EarlyData(fs, found) == if i < |fs| then U32At(Data(fs[i]), 0) else found
  {
    if fs != [] {
      var next := if CarriesEarlyData(fs[0]) then U32At(Data(fs[0]), 0) else found;
      var k := if i == 0 then |fs| - 1 else i - 1;
      forall j | 0 <= j < |fs| - 1
        ensures fs[1..][j] == fs[j + 1]
      {
      }
      EarlyDataIsLast(fs[1..], next, k);
    }
  }

  lemma GrantIsFound(fs: seq<frame>, size: u32)
    requires Grants(fs, size)
    ensures EarlyData(fs, 0) == size
  {
    hide EarlyData, U32At;
    if i :| 0 <= i < |fs| && IsGrant(fs[i]) && U32At(Data(fs[i]), 0) == size
            && forall j :: i < j < |fs| ==> !IsGrant(fs[j]) {
      EarlyDataIsLast(fs, 0, i);
    } else {
      EarlyDataIsLast(fs, 0, |fs|);
    }
  }

  function ParseExtensions(t: Ticket, exts: bytes): Result<Ticket, TicketError> {
    if |Rest(Extension, exts)| >= 4 then Err(ExtensionLengthOverflow)
    else Ok(t.(maxEarlyData := EarlyData(Walk(Extension, exts), 0)))
  }

  /** The ticket a body denotes. A body that ends right after the ticket has no extensions. */
  function Parse(body: bytes): Result<Ticket, TicketError> {
    if |body| < 9 then Err(TooShort)
    else
      var ticketAt := 9 + body[8] as int;
      if ticketAt > |body| then Err(NonceOverflow)
      else if ticketAt + 2 > |body| then Err(MissingTicketLength)
      else
        var extsAt := ticketAt + 2 + U16At(body, ticketAt);
        if extsAt > |body| then Err(TicketOverflow)
        else
          var t := Ticket(U32At(body, 0), U32At(body, 4), body[9..ticketAt], body[ticketAt + 2..extsAt], 0);
          if extsAt + 2 > |body| then Ok(t)
          else
            var end := extsAt + 2 + U16At(body, extsAt);
            if end > |body| then Err(ExtensionsOverflow)
            else ParseExtensions(t, body[extsAt + 2..end])
  }

  /** The extension loop at the end of the parser. */
  method ReadEarlyData(t: Ticket, exts: bytes) returns (r: Result<Ticket, TicketError>)
    requires t.maxEarlyData == 0
    ensures r == ParseExtensions(t, exts)
  {
    hide Walk, Rest;
    var found: u32 := 0;
    var eo := 0;
    assert exts[0..] == exts;
    while eo + 4 <= |exts|
      invariant 0 <= eo <= |exts|
      invariant EarlyData(Walk(Extension, exts), 0) == EarlyData(Walk(Extension, exts[eo..]), found)
      invariant Rest(Extension, exts) == Rest(Extension, exts[eo..])
    {
      WalkAt(Extension, exts, eo);
      var etype := U16At(exts, eo);
      var elen := U16At(exts, eo + 2);
      if eo + 4 + elen > |exts| {
        return Err(ExtensionLengthOverflow);
      }
      var edata := exts[eo + 4..eo + 4 + elen];
      ghost var f: frame := exts[eo..eo + 4 + elen];
      assert edata == Data(f) && etype == ExtType(f);
      ghost var later := Walk(Extension, exts[eo + 4 + elen..]);
      assert ([f] + later)[1..] == later;
      if etype == EXT_EARLY_DATA {
        if |edata| >= 4 {
          found := U32At(edata, 0);
        }
      }
      eo := eo + 4 + elen;
    }
    WalkAt(Extension, exts, eo);
    return Ok(t.(maxEarlyData := found));
  }

  method ParseNewSessionTicket(body: bytes) returns (r: Result<Ticket, TicketError>)
    ensures r == Parse(body)
  {
    hide U16At, U32At, ParseExtensions;
    if |body| < 9 {
      return Err(TooShort);
    }
    var off := 0;
    var lifetime := U32At(body, off);
    off := off + 4;
    var ageAdd := U32At(body, off);
    off := off + 4;
    var nonceLen := body[off];
    off := off + 1;
    if off + nonceLen > |body| {
      return Err(NonceOverflow);
    }
    var nonce := body[off..off + nonceLen];
    off := off + nonceLen;
    if off + 2 > |body| {
      return Err(MissingTicketLength);
    }
    var ticketLen := U16At(body, off);
    off := off + 2;
    if off + ticketLen > |body| {
      return Err(TicketOverflow);
    }
    var out := Ticket(lifetime, ageAdd, nonce, body[off..off + ticketLen], 0);
    off := off + ticketLen;
    if off + 2 > |body| {
      return Ok(out);
    }
    var extLen := U16At(body, off);
    off := off + 2;
    if off + extLen > |body| {
      return Err(ExtensionsOverflow);
    }
    var exts := body[off..off + extLen];
    r := ReadEarlyData(out, exts);
  }

  /** A ticket body as a server writes it. */
  function Encode(lifetime: u32, ageAdd: u32, nonce: bytes, ticket: bytes, exts: seq<bytes>): bytes
    requires |nonce| < 0x100
  {
    PutU32(lifetime) + PutU32(ageAdd) + [|nonce|] + nonce
      + PutU16(|ticket|) + ticket + PutU16(|Concat(exts)|) + Concat(exts)
  }

  /** The fields stand where the parser looks for them. */
  ghost predicate HasFields(body: bytes, lifetime: u32, ageAdd: u32, nonce: bytes, ticket: bytes, exts: bytes) {
    var a, b := 9 + |nonce|, 11 + |nonce| + |ticket|;
    && |body| == b + 2 + |exts|
    && U32At(body, 0) == lifetime && U32At(body, 4) == ageAdd
    && body[8] == |nonce| && body[9..a] == nonce
    && U16At(body, a) == |ticket| && body[a + 2..b] == ticket
    && U16At(body, b) == |exts| && body[b + 2..b + 2 + |exts|] == exts
  }

  lemma EncodeFields(lifetime: u32, ageAdd: u32, nonce: bytes, ticket: bytes, exts: seq<bytes>)
    requires |nonce| < 0x100 && |ticket| < 0x1_0000 && |Concat(exts)| < 0x1_0000
    ensures HasFields(Encode(lifetime, ageAdd, nonce, ticket, exts), lifetime, ageAdd, nonce, ticket, Concat(exts))
  {
    hide PutU16, PutU32, U16At, U32At;
    var e := Concat(exts);
    var a, b := 9 + |nonce|, 11 + |nonce| + |ticket|;
    var body := Encode(lifetime, ageAdd, nonce, ticket, exts);
    assert body[0..4] == PutU32(lifetime);
    U32Field(body, 0, lifetime);
    assert body[4..8] == PutU32(ageAdd);
    U32Field(body, 4, ageAdd);
    assert body[8] == |nonce| && body[9..a] == nonce;
    assert body[a..a + 2] == PutU16(|ticket|) && body[a + 2..b] == ticket;
    U16Field(body, a, |ticket|);
    assert body[b..b + 2] == PutU16(|e|) && body[b + 2..b + 2 + |e|] == e;
    U16Field(body, b, |e|);
  }

  lemma ParseFields(body: bytes, lifetime: u32, ageAdd: u32, nonce: bytes, ticket: bytes, exts: bytes)
    requires |nonce| < 0x100 && |ticket| < 0x1_0000 && |exts| < 0x1_0000
    requires HasFields(body, lifetime, ageAdd, nonce, ticket, exts)
    ensures Parse(body) == ParseExtensions(Ticket(lifetime, ageAdd, nonce, ticket, 0), exts)
  {
  }

  /** Parsing inverts writing, for every nonce, ticket and extension list within the length fields; the
      size is the one the extensions grant. */
  lemma ParseEncode(lifetime: u32, ageAdd: u32, nonce: bytes, ticket: bytes, exts: seq<frame>, size: u32)
    requires |nonce| < 0x100 && |ticket| < 0x1_0000
    requires AreFrames(Extension, exts) && |Concat(exts)| < 0x1_0000 && Grants(exts, size)
    ensures Parse(Encode(lifetime, ageAdd, nonce, ticket, exts)) == Ok(Ticket(lifetime, ageAdd, nonce, ticket, size))
  {
    EncodeFields(lifetime, ageAdd, nonce, ticket, exts);
    ParseFields(Encode(lifetime, ageAdd, nonce, ticket, exts), lifetime, ageAdd, nonce, ticket, Concat(exts));
    WalkConcat(Extension, exts);
    GrantIsFound(exts, size);
  }

  /** What a server writes to offer early data: the extension with its four octets, or none. */
  function Announced(size: Option<u32>): seq<frame> {
    match size
    case None => []
    case Some(n) => [Ext(42, PutU32(n))]
  }

  ghost predicate AreOthers(fs: seq<frame>) {
    AreFrames(Extension, fs) && forall i :: 0 <= i < |fs| ==> ExtType(fs[i]) != 42
  }

  /** Among extensions of other types the size written is the size granted, 0 when none is written. */
  lemma AnnouncedIsGranted(before: seq<frame>, size: Option<u32>, after: seq<frame>)
    requires AreOthers(before) && AreOthers(after)
    ensures var exts := before + Announced(size) + after;
            AreFrames(Extension, exts) && Grants(exts, if size.Some? then size.value else 0)
  {
    var exts := before + Announced(size) + after;
    hide ExtType, IsFrame, U32At;
    assert forall i :: 0 <= i < |before| ==> exts[i] == before[i];
    if size.Some? {
      var f := Ext(42, PutU32(size.value));
      ExtFields(42, PutU32(size.value));
      PutGetU32(size.value);
      assert exts[|before|] == f && IsGrant(f);
      assert forall j :: |before| < j < |exts| ==> exts[j] == after[j - |before| - 1];
    } else {
      assert forall j :: |before| <= j < |exts| ==> exts[j] == after[j - |before|];
    }
  }

  /** Octets behind the last whole extension are ignored when they are fewer than a header, and refused when
      they are a header with too little behind it. */
  lemma LeftoverDecides(t: Ticket, exts: seq<frame>, size: u32, leftover: bytes)
    requires AreFrames(Extension, exts) && Grants(exts, size) && !Complete(Extension, leftover)
    ensures ParseExtensions(t, Concat(exts) + leftover)
         == if |leftover| < 4 then Ok(t.(maxEarlyData := size)) else Err(ExtensionLengthOverflow)
  {
    WalkConcat(Extension, exts);
    WalkAppend(Extension, Concat(exts), leftover);
    GrantIsFound(exts, size);
    WalkUnfolds(Extension, leftover);
    assert Walk(Extension, leftover) == [];
    hide Walk, Rest, EarlyData, Grants, Complete;
    assert [] + leftover == leftover && exts + [] == exts;
  }

  /** A ticket octet by octet: lifetime 7200, a two-octet nonce, a one-octet ticket, and 16384 octets of
      early data. */
  lemma TicketOctets(n0: byte, n1: byte, t: byte)
    ensures Parse([0x00, 0x00, 0x1c, 0x20] + [0x01, 0x02, 0x03, 0x04] + [0x02] + [n0, n1] + [0x00, 0x01] + [t]
                  + [0x00, 0x08] + [0x00, 0x2a, 0x00, 0x04, 0x00, 0x00, 0x40, 0x00])
         == Ok(Ticket(7200, 0x0102_0304, [n0, n1], [t], 16384))
  {
    var ext: bytes := [0x00, 0x2a, 0x00, 0x04, 0x00, 0x00, 0x40, 0x00];
    TicketNumbers();
    OneGrant(ext);
    ConcatOne(ext);
    hide PutU16, PutU32, Parse, Grants, Concat;
    assert Encode(7200, 0x0102_0304, [n0, n1], [t], [ext])
        == [0x00, 0x00, 0x1c, 0x20] + [0x01, 0x02, 0x03, 0x04] + [0x02] + [n0, n1] + [0x00, 0x01] + [t]
           + [0x00, 0x08] + ext;
    ParseEncode(7200, 0x0102_0304, [n0, n1], [t], [ext], 16384);
  }

  lemma TicketNumbers()
    ensures PutU32(7200) == [0x00, 0x00, 0x1c, 0x20] && PutU32(0x0102_0304) == [0x01, 0x02, 0x03, 0x04]
    ensures PutU16(1) == [0x00, 0x01] && PutU16(8) == [0x00, 0x08]
  {
  }

  lemma OneGrant(ext: bytes)
    requires ext == [0x00, 0x2a, 0x00, 0x04, 0x00, 0x00, 0x40, 0x00]
    ensures AreFrames(Extension, [ext]) && Grants([ext], 16384)
  {
    assert IsGrant(ext) && U32At(Data(ext), 0) == 16384;
    assert [ext][0] == ext;
  }
}
