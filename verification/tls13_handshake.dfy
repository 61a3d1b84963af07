/** The 0-RTT probe after ServerHello: the server's encrypted flight is read record by record,
    reassembled into handshake messages (section 5.1 of RFC 8446) and added to the transcript; then
    the post-handshake records are searched for tickets. */
module Tls13Handshake {
  import opened Bytes
  import opened Connection
  import opened Frames
  import opened Outcomes
  import opened Tls13Record

  const HS_NEW_SESSION_TICKET: byte := 4
  const HS_FINISHED: byte := 20
  const MAX_RECORD := 16384 + 256

  datatype Record = Record(contentType: byte, payload: bytes)

  datatype Reading = Read(record: Record, rest: bytes) | Unreadable(rest: bytes)

  /** One TLS record off the front of the input; a failed read still consumes what it looked at. */
  function ReadAt(input: bytes): (r: Reading)
    ensures r.Read? ==> |r.rest| < |input|
  {
    if |input| < 5 then Unreadable([])
    else if input[1] != 0x03 || (input[2] != 0x03 && input[2] != 0x01) then Unreadable(input[5..])
    else
      var length := U16At(input, 3);
      if length > MAX_RECORD then Unreadable(input[5..])
      else if 5 + length > |input| then Unreadable([])
      else Read(Record(input[0], input[5..5 + length]), input[5 + length..])
  }

  method ReadPlaintextRecord(conn: Conn) returns (r: Option<Record>)
    modifies conn`input
    ensures match ReadAt(old(conn.input))
            case Read(record, rest) => r == Some(record) && conn.input == rest
            case Unreadable(rest) => r == None && conn.input == rest
  {
    ghost var input := conn.input;
    var header := conn.ReadFull(5);
    if header.None? {
      return None;
    }
    var h := header.value;
    if h[1] != 0x03 || (h[2] != 0x03 && h[2] != 0x01) {
      return None;
    }
    var length := U16At(h, 3);
    assert U16At(input, 3) == length;
    if length > MAX_RECORD {
      return None;
    }
    r := None;
    var payload := conn.ReadFull(length);
    if payload.Some? {
      r := Some(Record(h[0], payload.value));
      assert input[5..][..length] == input[5..5 + length];
      assert input[5..][length..] == input[5 + length..];
    }
  }

  /** A record in the clear, as any peer writes it: type, version 3.3, length, payload. */
  function Plain(contentType: byte, payload: bytes): bytes {
    [contentType, 3, 3, |payload| / 0x100 % 0x100, |payload| % 0x100] + payload
  }

  method WriteRecord(conn: Conn, contentType: byte, payload: bytes)
    modifies conn`output
    ensures conn.output == old(conn.output) + Plain(contentType, payload)
  {
    var header: bytes := [contentType, 0x03, 0x03] + PutU16(|payload|);
    ghost var before := conn.output;
    conn.Write(header);
    conn.Write(payload);
    assert (before + header) + payload == before + (header + payload);
    assert header + payload == Plain(contentType, payload);
  }

  /** A record is read octet by octet: any type, version 3.3 or 3.1, a 16-bit length within the limit, and
      that many octets of payload; nothing behind it is touched. */
  lemma ReadOctets(typ: byte, major: byte, minor: byte, payload: bytes, tail: bytes)
    requires |payload| < 0x1_0000
    ensures ReadAt([typ, major, minor, |payload| / 0x100, |payload| % 0x100] + payload + tail)
            == Read(Record(typ, payload), tail)
       <==> major == 3 && (minor == 3 || minor == 1) && |payload| <= 16384 + 256
  {
    var input := [typ, major, minor, |payload| / 0x100, |payload| % 0x100] + payload + tail;
    assert U16At(input, 3) == |payload|;
    assert input[0] == typ && input[1] == major && input[2] == minor;
    assert input[5..5 + |payload|] == payload;
    assert input[5 + |payload|..] == tail;
  }

  /** Reading inverts writing exactly when the payload is within the record limit. */
  lemma ReadPlain(contentType: byte, payload: bytes, tail: bytes)
    requires |payload| < 0x1_0000
    ensures ReadAt(Plain(contentType, payload) + tail) == Read(Record(contentType, payload), tail)
       <==> |payload| <= 16384 + 256
  {
    ReadOctets(contentType, 3, 3, payload, tail);
    hide ReadAt;
  }

  /** One record off the connection, decrypted when it is application data. */
  datatype Event =
    | Closed
    | ChangeCipherSpec(rest: bytes)
    | OtherType
    | Undecryptable
    | Decrypted(content: bytes, typ: byte, rest: bytes)

  function NextEvent(k: Keys, s: u64, input: bytes): (e: Event)
    requires |k.iv| == 12
    ensures e.ChangeCipherSpec? || e.Decrypted? ==> |e.rest| < |input|
  {
    match ReadAt(input)
    case Unreadable(_) => Closed
    case Read(record, rest) =>
      if record.contentType == RECORD_CHANGE_CIPHER_SPEC then ChangeCipherSpec(rest)
      else if record.contentType != RECORD_APPLICATION_DATA then OtherType
      else match OpenAt(k, s, Plain(RECORD_APPLICATION_DATA, record.payload))
        case Failed(_) => Undecryptable
        case Opened(content, typ) => Decrypted(content, typ, rest)
  }

  /** Reads and decrypts one record; the wire record is rebuilt with version 0x0303 for the AEAD. */
  method NextRecord(conn: Conn, prot: RecordProtector) returns (e: Event)
    requires prot.Valid()
    modifies conn`input, prot`seqNum
    ensures e == NextEvent(prot.keys, old(prot.seqNum), old(conn.input))
    ensures e.ChangeCipherSpec? ==> conn.input == e.rest && prot.seqNum == old(prot.seqNum)
    ensures e.Decrypted? ==> conn.input == e.rest && prot.seqNum == Next(old(prot.seqNum))
    ensures e.ChangeCipherSpec? || e.Decrypted? ==> |conn.input| < |old(conn.input)|
  {
    hide OpenAt;
    var rec := ReadPlaintextRecord(conn);
    if rec.None? {
      return Closed;
    }
    if rec.value.contentType == RECORD_CHANGE_CIPHER_SPEC {
      return ChangeCipherSpec(conn.input);
    }
    if rec.value.contentType != RECORD_APPLICATION_DATA {
      return OtherType;
    }
    var full := [RECORD_APPLICATION_DATA, 0x03, 0x03] + PutU16(|rec.value.payload|) + rec.value.payload;
    assert full == Plain(RECORD_APPLICATION_DATA, rec.value.payload);
    var r := prot.Open(full);
    if r.Failed? {
      return Undecryptable;
    }
    return Decrypted(r.content, r.typ, conn.input);
  }

  // ---- The encrypted flight as a run ----

  datatype HandshakeError = ReadError | UnexpectedRecordType | DecryptError | UnexpectedInnerType

  /** The error that ends the handshake on this event, if it does. */
  function Fatal(e: Event): Option<HandshakeError> {
    match e
    case Closed => Some(ReadError)
    case ChangeCipherSpec(_) => None
    case OtherType => Some(UnexpectedRecordType)
    case Undecryptable => Some(DecryptError)
    case Decrypted(_, typ, _) => if typ != RECORD_HANDSHAKE then Some(UnexpectedInnerType) else None
  }

  /** The decrypted handshake stream so far, the counter, and the input not yet read. */
  datatype Gathered = Gathered(stream: bytes, seqNum: u64, rest: bytes)

  /** After n records; None when one of them ends the handshake with an error. */
  function Gather(k: Keys, s: u64, input: bytes, n: nat): Option<Gathered>
    requires |k.iv| == 12
    decreases n
  {
    if n == 0 then Some(Gathered([], s, input))
    else
      var e := NextEvent(k, s, input);
      if Fatal(e).Some? then None
      else if e.ChangeCipherSpec? then Gather(k, s, e.rest, n - 1)
      else
        match Gather(k, Next(s), e.rest, n - 1)
        case None => None
        case Some(g) => Some(g.(stream := e.content + g.stream))
  }

  function Absorb(g: Gathered, e: Event): Gathered
    requires Fatal(e).None?
  {
    if e.ChangeCipherSpec? then g.(rest := e.rest)
    else Gathered(g.stream + e.content, Next(g.seqNum), e.rest)
  }

  /** One more record read at the end. */
  lemma {:induction false} GatherOneMore(k: Keys, s: u64, input: bytes, n: nat)
    requires |k.iv| == 12 && Gather(k, s, input, n).Some?
    ensures var g := Gather(k, s, input, n).value;
            var e := NextEvent(k, g.seqNum, g.rest);
            Gather(k, s, input, n + 1) == if Fatal(e).Some? then None else Some(Absorb(g, e))
    decreases n
  {
    hide NextEvent;
    var e := NextEvent(k, s, input);
    if n == 0 {
      if Fatal(e).None? && e.Decrypted? {
        assert Gather(k, Next(s), e.rest, 0) == Some(Gathered([], Next(s), e.rest));
        assert e.content + [] == e.content && [] + e.content == e.content;
      }
    } else if e.ChangeCipherSpec? {
      GatherOneMore(k, s, e.rest, n - 1);
    } else {
      GatherOneMore(k, Next(s), e.rest, n - 1);
      var g := Gather(k, Next(s), e.rest, n - 1).value;
      var last := NextEvent(k, g.seqNum, g.rest);
      if Fatal(last).None? && last.Decrypted? {
        assert e.content + (g.stream + last.content) == (e.content + g.stream) + last.content;
      }
    }
  }

  /** Reading more records only extends the stream. */
  lemma {:induction false} GatherGrows(k: Keys, s: u64, input: bytes, m: nat, n: nat)
    requires |k.iv| == 12 && m <= n && Gather(k, s, input, n).Some?
    ensures Gather(k, s, input, m).Some?
    ensures Gather(k, s, input, m).value.stream <= Gather(k, s, input, n).value.stream
    decreases n
  {
    hide NextEvent;
    if m > 0 {
      var e := NextEvent(k, s, input);
      if e.ChangeCipherSpec? {
        GatherGrows(k, s, e.rest, m - 1, n - 1);
      } else {
        GatherGrows(k, Next(s), e.rest, m - 1, n - 1);
      }
    }
  }

  /** A Finished has type 20 (section 4 of RFC 8446). */
  ghost predicate HasFinished(fs: seq<frame>) {
    exists i :: 0 <= i < |fs| && MsgType(fs[i]) == 20
  }

  lemma FinishedAppend(a: seq<frame>, b: seq<frame>)
    ensures HasFinished(a + b) <==> HasFinished(a) || HasFinished(b)
  {
    var c := a + b;
    assert forall i :: 0 <= i < |a| ==> c[i] == a[i];
    assert forall i :: 0 <= i < |b| ==> c[|a| + i] == b[i];
    if HasFinished(c) {
      var i :| 0 <= i < |c| && MsgType(c[i]) == HS_FINISHED;
      assert i < |a| || c[i] == b[i - |a|];
    }
  }

  lemma NothingYet()
    ensures !HasFinished([]) && Concat([]) == []
  {
  }

  lemma FinishedOne(f: frame)
    ensures HasFinished([f]) <==> MsgType(f) == HS_FINISHED
  {
    assert [f][0] == f;
  }

  // ---- The loops ----

  /** The inner loop: move every complete message from the buffer to the transcript. */
  method ExtractMessages(buffer: bytes, transcript0: bytes, ok0: bool, finished0: bool)
    returns (hsBuffer: bytes, transcript: bytes, ok: bool, finished: bool)
    ensures hsBuffer == Rest(Handshake, buffer)
    ensures transcript == transcript0 + Concat(Walk(Handshake, buffer))
    ensures ok <==> ok0 || Walk(Handshake, buffer) != []
    ensures finished <==> finished0 || HasFinished(Walk(Handshake, buffer))
  {
    NothingYet();
    hide Walk, Rest, HasFinished, Concat, IsFrame;
    hsBuffer, transcript, ok, finished := buffer, transcript0, ok0, finished0;
    ghost var done: seq<frame> := [];
    ghost var i := 0;
    assert buffer[0..] == buffer;
    while true
      invariant i <= |buffer| && hsBuffer == buffer[i..]
      invariant Walk(Handshake, buffer) == done + Walk(Handshake, buffer[i..])
      invariant Rest(Handshake, buffer) == Rest(Handshake, buffer[i..])
      invariant transcript == transcript0 + Concat(done)
      invariant ok <==> ok0 || done != []
      invariant finished <==> finished0 || HasFinished(done)
      decreases |buffer| - i
    {
      WalkAt(Handshake, buffer, i);
      if |hsBuffer| < 4 {
        break;
      }
      var msgType := hsBuffer[0];
      var msgLen := U24At(hsBuffer, 1);
      assert msgLen == LenAt(Handshake, buffer, i);
      if 4 + msgLen > |hsBuffer| {
        break;
      }
      var fullMsg: frame := hsBuffer[..4 + msgLen];
      assert fullMsg == buffer[i..i + 4 + msgLen];
      transcript := transcript + fullMsg;
      ok := true;
      if msgType == HS_FINISHED {
        finished := true;
      }
      ConcatAppend(done, [fullMsg]);
      ConcatOne(fullMsg);
      FinishedAppend(done, [fullMsg]);
      FinishedOne(fullMsg);
      done := done + [fullMsg];
      hsBuffer := hsBuffer[4 + msgLen..];
      i := i + 4 + msgLen;
    }
    assert done + [] == done;
  }

  /** What the outer loop is allowed to return after `used` records. */
  ghost predicate Drained(k: Keys, s: u64, input: bytes, transcript0: bytes,
                          used: nat, error: Option<HandshakeError>, transcript: bytes, hsBuffer: bytes, ok: bool)
    requires |k.iv| == 12
  {
    var now := Gather(k, s, input, used);
    && now.Some?
    && transcript == transcript0 + Concat(Walk(Handshake, now.value.stream))
    && hsBuffer == Rest(Handshake, now.value.stream)
    && (ok <==> Walk(Handshake, now.value.stream) != [])
    && match error
       case Some(e) =>
         && Fatal(NextEvent(k, now.value.seqNum, now.value.rest)) == Some(e)
         && !HasFinished(Walk(Handshake, now.value.stream))
       case None =>
         && HasFinished(Walk(Handshake, now.value.stream))
         && used > 0
         && Gather(k, s, input, used - 1).Some?
         && !HasFinished(Walk(Handshake, Gather(k, s, input, used - 1).value.stream))
  }

  /** The state of the outer loop after `used` records, none of them fatal. */
  ghost predicate Flowing(k: Keys, s: u64, input: bytes, transcript0: bytes, used: nat, now: Gathered,
                          transcript: bytes, hsBuffer: bytes, ok: bool, finished: bool)
    requires |k.iv| == 12
  {
    && Gather(k, s, input, used) == Some(now)
    && transcript == transcript0 + Concat(Walk(Handshake, now.stream))
    && hsBuffer == Rest(Handshake, now.stream)
    && (ok <==> Walk(Handshake, now.stream) != [])
    && (finished <==> HasFinished(Walk(Handshake, now.stream)))
    && (finished ==>
          && used > 0 && Gather(k, s, input, used - 1).Some?
          && !HasFinished(Walk(Handshake, Gather(k, s, input, used - 1).value.stream)))
  }

  lemma FlowStart(k: Keys, s: u64, input: bytes, transcript0: bytes)
    requires |k.iv| == 12
    ensures Flowing(k, s, input, transcript0, 0, Gathered([], s, input), transcript0, [], false, false)
  {
    assert transcript0 + Concat([]) == transcript0;
  }

  lemma FlowStops(k: Keys, s: u64, input: bytes, transcript0: bytes, used: nat, now: Gathered,
                  transcript: bytes, hsBuffer: bytes, ok: bool, finished: bool)
    requires |k.iv| == 12
    requires Flowing(k, s, input, transcript0, used, now, transcript, hsBuffer, ok, finished)
    ensures Gather(k, s, input, used) == Some(now)
    ensures finished ==> Drained(k, s, input, transcript0, used, None, transcript, hsBuffer, ok)
    ensures var fatal := Fatal(NextEvent(k, now.seqNum, now.rest));
            !finished && fatal.Some? ==> Drained(k, s, input, transcript0, used, fatal, transcript, hsBuffer, ok)
  {
    hide Gather, Walk, Rest, NextEvent, HasFinished, Concat, Fatal;
  }

  lemma FlowContinues(k: Keys, s: u64, input: bytes, transcript0: bytes, used: nat, now: Gathered,
                      transcript: bytes, hsBuffer: bytes, ok: bool, e: Event)
    requires |k.iv| == 12
    requires Flowing(k, s, input, transcript0, used, now, transcript, hsBuffer, ok, false)
    requires e == NextEvent(k, now.seqNum, now.rest) && Fatal(e).None?
    ensures e.ChangeCipherSpec? ==>
              Flowing(k, s, input, transcript0, used + 1, now.(rest := e.rest), transcript, hsBuffer, ok, false)
    ensures e.Decrypted? ==>
              var gained := Walk(Handshake, hsBuffer + e.content);
              Flowing(k, s, input, transcript0, used + 1, Gathered(now.stream + e.content, Next(now.seqNum), e.rest),
                      transcript + Concat(gained), Rest(Handshake, hsBuffer + e.content), ok || gained != [],
                      HasFinished(gained))
  {
    hide Gather, Walk, Rest, NextEvent, HasFinished, Concat;
    GatherOneMore(k, s, input, used);
    if e.Decrypted? {
      Reassemble(transcript0, now.stream, e.content);
    }
  }

  lemma NotFatal(e: Event)
    requires Fatal(e).None?
    ensures e.ChangeCipherSpec? || e.Decrypted?
  {
  }

  method DrainServerFlight(conn: Conn, prot: RecordProtector, transcript0: bytes)
    returns (error: Option<HandshakeError>, transcript: bytes, hsBuffer: bytes, ok: bool, used: nat)
    requires prot.Valid()
    modifies conn`input, prot`seqNum
    ensures Drained(prot.keys, old(prot.seqNum), old(conn.input), transcript0,
                    used, error, transcript, hsBuffer, ok)
    ensures error.None? ==>
      var now := Gather(prot.keys, old(prot.seqNum), old(conn.input), used).value;
      prot.seqNum == now.seqNum && conn.input == now.rest
  {
    hide Drained, Flowing, Gather, Walk, Rest, NextEvent, HasFinished, Concat, Fatal;
    ghost var k, s, input := prot.keys, prot.seqNum, conn.input;
    ghost var stream: bytes := [];
    var gotServerFinished := false;
    transcript, hsBuffer, ok, used := transcript0, [], false, 0;
    FlowStart(k, s, input, transcript0);
    while !gotServerFinished
      invariant prot.Valid()
      invariant Flowing(k, s, input, transcript0, used, Gathered(stream, prot.seqNum, conn.input),
                        transcript, hsBuffer, ok, gotServerFinished)
      decreases |conn.input|, !gotServerFinished
    {
      ghost var now := Gathered(stream, prot.seqNum, conn.input);
      FlowStops(k, s, input, transcript0, used, now, transcript, hsBuffer, ok, false);
      var e := NextRecord(conn, prot);
      error := Fatal(e);
      if error.Some? {
        return error, transcript, hsBuffer, ok, used;
      }
      NotFatal(e);
      FlowContinues(k, s, input, transcript0, used, now, transcript, hsBuffer, ok, e);
      used := used + 1;
      if e.ChangeCipherSpec? {
        continue;
      }
      stream := stream + e.content;
      hsBuffer, transcript, ok, gotServerFinished :=
        ExtractMessages(hsBuffer + e.content, transcript, ok, gotServerFinished);
    }
    FlowStops(k, s, input, transcript0, used, Gathered(stream, prot.seqNum, conn.input),
              transcript, hsBuffer, ok, true);
    return None, transcript, hsBuffer, ok, used;
  }

  /** Feeding the leftover of a stream together with the next piece is walking the longer stream. */
  lemma Reassemble(transcript0: bytes, stream: bytes, piece: bytes)
    ensures var before, gained, after := Walk(Handshake, stream),
              Walk(Handshake, Rest(Handshake, stream) + piece), Walk(Handshake, stream + piece);
            && after == before + gained
            && Rest(Handshake, stream + piece) == Rest(Handshake, Rest(Handshake, stream) + piece)
            && transcript0 + Concat(after) == transcript0 + Concat(before) + Concat(gained)
            && (HasFinished(after) <==> HasFinished(before) || HasFinished(gained))
  {
    hide Walk, Rest, HasFinished, Concat;
    var before, gained := Walk(Handshake, stream), Walk(Handshake, Rest(Handshake, stream) + piece);
    WalkAppend(Handshake, stream, piece);
    ConcatAppend(before, gained);
    FinishedAppend(before, gained);
    assert transcript0 + (Concat(before) + Concat(gained)) == transcript0 + Concat(before) + Concat(gained);
  }
}
