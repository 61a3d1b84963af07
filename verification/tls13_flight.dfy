/** What the record reassembly of the probe guarantees against a server that follows RFC 8446: the
    server may cut its flight into records as it likes, pad them, and mix in change_cipher_spec. */
module Tls13Flight {
  import opened Bytes
  import opened Frames
  import opened Outcomes
  import opened Tls13Record
  import opened Tls13Handshake

  /** What the server puts on the wire: a change_cipher_spec, or a piece of its handshake stream. */
  datatype Sent = Ccs(payload: bytes) | Piece(content: bytes, zeros: nat)

  predicate Sendable(item: Sent) {
    match item
    case Ccs(p) => |p| <= MAX_RECORD
    case Piece(c, z) => |c| + 1 + z + TAG <= MAX_RECORD
  }

  function ServerBytes(k: Keys, s: u64, items: seq<Sent>): bytes
    requires |k.iv| == 12
    decreases items
  {
    if items == [] then []
    else match items[0]
      case Ccs(p) => Plain(20, p) + ServerBytes(k, s, items[1..])
      case Piece(c, z) => PeerRecord(k, s, c, 22, z) + ServerBytes(k, Next(s), items[1..])
  }

  /** The handshake stream the pieces carry. */
  function Stream(items: seq<Sent>): bytes {
    if items == [] then []
    else (if items[0].Piece? then items[0].content else []) + Stream(items[1..])
  }

  /** The probe rebuilds exactly the record that the server sealed. */
  lemma SealedIsPlain(k: Keys, s: u64, inner: bytes)
    requires Usable(k)
    ensures Sealed(k, s, inner)
         == Plain(RECORD_APPLICATION_DATA, k.aead.seal(k.key, Nonce(k.iv, s), inner, Header(|inner| + TAG)))
  {
  }

  /** A sealed record within the limits is read back as what was sealed. */
  lemma SentRecord(k: Keys, s: u64, content: bytes, typ: byte, zeros: nat, tail: bytes)
    requires Usable(k) && typ != 0 && |content| + 1 + zeros + TAG <= MAX_RECORD
    ensures NextEvent(k, s, PeerRecord(k, s, content, typ, zeros) + tail) == Decrypted(content, typ, tail)
  {
    hide OpenAt, ReadAt, Plain, PeerRecord, Sealed;
    SealedIsPeers(k, s, content, typ, zeros);
    var inner := Inner(content, typ, zeros);
    var cipher := k.aead.seal(k.key, Nonce(k.iv, s), inner, Header(|inner| + TAG));
    SealedIsPlain(k, s, inner);
    ReadPlain(RECORD_APPLICATION_DATA, cipher, tail);
    SealOpens(k, s, content, typ, zeros);
  }

  lemma SentCcs(k: Keys, s: u64, payload: bytes, tail: bytes)
    requires |k.iv| == 12 && |payload| <= MAX_RECORD
    ensures NextEvent(k, s, Plain(20, payload) + tail) == ChangeCipherSpec(tail)
  {
    hide OpenAt, ReadAt, Plain;
    ReadPlain(RECORD_CHANGE_CIPHER_SPEC, payload, tail);
  }

  /** Records in the clear of any type but change_cipher_spec and application data end the handshake, and so
      does a protected record that does not carry handshake messages. */
  lemma OthersAreFatal(k: Keys, s: u64, typ: byte, payload: bytes, zeros: nat, tail: bytes)
    requires Usable(k) && |payload| + 1 + zeros + 16 <= 16384 + 256
    ensures typ != 20 && typ != 23 ==>
              Fatal(NextEvent(k, s, Plain(typ, payload) + tail)) == Some(UnexpectedRecordType)
    ensures typ != 0 && typ != 22 ==>
              Fatal(NextEvent(k, s, PeerRecord(k, s, payload, typ, zeros) + tail)) == Some(UnexpectedInnerType)
  {
    ReadPlain(typ, payload, tail);
    if typ != 0 {
      SentRecord(k, s, payload, typ, zeros, tail);
    }
    hide OpenAt, ReadAt, Plain, PeerRecord;
  }

  /** Reading n of the server's records collects exactly what they carry. */
  lemma {:induction false} GatherSent(k: Keys, s: u64, items: seq<Sent>, tail: bytes, n: nat)
    requires Usable(k) && n <= |items| && forall i :: 0 <= i < |items| ==> Sendable(items[i])
    ensures var g := Gather(k, s, ServerBytes(k, s, items) + tail, n);
            && g.Some?
            && g.value.stream == Stream(items[..n])
            && g.value.rest == ServerBytes(k, g.value.seqNum, items[n..]) + tail
    decreases n
  {
    hide NextEvent, PeerRecord, Plain;
    var input := ServerBytes(k, s, items) + tail;
    if n == 0 {
      assert items[0..] == items;
    } else {
      var rest := items[1..];
      assert items[..n][1..] == rest[..n - 1] && items[n..] == rest[n - 1..];
      match items[0] {
        case Ccs(p) =>
          var more := ServerBytes(k, s, rest) + tail;
          assert input == Plain(20, p) + more;
          SentCcs(k, s, p, more);
          GatherSent(k, s, rest, tail, n - 1);
        case Piece(c, z) =>
          var more := ServerBytes(k, Next(s), rest) + tail;
          assert input == PeerRecord(k, s, c, 22, z) + more;
          SentRecord(k, s, c, 22, z, more);
          GatherSent(k, Next(s), rest, tail, n - 1);
      }
    }
  }

  /** A server flight: complete handshake messages of which only the last is a Finished. */
  ghost predicate IsFlight(msgs: seq<frame>) {
    && msgs != [] && AreFrames(Handshake, msgs)
    && forall i :: 0 <= i < |msgs| ==> (MsgType(msgs[i]) == 20 <==> i == |msgs| - 1)
  }

  /** Of all prefixes of a flight only the whole one contains the Finished. */
  lemma FlightPrefix(msgs: seq<frame>, part: bytes)
    requires IsFlight(msgs) && part <= Concat(msgs)
    ensures HasFinished(Walk(Handshake, part)) <==> part == Concat(msgs)
  {
    var whole := Concat(msgs);
    WalkConcat(Handshake, msgs);
    if part == whole {
      assert MsgType(msgs[|msgs| - 1]) == HS_FINISHED;
    } else if HasFinished(Walk(Handshake, part)) {
      assert whole == part + whole[|part|..];
      WalkPrefix(Handshake, part, whole[|part|..]);
      var fs := Walk(Handshake, part);
      var i :| 0 <= i < |fs| && MsgType(fs[i]) == HS_FINISHED;
      assert fs[i] == msgs[i];
      assert fs == msgs;
      WalkConserves(Handshake, part);
    }
  }

  lemma {:induction false} StreamAppend(a: seq<Sent>, b: seq<Sent>)
    ensures Stream(a + b) == Stream(a) + Stream(b)
  {
    if a == [] {
      assert a + b == b;
    } else {
      assert (a + b)[1..] == a[1..] + b;
      StreamAppend(a[1..], b);
    }
  }

  lemma StreamPrefix(items: seq<Sent>, m: nat, n: nat)
    requires m <= n <= |items|
    ensures Stream(items[..m]) <= Stream(items[..n])
  {
    StreamAppend(items[..m], items[m..n]);
    assert items[..m] + items[m..n] == items[..n];
  }

  /** While the loop has seen no Finished, the server's records are not used up. */
  lemma Unfinished(k: Keys, s: u64, items: seq<Sent>, tail: bytes, msgs: seq<frame>, n: nat)
    requires Usable(k) && forall i :: 0 <= i < |items| ==> Sendable(items[i])
    requires IsFlight(msgs) && Stream(items) == Concat(msgs)
    ensures var g := Gather(k, s, ServerBytes(k, s, items) + tail, n);
            g.Some? && !HasFinished(Walk(Handshake, g.value.stream))
            ==> n < |items| && Stream(items[..n]) < Concat(msgs)
  {
    hide NextEvent, Walk, ServerBytes, Gather, Concat, HasFinished;
    var input := ServerBytes(k, s, items) + tail;
    if Gather(k, s, input, n).Some? && !HasFinished(Walk(Handshake, Gather(k, s, input, n).value.stream)) {
      var seen := Gather(k, s, input, n).value.stream;
      assert items[..|items|] == items;
      if n >= |items| {
        GatherSent(k, s, items, tail, |items|);
        GatherGrows(k, s, input, |items|, n);
        var whole := Concat(msgs);
        assert seen == whole + seen[|whole|..];
        WalkPrefix(Handshake, whole, seen[|whole|..]);
        FlightPrefix(msgs, whole);
        MoreFinished(Walk(Handshake, whole), Walk(Handshake, seen));
      }
      GatherSent(k, s, items, tail, n);
      StreamPrefix(items, n, |items|);
      FlightPrefix(msgs, Stream(items[..n]));
    }
  }

  lemma MoreFinished(a: seq<frame>, b: seq<frame>)
    requires a <= b && HasFinished(a)
    ensures HasFinished(b)
  {
    var i :| 0 <= i < |a| && MsgType(a[i]) == HS_FINISHED;
    assert MsgType(b[i]) == HS_FINISHED;
  }

  /** Section 5.1 of RFC 8446 end to end. However the server cuts a flight into records, whatever
      padding it adds and wherever it puts change_cipher_spec records, and whatever follows, the
      reading loop ends without error, its transcript has grown by exactly the flight, nothing is
      left in the buffer, and it stops at the first record that completes the flight. */
  lemma FragmentationIndependence(
      k: Keys, s: u64, items: seq<Sent>, tail: bytes, msgs: seq<frame>, transcript0: bytes,
      used: nat, error: Option<HandshakeError>, transcript: bytes, hsBuffer: bytes, ok: bool)
    requires Usable(k) && forall i :: 0 <= i < |items| ==> Sendable(items[i])
    requires IsFlight(msgs) && Stream(items) == Concat(msgs)
    requires Drained(k, s, ServerBytes(k, s, items) + tail, transcript0, used, error, transcript, hsBuffer, ok)
    ensures error == None && ok
    ensures transcript == transcript0 + Concat(msgs) && hsBuffer == []
    ensures used <= |items| && Stream(items[..used]) == Concat(msgs)
    ensures forall m :: 0 <= m < used ==> Stream(items[..m]) < Concat(msgs)
  {
    hide NextEvent, Walk, Rest, ServerBytes, Gather, Concat, HasFinished;
    if error.Some? {
      Unfinished(k, s, items, tail, msgs, used);
      GatherSent(k, s, items, tail, used + 1);
      GatherOneMore(k, s, ServerBytes(k, s, items) + tail, used);
      assert false;
    }
    Unfinished(k, s, items, tail, msgs, used - 1);
    GatherSent(k, s, items, tail, used);
    StreamPrefix(items, used, |items|);
    assert items[..|items|] == items;
    FlightPrefix(msgs, Stream(items[..used]));
    WalkConcat(Handshake, msgs);
    forall m | 0 <= m < used
      ensures Stream(items[..m]) < Concat(msgs)
    {
      StreamPrefix(items, m, used - 1);
    }
  }

  /** Such a run exists: the loop ends after at most all of the server's records. */
  lemma FlightIsDrained(k: Keys, s: u64, items: seq<Sent>, tail: bytes, msgs: seq<frame>, transcript0: bytes)
    returns (used: nat)
    requires Usable(k) && forall i :: 0 <= i < |items| ==> Sendable(items[i])
    requires IsFlight(msgs) && Stream(items) == Concat(msgs)
    ensures used <= |items|
    ensures Drained(k, s, ServerBytes(k, s, items) + tail, transcript0, used, None,
                    transcript0 + Concat(msgs), [], true)
  {
    hide NextEvent, Walk, Rest, ServerBytes, Gather, Concat, HasFinished, Stream;
    var input := ServerBytes(k, s, items) + tail;
    used := |items|;
    assert items[..|items|] == items;
    GatherSent(k, s, items, tail, used);
    FlightPrefix(msgs, Stream(items));
    StartsUnfinished(k, s, input);
    assert used > 0;
    GatherSent(k, s, items, tail, used - 1);
    while HasFinished(Walk(Handshake, Gather(k, s, input, used - 1).value.stream))
      invariant 0 < used <= |items|
      invariant Gather(k, s, input, used).Some? && Gather(k, s, input, used - 1).Some?
      invariant HasFinished(Walk(Handshake, Gather(k, s, input, used).value.stream))
      decreases used
    {
      used := used - 1;
      assert used > 0;
      GatherSent(k, s, items, tail, used - 1);
    }
    GatherSent(k, s, items, tail, used);
    StreamPrefix(items, used, |items|);
    FlightPrefix(msgs, Stream(items[..used]));
    WalkConcat(Handshake, msgs);
  }

  lemma StartsUnfinished(k: Keys, s: u64, input: bytes)
    requires |k.iv| == 12
    ensures Gather(k, s, input, 0).Some?
    ensures !HasFinished(Walk(Handshake, Gather(k, s, input, 0).value.stream))
  {
  }
}
