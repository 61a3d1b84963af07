/** The end of the probe: records after the handshake are read until the connection ends, and the
    largest max_early_data_size of the tickets in them decides whether 0-RTT is offered. */
module Tls13Tickets {
  import opened Bytes
  import opened Connection
  import opened Frames
  import opened Outcomes
  import opened Tls13Record
  import opened Tls13Handshake
  import opened Tls13Flight
  import NST = NewSessionTicket

  /** Bodies of the NewSessionTicket messages (type 4) among some handshake messages. */
  function Bodies(fs: seq<frame>): seq<bytes> {
    if fs == [] then []
    else (if MsgType(fs[0]) == 4 then [Data(fs[0])] else []) + Bodies(fs[1..])
  }

  /** Ticket bodies the loop gets to see: each record is walked on its own, and the loop stops at the
      first record that is not application data, does not decrypt, or carries an alert. */
  function Tickets(k: Keys, s: u64, input: bytes): seq<bytes>
    requires |k.iv| == 12
    decreases |input|
  {
    match NextEvent(k, s, input)
    case Closed => []
    case ChangeCipherSpec(rest) => Tickets(k, s, rest)
    case OtherType => []
    case Undecryptable => []
    case Decrypted(content, typ, rest) =>
      if typ == RECORD_ALERT then []
      else if typ != RECORD_HANDSHAKE then Tickets(k, Next(s), rest)
      else Bodies(Walk(Handshake, content)) + Tickets(k, Next(s), rest)
  }

  /** The size a ticket body advertises; 0 when it does not parse or does not carry the extension. */
  function Advertised(body: bytes): u32 {
    match NST.Parse(body)
    case Ok(t) => t.maxEarlyData
    case Err(_) => 0
  }

  function Best(bodies: seq<bytes>, m: u32): u32 {
    if bodies == [] then m
    else Best(bodies[1..], if Advertised(bodies[0]) > m then Advertised(bodies[0]) else m)
  }

  lemma {:induction false} BestAppend(a: seq<bytes>, b: seq<bytes>, m: u32)
    ensures Best(a + b, m) == Best(b, Best(a, m))
  {
    if a == [] {
      assert a + b == b;
    } else {
      assert (a + b)[1..] == a[1..] + b;
      BestAppend(a[1..], b, if Advertised(a[0]) > m then Advertised(a[0]) else m);
    }
  }

  /** Best is the maximum over the ticket bodies and the starting value. */
  lemma {:induction false} BestIsMaximum(bodies: seq<bytes>, m: u32)
    ensures Best(bodies, m) >= m
    ensures forall i :: 0 <= i < |bodies| ==> Best(bodies, m) >= Advertised(bodies[i])
    ensures Best(bodies, m) == m || exists i :: 0 <= i < |bodies| && Best(bodies, m) == Advertised(bodies[i])
  {
    hide Advertised;
    if bodies != [] {
      var next := if Advertised(bodies[0]) > m then Advertised(bodies[0]) else m;
      BestIsMaximum(bodies[1..], next);
      forall i | 0 <= i < |bodies|
        ensures Best(bodies, m) >= Advertised(bodies[i])
      {
        if i > 0 {
          assert bodies[1..][i - 1] == bodies[i];
        }
      }
      if Best(bodies, m) != next {
        var i :| 0 <= i < |bodies[1..]| && Best(bodies[1..], next) == Advertised(bodies[1..][i]);
        assert bodies[i + 1] == bodies[1..][i];
      }
    }
  }

  lemma {:induction false} BodiesAppend(a: seq<frame>, b: seq<frame>)
    ensures Bodies(a + b) == Bodies(a) + Bodies(b)
  {
    if a == [] {
      assert a + b == b;
    } else {
      assert (a + b)[1..] == a[1..] + b;
      BodiesAppend(a[1..], b);
    }
  }

  /** The inner loop over one decrypted record. */
  method WalkTickets(pt: bytes, received0: bool, max0: u32) returns (received: bool, max: u32)
    ensures received <==> received0 || Bodies(Walk(Handshake, pt)) != []
    ensures max == Best(Bodies(Walk(Handshake, pt)), max0)
  {
    hide Walk, Rest, Best, NST.Parse;
    received, max := received0, max0;
    ghost var done: seq<frame> := [];
    var i := 0;
    assert pt[0..] == pt;
    BestOfNone(max0);
    while i + 4 <= |pt|
      invariant 0 <= i <= |pt|
      invariant Walk(Handshake, pt) == done + Walk(Handshake, pt[i..])
      invariant received <==> received0 || Bodies(done) != []
      invariant max == Best(Bodies(done), max0)
    {
      WalkAt(Handshake, pt, i);
      var t := pt[i];
      var l := U24At(pt, i + 1);
      if i + 4 + l > |pt| {
        break;
      }
      var body := pt[i + 4..i + 4 + l];
      ghost var f: frame := pt[i..i + 4 + l];
      assert Data(f) == body && MsgType(f) == t;
      BodiesAppend(done, [f]);
      assert Bodies([f]) == if t == HS_NEW_SESSION_TICKET then [body] else [] by {
        assert [f][1..] == [];
      }
      if t == HS_NEW_SESSION_TICKET {
        received := true;
        var nst := NST.ParseNewSessionTicket(body);
        BestAppend(Bodies(done), [body], max0);
        BestOfOne(body, max);
        if nst.Ok? && nst.value.maxEarlyData > max {
          max := nst.value.maxEarlyData;
        }
      } else {
        assert Bodies(done) + [] == Bodies(done);
      }
      done := done + [f];
      i := i + 4 + l;
    }
    WalkAt(Handshake, pt, i);
    assert done + [] == done;
  }

  lemma BestOfNone(m: u32)
    ensures Best([], m) == m
  {
  }

  lemma BestOfOne(body: bytes, m: u32)
    ensures Best([body], m) == if Advertised(body) > m then Advertised(body) else m
  {
    assert [body][1..] == [];
  }

  /** The verdict of the probe. */
  method ReceiveTickets(conn: Conn, prot: RecordProtector)
    returns (received: bool, maxEarlyData: u32, zeroRttOffered: bool)
    requires prot.Valid()
    modifies conn`input, prot`seqNum
    ensures var seen := Tickets(prot.keys, old(prot.seqNum), old(conn.input));
      && (received <==> seen != [])
      && maxEarlyData == Best(seen, 0)
      && (zeroRttOffered <==> Best(seen, 0) > 0)
  {
    hide NextEvent, Best, Bodies, Walk, Advertised;
    ghost var k, s0, input0 := prot.keys, prot.seqNum, conn.input;
    ghost var done: seq<bytes> := [];
    received, maxEarlyData, zeroRttOffered := false, 0, false;
    BestOfNone(0);
    while true
      invariant prot.Valid()
      invariant Tickets(k, s0, input0) == done + Tickets(k, prot.seqNum, conn.input)
      invariant received <==> done != []
      invariant maxEarlyData == Best(done, 0)
      decreases |conn.input|
    {
      var e := NextRecord(conn, prot);
      if e.Closed? || e.OtherType? || e.Undecryptable? {
        break;
      }
      if e.ChangeCipherSpec? {
        continue;
      }
      if e.typ == RECORD_ALERT {
        break;
      }
      if e.typ != RECORD_HANDSHAKE {
        continue;
      }
      BestAppend(done, Bodies(Walk(Handshake, e.content)), 0);
      done := done + Bodies(Walk(Handshake, e.content));
      received, maxEarlyData := WalkTickets(e.content, received, maxEarlyData);
    }
    assert Tickets(k, s0, input0) == done;
    BestOfNone(0);
    if received && maxEarlyData > 0 {
      zeroRttOffered := true;
    }
  }

  // ---- Against a conforming server ----

  /** A post-handshake record: application data, a piece of the handshake stream, or a
      change_cipher_spec. */
  datatype Post = App(content: bytes, zeros: nat) | Fragment(content: bytes, zeros: nat) | PostCcs(payload: bytes)

  predicate Postable(p: Post) {
    match p
    case App(c, z) => |c| + 1 + z + TAG <= MAX_RECORD
    case Fragment(c, z) => |c| + 1 + z + TAG <= MAX_RECORD
    case PostCcs(p) => |p| <= MAX_RECORD
  }

  function PostBytes(k: Keys, s: u64, items: seq<Post>): bytes
    requires |k.iv| == 12
    decreases items
  {
    if items == [] then []
    else match items[0]
      case App(c, z) => PeerRecord(k, s, c, 23, z) + PostBytes(k, Next(s), items[1..])
      case Fragment(c, z) => PeerRecord(k, s, c, 22, z) + PostBytes(k, Next(s), items[1..])
      case PostCcs(p) => Plain(20, p) + PostBytes(k, s, items[1..])
  }

  /** The handshake stream the fragments carry. */
  function PostStream(items: seq<Post>): bytes {
    if items == [] then []
    else (if items[0].Fragment? then items[0].content else []) + PostStream(items[1..])
  }

  /** The messages the loop makes out, each fragment being walked on its own. */
  function Seen(items: seq<Post>): seq<frame> {
    if items == [] then []
    else (if items[0].Fragment? then Walk(Handshake, items[0].content) else []) + Seen(items[1..])
  }

  /** Octets at the ends of the fragments that belong to no message made out. */
  function Lost(items: seq<Post>): nat {
    if items == [] then 0
    else (if items[0].Fragment? then |Rest(Handshake, items[0].content)| else 0) + Lost(items[1..])
  }

  /** No fragment ends inside what its own walk is reading. */
  predicate Uncut(items: seq<Post>) {
    forall i :: 0 <= i < |items| && items[i].Fragment? ==> Rest(Handshake, items[i].content) == []
  }

  /** The tickets of a run are those among the messages made out, until the server closes. */
  lemma {:induction false} TicketsAreSeen(k: Keys, s: u64, items: seq<Post>)
    requires Usable(k) && forall i :: 0 <= i < |items| ==> Postable(items[i])
    ensures Tickets(k, s, PostBytes(k, s, items)) == Bodies(Seen(items))
    decreases items
  {
    hide NextEvent, PeerRecord, Plain, Bodies, Walk;
    if items == [] {
      NothingIsClosed(k, s);
      NoBodies();
    } else {
      var rest := items[1..];
      match items[0] {
        case App(c, z) =>
          SentRecord(k, s, c, 23, z, PostBytes(k, Next(s), rest));
          TicketsAreSeen(k, Next(s), rest);
          assert Seen(items) == Seen(rest);
        case Fragment(c, z) =>
          SentRecord(k, s, c, 22, z, PostBytes(k, Next(s), rest));
          TicketsAreSeen(k, Next(s), rest);
          BodiesAppend(Walk(Handshake, c), Seen(rest));
        case PostCcs(p) =>
          SentCcs(k, s, p, PostBytes(k, s, rest));
          TicketsAreSeen(k, s, rest);
          assert Seen(items) == Seen(rest);
      }
    }
  }

  /** Messages made out and octets lost add up to the stream. */
  lemma {:induction false} SeenConserves(items: seq<Post>)
    ensures |Concat(Seen(items))| + Lost(items) == |PostStream(items)|
    ensures AreFrames(Handshake, Seen(items))
    ensures Lost(items) == 0 ==> Concat(Seen(items)) == PostStream(items)
    ensures Lost(items) == 0 <==> Uncut(items)
  {
    UncutStep(items);
    SeenStep(items);
    EmptyConcat();
    hide *;
    if items == [] {
    } else {
      SeenConserves(items[1..]);
      if items[0].Fragment? {
        var c := items[0].content;
        WalkConserves(Handshake, c);
        ConcatAppend(Walk(Handshake, c), Seen(items[1..]));
        FramesAppend(Walk(Handshake, c), Seen(items[1..]));
      }
    }
  }

  lemma FramesAppend(a: seq<frame>, b: seq<frame>)
    requires AreFrames(Handshake, a) && AreFrames(Handshake, b)
    ensures AreFrames(Handshake, a + b)
  {
    hide IsFrame;
  }

  lemma SeenStep(items: seq<Post>)
    ensures items == [] ==> Seen(items) == [] && Lost(items) == 0 && PostStream(items) == []
    ensures AreFrames(Handshake, [])
    ensures items != [] ==>
              var rest := items[1..];
              if items[0].Fragment? then
                && Seen(items) == Walk(Handshake, items[0].content) + Seen(rest)
                && Lost(items) == |Rest(Handshake, items[0].content)| + Lost(rest)
                && PostStream(items) == items[0].content + PostStream(rest)
              else Seen(items) == Seen(rest) && Lost(items) == Lost(rest) && PostStream(items) == PostStream(rest)
  {
    hide Walk, Rest;
  }

  lemma UncutStep(items: seq<Post>)
    ensures items == [] ==> Uncut(items)
    ensures items != [] ==>
              (Uncut(items) <==>
                 Uncut(items[1..]) && (items[0].Fragment? ==> Rest(Handshake, items[0].content) == []))
  {
    hide Rest;
    assert forall i :: 0 < i < |items| ==> items[i] == items[1..][i - 1];
    if items != [] {
      assert forall i :: 0 <= i < |items[1..]| ==> items[1..][i] == items[i + 1];
    }
  }

  lemma EmptyConcat()
    ensures Concat([]) == []
  {
  }

  /** The loop makes out exactly the messages sent iff no fragment ends inside a message, for messages of
      any types cut into any number of fragments. */
  lemma MessagesAreSeenIffUncut(items: seq<Post>, msgs: seq<frame>)
    requires AreFrames(Handshake, msgs) && PostStream(items) == Concat(msgs)
    ensures Seen(items) == msgs <==> Uncut(items)
  {
    hide Walk, Rest, Concat, Seen, Uncut, Lost, PostStream;
    SeenConserves(items);
    WalkConcat(Handshake, msgs);
    WalkConcat(Handshake, Seen(items));
  }

  /** An alert ends the search, and whatever stands behind it is not looked at. */
  lemma AlertEndsTickets(k: Keys, s: u64, content: bytes, zeros: nat, tail: bytes)
    requires Usable(k) && |content| + 1 + zeros + 16 <= 16384 + 256
    ensures Tickets(k, s, PeerRecord(k, s, content, 21, zeros) + tail) == []
  {
    SentRecord(k, s, content, 21, zeros, tail);
    hide NextEvent, PeerRecord;
  }

  /** What some tickets take up in a handshake stream. */
  function Weight(bodies: seq<bytes>): nat {
    if bodies == [] then 0 else |bodies[0]| + 4 + Weight(bodies[1..])
  }

  lemma {:induction false} BodiesWeight(fs: seq<frame>)
    requires AreFrames(Handshake, fs)
    ensures Weight(Bodies(fs)) <= |Concat(fs)|
    ensures (forall i :: 0 <= i < |fs| ==> MsgType(fs[i]) == 4)
            ==> Weight(Bodies(fs)) == |Concat(fs)|
  {
    if fs != [] {
      assert IsFrame(Handshake, fs[0]);
      assert AreFrames(Handshake, fs[1..]);
      BodiesWeight(fs[1..]);
      if MsgType(fs[0]) == HS_NEW_SESSION_TICKET {
        var rest := Bodies(fs[1..]);
        assert Bodies(fs) == [Data(fs[0])] + rest;
        assert ([Data(fs[0])] + rest)[1..] == rest;
      } else {
        assert Bodies(fs) == Bodies(fs[1..]);
      }
    }
  }

  /** The tickets of a stream of tickets are seen, each one in its place and nothing else, exactly when
      no fragment ends inside a ticket: for any number of tickets, fragments and paddings, with application
      data and change_cipher_spec in between. */
  lemma TicketsAreSeenIffUncut(k: Keys, s: u64, items: seq<Post>, msgs: seq<frame>)
    requires Usable(k) && forall i :: 0 <= i < |items| ==> Postable(items[i])
    requires AreFrames(Handshake, msgs) && PostStream(items) == Concat(msgs)
    requires forall i :: 0 <= i < |msgs| ==> MsgType(msgs[i]) == 4
    ensures Tickets(k, s, PostBytes(k, s, items)) == Bodies(msgs) <==> Uncut(items)
  {
    hide Tickets, Walk, Rest, Concat, Seen, Uncut, Lost, PostStream, PostBytes, Bodies, IsFrame, Postable, Weight;
    TicketsAreSeen(k, s, items);
    SeenConserves(items);
    MessagesAreSeenIffUncut(items, msgs);
    BodiesWeight(msgs);
    BodiesWeight(Seen(items));
  }

  /** Whatever else the server sends, every ticket of an uncut stream is seen, in order, and nothing
      else. */
  lemma EveryTicketIsSeen(k: Keys, s: u64, items: seq<Post>, msgs: seq<frame>)
    requires Usable(k) && forall i :: 0 <= i < |items| ==> Postable(items[i])
    requires AreFrames(Handshake, msgs) && PostStream(items) == Concat(msgs) && Uncut(items)
    ensures Tickets(k, s, PostBytes(k, s, items)) == Bodies(msgs)
  {
    hide Tickets, Walk, Concat, Seen, Uncut, PostStream, PostBytes, Bodies, IsFrame, Postable;
    TicketsAreSeen(k, s, items);
    MessagesAreSeenIffUncut(items, msgs);
  }

  lemma NothingIsClosed(k: Keys, s: u64)
    requires |k.iv| == 12
    ensures NextEvent(k, s, []) == Closed
  {
  }

  lemma NoBodies()
    ensures Bodies([]) == []
  {
  }

  /** A ticket as the server means it. */
  datatype Offer = Offer(lifetime: u32, ageAdd: u32, nonce: bytes, ticket: bytes, exts: seq<frame>)

  predicate Encodable(o: Offer) {
    && |o.nonce| < 0x100 && |o.ticket| < 0x1_0000
    && AreFrames(Extension, o.exts) && |Concat(o.exts)| < 0x1_0000
  }

  function TicketMessage(o: Offer): frame
    requires Encodable(o)
  {
    Msg(4, NST.Encode(o.lifetime, o.ageAdd, o.nonce, o.ticket, o.exts))
  }

  lemma OfferIsTicket(o: Offer)
    requires Encodable(o)
    ensures IsFrame(Handshake, TicketMessage(o)) && MsgType(TicketMessage(o)) == 4
    ensures Bodies([TicketMessage(o)]) == [Data(TicketMessage(o))]
    ensures Data(TicketMessage(o)) == NST.Encode(o.lifetime, o.ageAdd, o.nonce, o.ticket, o.exts)
  {
    MsgFields(4, NST.Encode(o.lifetime, o.ageAdd, o.nonce, o.ticket, o.exts));
    assert [TicketMessage(o)][1..] == [];
  }

  lemma OfferIsAdvertised(o: Offer, size: u32)
    requires Encodable(o) && NST.Grants(o.exts, size)
    ensures Advertised(Data(TicketMessage(o))) == size
  {
    hide NST.Parse, NST.Grants;
    OfferIsTicket(o);
    NST.ParseEncode(o.lifetime, o.ageAdd, o.nonce, o.ticket, o.exts, size);
  }

  function Messages(offers: seq<Offer>): (msgs: seq<frame>)
    requires forall i :: 0 <= i < |offers| ==> Encodable(offers[i])
    ensures |msgs| == |offers|
    ensures forall i :: 0 <= i < |offers| ==> msgs[i] == TicketMessage(offers[i])
  {
    seq(|offers|, i requires 0 <= i < |offers| && Encodable(offers[i]) => TicketMessage(offers[i]))
  }

  lemma OffersAreTickets(offers: seq<Offer>)
    requires forall i :: 0 <= i < |offers| ==> Encodable(offers[i])
    ensures AreFrames(Handshake, Messages(offers))
    ensures forall i :: 0 <= i < |offers| ==> MsgType(Messages(offers)[i]) == 4
  {
    forall i | 0 <= i < |offers|
      ensures IsFrame(Handshake, Messages(offers)[i]) && MsgType(Messages(offers)[i]) == 4
    {
      OfferIsTicket(offers[i]);
    }
  }

  /** The server sends these tickets as its post-handshake stream. */
  ghost predicate Announces(items: seq<Post>, offers: seq<Offer>) {
    && (forall i :: 0 <= i < |offers| ==> Encodable(offers[i]))
    && PostStream(items) == Concat(Messages(offers))
  }

  /** Each ticket grants early data of its size, 0 for none. */
  ghost predicate AllGrant(offers: seq<Offer>, sizes: seq<u32>) {
    |sizes| == |offers| && forall i :: 0 <= i < |offers| ==> NST.Grants(offers[i].exts, sizes[i])
  }

  lemma {:induction false} BodiesOfOffers(offers: seq<Offer>, msgs: seq<frame>, sizes: seq<u32>)
    requires forall i :: 0 <= i < |offers| ==> Encodable(offers[i])
    requires |msgs| == |offers| && forall i :: 0 <= i < |offers| ==> msgs[i] == TicketMessage(offers[i])
    requires AllGrant(offers, sizes)
    ensures |Bodies(msgs)| == |offers|
    ensures forall i :: 0 <= i < |offers| ==> Advertised(Bodies(msgs)[i]) == sizes[i]
  {
    hide Advertised, TicketMessage, Encodable, NST.Grants;
    if offers != [] {
      OfferIsTicket(offers[0]);
      OfferIsAdvertised(offers[0], sizes[0]);
      BodiesOfOffers(offers[1..], msgs[1..], sizes[1..]);
      BodiesAppend([msgs[0]], msgs[1..]);
      assert [msgs[0]] + msgs[1..] == msgs;
    }
  }

  /** The largest of some sizes, 0 when there are none. */
  ghost predicate IsLargest(sizes: seq<u32>, size: u32) {
    && (forall i :: 0 <= i < |sizes| ==> sizes[i] <= size)
    && (size > 0 ==> size in sizes)
  }

  /** The 0-RTT verdict is exact: the size reported is the largest one that a ticket of the server grants,
      and 0 when none grants any; provided no ticket is cut. */
  lemma VerdictIsExact(k: Keys, s: u64, items: seq<Post>, offers: seq<Offer>, sizes: seq<u32>)
    requires Usable(k) && forall i :: 0 <= i < |items| ==> Postable(items[i])
    requires Announces(items, offers) && AllGrant(offers, sizes) && Uncut(items)
    ensures IsLargest(sizes, Best(Tickets(k, s, PostBytes(k, s, items)), 0))
  {
    hide NextEvent, Best, Bodies, Advertised, Tickets, AllGrant;
    hide Messages, TicketMessage, Uncut, PostStream, PostBytes, Postable, Encodable;
    var bodies := Bodies(Messages(offers));
    OffersAreTickets(offers);
    EveryTicketIsSeen(k, s, items, Messages(offers));
    BodiesOfOffers(offers, Messages(offers), sizes);
    BestIsMaximum(bodies, 0);
    assert |sizes| == |offers| by {
      SizesMatch(offers, sizes);
    }
    var size := Best(bodies, 0);
    forall i | 0 <= i < |sizes|
      ensures sizes[i] <= size
    {
      assert Advertised(bodies[i]) == sizes[i];
    }
    if size > 0 {
      var i :| 0 <= i < |bodies| && size == Advertised(bodies[i]);
      assert sizes[i] == size;
    }
  }

  lemma SizesMatch(offers: seq<Offer>, sizes: seq<u32>)
    requires AllGrant(offers, sizes)
    ensures |sizes| == |offers|
  {
  }

  /** A ticket whose extensions are an early_data extension with the size, if any, among others. */
  ghost predicate Writes(o: Offer, before: seq<frame>, size: Option<u32>, after: seq<frame>) {
    && o.exts == before + NST.Announced(size) + after
    && NST.AreOthers(before) && NST.AreOthers(after)
  }

  function SizeOf(size: Option<u32>): u32 {
    match size case None => 0 case Some(n) => n
  }

  /** The same from what the server writes: of the sizes in its tickets' early_data extensions, each four
      octets under type 42, the verdict is the largest. */
  lemma VerdictOfWritten(k: Keys, s: u64, items: seq<Post>, offers: seq<Offer>,
                         before: seq<seq<frame>>, written: seq<Option<u32>>, after: seq<seq<frame>>)
    requires Usable(k) && forall i :: 0 <= i < |items| ==> Postable(items[i])
    requires Announces(items, offers) && Uncut(items)
    requires |before| == |written| == |after| == |offers|
    requires forall i :: 0 <= i < |offers| ==> Writes(offers[i], before[i], written[i], after[i])
    ensures var size := Best(Tickets(k, s, PostBytes(k, s, items)), 0);
            && (forall i :: 0 <= i < |offers| && written[i].Some? ==> written[i].value <= size)
            && (size > 0 ==> Some(size) in written)
  {
    var sizes := seq(|written|, i requires 0 <= i < |written| => SizeOf(written[i]));
    hide *;
    forall i | 0 <= i < |offers|
      ensures NST.Grants(offers[i].exts, sizes[i])
    {
      WrittenIsGranted(offers[i], before[i], written[i], after[i]);
    }
    GrantEach(offers, sizes);
    VerdictIsExact(k, s, items, offers, sizes);
    LargestWritten(written, sizes, Best(Tickets(k, s, PostBytes(k, s, items)), 0));
  }

  lemma WrittenIsGranted(o: Offer, before: seq<frame>, size: Option<u32>, after: seq<frame>)
    requires Writes(o, before, size, after)
    ensures NST.Grants(o.exts, SizeOf(size))
  {
    NST.AnnouncedIsGranted(before, size, after);
    hide NST.Grants, NST.Announced, NST.AreOthers;
  }

  lemma GrantEach(offers: seq<Offer>, sizes: seq<u32>)
    requires |sizes| == |offers| && forall i :: 0 <= i < |offers| ==> NST.Grants(offers[i].exts, sizes[i])
    ensures AllGrant(offers, sizes)
  {
    hide NST.Grants;
  }

  lemma LargestWritten(written: seq<Option<u32>>, sizes: seq<u32>, size: u32)
    requires |sizes| == |written| && forall i :: 0 <= i < |written| ==> sizes[i] == SizeOf(written[i])
    requires IsLargest(sizes, size)
    ensures forall i :: 0 <= i < |written| && written[i].Some? ==> written[i].value <= size
    ensures size > 0 ==> Some(size) in written
  {
    if size > 0 {
      var i :| 0 <= i < |sizes| && sizes[i] == size;
      assert written[i] == Some(size);
    }
  }

  /** Unlike the handshake loop, this loop does not reassemble: a ticket cut into two records is seen
      exactly when the cut is at one of its ends, although the stream is the same wherever it is. */
  lemma SplitTicket(k: Keys, s: u64, f: frame, cut: nat)
    requires Usable(k) && IsFrame(Handshake, f) && MsgType(f) == 4
    requires cut <= |f| && |f| + 1 + TAG <= MAX_RECORD
    ensures var split := [Fragment(f[..cut], 0), Fragment(f[cut..], 0)];
            && PostStream(split) == f
            && (Tickets(k, s, PostBytes(k, s, split)) == [Data(f)] <==> cut == 0 || cut == |f|)
  {
    hide Tickets, Walk, Rest, PostBytes, Concat;
    var split := [Fragment(f[..cut], 0), Fragment(f[cut..], 0)];
    assert split[1..] == [Fragment(f[cut..], 0)] && split[1..][1..] == [];
    assert PostStream(split[1..]) == f[cut..] + [];
    assert f[..cut] + f[cut..] == f;
    ConcatOne(f);
    assert Bodies([f]) == [Data(f)] by {
      assert [f][1..] == [];
    }
    TicketsAreSeenIffUncut(k, s, split, [f]);
    CutEnds(f, cut);
    assert split[0] == Fragment(f[..cut], 0) && split[1] == Fragment(f[cut..], 0);
  }

  lemma CutEnds(f: frame, cut: nat)
    requires IsFrame(Handshake, f) && cut <= |f|
    ensures Rest(Handshake, f[..cut]) == [] <==> cut == 0 || cut == |f|
    ensures cut == 0 || cut == |f| ==> Rest(Handshake, f[cut..]) == []
  {
    ConcatOne(f);
    WalkConcat(Handshake, [f]);
    if cut == 0 || cut == |f| {
      assert f[..|f|] == f && f[0..] == f;
    } else if cut >= 4 {
      assert BodyLen(Handshake, f[..cut]) == BodyLen(Handshake, f);
    }
  }
}
