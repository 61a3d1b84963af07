/** The Telnet banner decoder: command sequences are stripped, what is left is reduced to printable
    text. RFC 854 is the encoding it undoes. */
module Telnet {
  import opened Bytes
  import opened Lists
  import opened Text

  const IAC: byte := 0xFF
  const SB: byte := 0xFA
  const SE: byte := 0xF0

  // ---- The decoder ----

  predicate EndsSub(b: bytes, i: nat) {
    i + 1 < |b| && b[i] == IAC && b[i + 1] == SE
  }

  /** What is left after a subnegotiation whose payload starts the buffer. */
  function AfterSub(b: bytes): (r: bytes)
    ensures |r| <= |b|
  {
    if |b| < 2 then [] else if EndsSub(b, 0) then b[2..] else AfterSub(b[1..])
  }

  /** The octets that survive the stripping. */
  function Strip(b: bytes): bytes
    decreases |b|
  {
    if b == [] then []
    else if b[0] != IAC then [b[0]] + Strip(b[1..])
    else if |b| == 1 then []
    else if b[1] == IAC then [IAC] + Strip(b[2..])
    else if 0xFB <= b[1] <= 0xFE then Strip(Drop(b, 3))
    else if b[1] == SB then Strip(AfterSub(b[2..]))
    else Strip(b[2..])
  }

  lemma AfterSubStep(b: bytes, i: nat)
    requires i <= |b|
    ensures AfterSub(b[i..]) == if |b| < i + 2 then [] else if EndsSub(b, i) then b[i + 2..] else AfterSub(b[i + 1..])
  {
    if i + 2 <= |b| {
      assert b[i..][2..] == b[i + 2..] && b[i..][1..] == b[i + 1..];
      assert EndsSub(b[i..], 0) <==> EndsSub(b, i);
    }
  }

  lemma StripStep(b: bytes, i: nat)
    ensures i >= |b| ==> Strip(Drop(b, i)) == []
    ensures i < |b| ==>
              Strip(Drop(b, i))
              == if b[i] != IAC then [b[i]] + Strip(Drop(b, i + 1))
                 else if i + 1 >= |b| then []
                 else if b[i + 1] == IAC then [IAC] + Strip(Drop(b, i + 2))
                 else if 0xFB <= b[i + 1] <= 0xFE then Strip(Drop(b, i + 3))
                 else if b[i + 1] == SB then Strip(AfterSub(b[i + 2..]))
                 else Strip(Drop(b, i + 2))
  {
    if i < |b| {
      var c := b[i..];
      assert c[1..] == b[i + 1..];
      if i + 2 <= |b| {
        assert c[2..] == b[i + 2..];
        assert Drop(c, 3) == Drop(b, i + 3);
      }
    }
  }

  lemma DropNothing(b: bytes)
    ensures Drop(b, 0) == b
  {
    hide Strip;
  }

  /** The inner loop: from the start of a payload to behind its end marker. */
  method SkipSubnegotiation(b: bytes, start: nat) returns (i: nat)
    requires start <= |b|
    ensures i > start && Drop(b, i) == AfterSub(b[start..])
  {
    hide AfterSub;
    i := start;
    while i + 1 < |b| && !(b[i] == IAC && b[i + 1] == SE)
      invariant start <= i <= |b|
      invariant AfterSub(b[i..]) == AfterSub(b[start..])
    {
      AfterSubStep(b, i);
      i := i + 1;
    }
    AfterSubStep(b, i);
    i := i + 2;
  }

  /** The cursor loop over the raw octets. */
  method StripLoop(b: bytes) returns (out: bytes)
    ensures out == Strip(b)
  {
    hide *;
    DropNothing(b);
    out := [];
    var i := 0;
    while i < |b|
      invariant out + Strip(Drop(b, i)) == Strip(b)
    {
      StripStep(b, i);
      var c := b[i];
      if c != IAC {
        assert (out + [c]) + Strip(Drop(b, i + 1)) == out + ([c] + Strip(Drop(b, i + 1)));
        out := out + [c];
        i := i + 1;
        continue;
      }
      if i + 1 >= |b| {
        break;
      }
      var next := b[i + 1];
      if next == IAC {
        assert (out + [IAC]) + Strip(Drop(b, i + 2)) == out + ([IAC] + Strip(Drop(b, i + 2)));
        out := out + [IAC];
        i := i + 2;
      } else if 0xFB <= next <= 0xFE {
        i := i + 3;
      } else if next == SB {
        i := SkipSubnegotiation(b, i + 2);
      } else {
        i := i + 2;
      }
    }
    StripStep(b, i);
    assert out + [] == out;
  }

  // ---- The encoding of RFC 854 and 855 ----

  datatype Token =
    | Data(b: byte)
    | Negotiation(verb: byte, opt: byte)
    | Command(code: byte)
    | Subnegotiation(payload: bytes)

  predicate WellFormed(t: Token) {
    match t
    case Data(_) => true
    case Negotiation(verb, _) => 0xFB <= verb <= 0xFE
    case Command(code) => code < SB
    case Subnegotiation(_) => true
  }

  /** Every 0xFF of the payload is sent twice. */
  function Escape(b: byte): bytes {
    if b == IAC then [IAC, IAC] else [b]
  }

  function Escaped(payload: bytes): bytes {
    FlatMap(Escape, payload)
  }

  function Encode(t: Token): bytes {
    match t
    case Data(b) => Escape(b)
    case Negotiation(verb, opt) => [IAC, verb, opt]
    case Command(code) => [IAC, code]
    case Subnegotiation(payload) => [IAC, SB] + Escaped(payload) + [IAC, SE]
  }

  /** The data octets of a token. */
  function Content(t: Token): bytes {
    match t
    case Data(b) => [b]
    case _ => []
  }

  /** The part of a payload after the first 0xFF directly followed by 0xF0. */
  function Leak(payload: bytes): bytes {
    if |payload| < 2 then []
    else if EndsSub(payload, 0) then payload[2..]
    else Leak(payload[1..])
  }

  /** What the decoder makes of a token. */
  function Decoded(t: Token): bytes {
    match t
    case Data(b) => [b]
    case Subnegotiation(payload) => Leak(payload)
    case _ => []
  }

  lemma StripData(b: byte, tail: bytes)
    ensures Strip(Escape(b) + tail) == [b] + Strip(tail)
  {
    var wire := Escape(b) + tail;
    assert wire[|Escape(b)|..] == tail;
  }

  lemma {:induction false} StripEscaped(payload: bytes, tail: bytes)
    ensures Strip(Escaped(payload) + tail) == payload + Strip(tail)
  {
    EscapedStep(payload, tail);
    hide Strip, Escaped, Escape;
    if payload == [] {
    } else {
      StripEscaped(payload[1..], tail);
      StripData(payload[0], Escaped(payload[1..]) + tail);
      assert payload == [payload[0]] + payload[1..];
      assert payload + Strip(tail) == [payload[0]] + (payload[1..] + Strip(tail));
    }
  }

  lemma EscapedStep(payload: bytes, tail: bytes)
    ensures Escaped(payload) + tail
         == if payload == [] then tail else Escape(payload[0]) + (Escaped(payload[1..]) + tail)
  {
  }

  /** The scan for the end of a subnegotiation does not know the escape: it stops early exactly at an
      escaped 0xFF followed by 0xF0, and what follows is then read as data. */
  lemma {:induction false} StripAfterSub(payload: bytes, tail: bytes)
    ensures Strip(AfterSub(Escaped(payload) + [IAC, SE] + tail)) == Leak(payload) + Strip(tail)
  {
    var wire := Escaped(payload) + [IAC, SE] + tail;
    if payload == [] {
      assert wire == [IAC, SE] + tail;
      assert wire[2..] == tail;
    } else {
      var rest := Escaped(payload[1..]) + [IAC, SE] + tail;
      assert wire == Escape(payload[0]) + rest;
      assert rest[0] == IAC || (payload[1..] != [] && rest[0] == payload[1]);
      StripAfterSub(payload[1..], tail);
      if payload[0] != IAC {
        assert wire[1..] == rest;
      } else {
        assert wire[1..] == [IAC] + rest;
        assert wire[1..][1..] == rest;
        if |payload| >= 2 && payload[1] == SE {
          EarlyEnd(payload, tail);
        }
      }
    }
  }

  lemma EarlyEnd(payload: bytes, tail: bytes)
    requires |payload| >= 2 && EndsSub(payload, 0)
    ensures Strip(AfterSub(Escaped(payload) + [IAC, SE] + tail)) == payload[2..] + Strip(tail)
  {
    var after := Escaped(payload[2..]) + ([IAC, SE] + tail);
    var wire := Escaped(payload) + [IAC, SE] + tail;
    assert payload[1..][1..] == payload[2..];
    assert Escaped(payload[1..]) == Escape(SE) + Escaped(payload[2..]);
    assert Escaped(payload) == Escape(IAC) + Escaped(payload[1..]);
    assert wire == [IAC, IAC, SE] + after;
    assert wire[1..] == [IAC, SE] + after;
    assert wire[1..][2..] == after;
    StripEscaped(payload[2..], [IAC, SE] + tail);
    assert ([IAC, SE] + tail)[2..] == tail;
  }

  lemma StripToken(t: Token, tail: bytes)
    requires WellFormed(t)
    ensures Strip(Encode(t) + tail) == Decoded(t) + Strip(tail)
  {
    var wire := Encode(t) + tail;
    match t
    case Data(b) => StripData(b, tail);
    case Negotiation(verb, opt) => assert wire[3..] == tail;
    case Command(code) => assert wire[2..] == tail;
    case Subnegotiation(payload) =>
      StripAfterSub(payload, tail);
      assert wire[2..] == Escaped(payload) + [IAC, SE] + tail;
  }

  /** Decoding any well-formed token stream yields the data octets and the leaks, in order. */
  lemma {:induction false} StripEncode(tokens: seq<Token>)
    requires forall t :: t in tokens ==> WellFormed(t)
    ensures Strip(FlatMap(Encode, tokens)) == FlatMap(Decoded, tokens)
  {
    if tokens != [] {
      StripEncode(tokens[1..]);
      StripToken(tokens[0], FlatMap(Encode, tokens[1..]));
    }
  }

  ghost predicate LeakFree(tokens: seq<Token>) {
    forall t :: t in tokens && t.Subnegotiation? ==> Leak(t.payload) == []
  }

  lemma {:induction false} DecodedLength(tokens: seq<Token>)
    ensures |FlatMap(Decoded, tokens)| >= |FlatMap(Content, tokens)|
    ensures |FlatMap(Decoded, tokens)| == |FlatMap(Content, tokens)| ==> LeakFree(tokens)
    ensures LeakFree(tokens) ==> FlatMap(Decoded, tokens) == FlatMap(Content, tokens)
  {
    if tokens != [] {
      DecodedLength(tokens[1..]);
      assert tokens == [tokens[0]] + tokens[1..];
    }
  }

  /** Decoding inverts encoding exactly on the streams where no subnegotiation payload has anything
      after an 0xFF, 0xF0 pair. */
  lemma DecodingIsExact(tokens: seq<Token>)
    requires forall t :: t in tokens ==> WellFormed(t)
    ensures Strip(FlatMap(Encode, tokens)) == FlatMap(Content, tokens) <==> LeakFree(tokens)
  {
    StripEncode(tokens);
    DecodedLength(tokens);
  }

  /** The smallest leaking payload: its last octet comes out as banner text. */
  lemma LeakExample()
    ensures Strip(Encode(Subnegotiation([IAC, SE, 0x41]))) == [0x41]
    ensures FlatMap(Content, [Subnegotiation([IAC, SE, 0x41])]) == []
  {
    var t := Subnegotiation([IAC, SE, 0x41]);
    StripToken(t, []);
    assert Encode(t) + [] == Encode(t);
    FlatMapOne(Content, t);
  }

  /** A banner octet by octet: DONT ECHO and WILL SGA, "A", a NOP, an escaped 0xFF, a subnegotiation of the
      terminal type, "B". */
  lemma BannerOctets()
    ensures Strip([0xFF, 0xFE, 0x01, 0xFF, 0xFB, 0x03, 0x41, 0xFF, 0xF1, 0xFF, 0xFF,
                   0xFF, 0xFA, 0x18, 0x01, 0xFF, 0xF0, 0x42])
         == [0x41, 0xFF, 0x42]
  {
    hide *;
    var t6: bytes := [0x42];
    var t5 := [0xFF, 0xFA, 0x18, 0x01, 0xFF, 0xF0] + t6;
    var t4 := [0xFF, 0xFF] + t5;
    var t3 := [0xFF, 0xF1] + t4;
    var t2 := [0x41] + t3;
    var t1 := [0xFF, 0xFB, 0x03] + t2;
    BannerTokens();
    StripToken(Negotiation(0xFE, 0x01), t1);
    StripToken(Negotiation(0xFB, 0x03), t2);
    StripToken(Data(0x41), t3);
    StripToken(Command(0xF1), t4);
    StripToken(Data(0xFF), t5);
    StripToken(Subnegotiation([0x18, 0x01]), t6);
    StripToken(Data(0x42), []);
    StripNothing();
    assert t6 == [0x42] + [];
    assert Strip(t3) == [0xFF, 0x42] && Strip([0xFF, 0xFE, 0x01] + t1) == [0x41, 0xFF, 0x42];
    assert [0xFF, 0xFE, 0x01] + t1 == [0xFF, 0xFE, 0x01, 0xFF, 0xFB, 0x03, 0x41, 0xFF, 0xF1, 0xFF, 0xFF,
                                       0xFF, 0xFA, 0x18, 0x01, 0xFF, 0xF0, 0x42];
  }

  lemma BannerTokens()
    ensures Encode(Negotiation(0xFE, 0x01)) == [0xFF, 0xFE, 0x01]
    ensures Encode(Negotiation(0xFB, 0x03)) == [0xFF, 0xFB, 0x03]
    ensures Encode(Data(0x41)) == [0x41] && Encode(Data(0xFF)) == [0xFF, 0xFF] && Encode(Data(0x42)) == [0x42]
    ensures Encode(Command(0xF1)) == [0xFF, 0xF1]
    ensures Encode(Subnegotiation([0x18, 0x01])) == [0xFF, 0xFA, 0x18, 0x01, 0xFF, 0xF0]
    ensures Decoded(Negotiation(0xFE, 0x01)) == Decoded(Negotiation(0xFB, 0x03)) == Decoded(Command(0xF1)) == []
    ensures Decoded(Data(0x41)) == [0x41] && Decoded(Data(0xFF)) == [0xFF] && Decoded(Data(0x42)) == [0x42]
    ensures Decoded(Subnegotiation([0x18, 0x01])) == []
    ensures WellFormed(Negotiation(0xFE, 0x01)) && WellFormed(Negotiation(0xFB, 0x03)) && WellFormed(Command(0xF1))
  {
    PlainPayload(0x18, 0x01);
    hide Escaped, Leak;
  }

  lemma PlainPayload(a: byte, b: byte)
    requires a != 0xFF && b != 0xFF
    ensures Escaped([a, b]) == [a, b] && Leak([a, b]) == []
  {
    FlatMapOne(Escape, a);
    FlatMapSnoc(Escape, [a], b);
    assert [a] + [b] == [a, b];
    hide FlatMap;
    assert Leak([b]) == [] && [a, b][1..] == [b];
  }

  lemma StripNothing()
    ensures Strip([]) == []
  {
  }

  lemma {:induction false} AfterSubMonotone(a: bytes, b: bytes)
    requires a <= b
    ensures AfterSub(a) <= AfterSub(b)
  {
    if |a| >= 2 && !EndsSub(b, 0) {
      AfterSubMonotone(a[1..], b[1..]);
    }
  }

  /** A buffer cut short at any point, inside a sequence or not, decodes to a prefix. */
  lemma {:induction false} StripMonotone(a: bytes, b: bytes)
    requires a <= b
    ensures Strip(a) <= Strip(b)
    decreases |b|
  {
    if |a| >= 1 && a[0] != IAC {
      StripMonotone(a[1..], b[1..]);
    } else if |a| >= 2 {
      if 0xFB <= a[1] <= 0xFE {
        StripMonotone(Drop(a, 3), Drop(b, 3));
      } else if a[1] == SB {
        AfterSubMonotone(a[2..], b[2..]);
        StripMonotone(AfterSub(a[2..]), AfterSub(b[2..]));
      } else {
        StripMonotone(a[2..], b[2..]);
      }
    }
  }

  // ---- From octets to the banner ----

  predicate Printable(c: byte) {
    c == 0x0A || c == 0x0D || c == 0x09 || 0x20 <= c <= 0x7E
  }

  function Kept(c: byte): bytes {
    if Printable(c) then [c] else []
  }

  lemma KeptIs(c: byte)
    ensures Kept(c) == if c == 0x0A || c == 0x0D || c == 0x09 || 0x20 <= c <= 0x7E then [c] else []
  {
  }

  /** Every CR LF pair becomes one LF, scanning from the left. */
  function CollapseLines(s: string): (t: string)
    ensures |t| <= |s|
    ensures forall c :: c in t ==> c in s
  {
    if |s| >= 2 && s[0] == '\r' && s[1] == '\n' then ['\n'] + CollapseLines(s[2..])
    else if s == [] then []
    else [s[0]] + CollapseLines(s[1..])
  }

  method StripTelnetIac(b: bytes) returns (banner: string)
    ensures banner == TrimSpace(CollapseLines(Str(FlatMap(Kept, Strip(b)))))
  {
    var out := StripLoop(b);
    hide *;
    var clean: bytes := [];
    assert out[0..] == out;
    for i := 0 to |out|
      invariant clean + FlatMap(Kept, out[i..]) == FlatMap(Kept, out)
    {
      FlatMapStep(Kept, out, i);
      var c := out[i];
      KeptIs(c);
      if c == 0x0A || c == 0x0D || c == 0x09 || 0x20 <= c <= 0x7E {
        clean := clean + [c];
      }
    }
    FlatMapStep(Kept, out, |out|);
    assert clean + [] == clean;
    banner := TrimSpace(CollapseLines(Str(clean)));
  }

  /** From octets to text: " h", CR LF, NUL, "i", BEL, DEL and a space become "h", a line feed and "i". */
  lemma BannerText()
    ensures TrimSpace(CollapseLines(Str(FlatMap(Kept, [0x20, 0x68, 0x0d, 0x0a, 0x00, 0x69, 0x07, 0x7f, 0x20]))))
         == "h\ni"
  {
    KeptText();
    hide Kept, FlatMap;
    assert Str([0x20, 0x68, 0x0d, 0x0a, 0x69, 0x20]) == " h\r\ni ";
    CollapsedText();
    hide CollapseLines;
    assert " h\ni "[1..] == "h\ni " && "h\ni "[..3] == "h\ni";
  }

  lemma KeptText()
    ensures FlatMap(Kept, [0x20, 0x68, 0x0d, 0x0a, 0x00, 0x69, 0x07, 0x7f, 0x20])
         == [0x20, 0x68, 0x0d, 0x0a, 0x69, 0x20]
  {
    var a: bytes, b: bytes, c: bytes := [0x20, 0x68, 0x0d], [0x0a, 0x00, 0x69], [0x07, 0x7f, 0x20];
    KeptParts();
    hide FlatMap, Kept;
    FlatMapAppend(Kept, a, b);
    FlatMapAppend(Kept, a + b, c);
    assert a + b + c == [0x20, 0x68, 0x0d, 0x0a, 0x00, 0x69, 0x07, 0x7f, 0x20];
  }

  lemma KeptParts()
    ensures FlatMap(Kept, [0x20, 0x68, 0x0d]) == [0x20, 0x68, 0x0d] && FlatMap(Kept, [0x0a, 0x00, 0x69]) == [0x0a, 0x69]
    ensures FlatMap(Kept, [0x07, 0x7f, 0x20]) == [0x20]
  {
    KeptThree(0x20, 0x68, 0x0d);
    KeptThree(0x0a, 0x00, 0x69);
    KeptThree(0x07, 0x7f, 0x20);
    hide FlatMap, Kept;
  }

  lemma KeptThree(x: byte, y: byte, z: byte)
    ensures FlatMap(Kept, [x, y, z])
         == (if Printable(x) then [x] else []) + (if Printable(y) then [y] else []) + (if Printable(z) then [z] else [])
  {
    FlatMapOne(Kept, x);
    FlatMapSnoc(Kept, [x], y);
    FlatMapSnoc(Kept, [x, y], z);
    hide FlatMap, Printable;
    assert [x] + [y] == [x, y] && [x, y] + [z] == [x, y, z];
  }

  lemma CollapsedText()
    ensures CollapseLines(" h\r\ni ") == " h\ni "
  {
    assert " h\r\ni "[1..] == "h\r\ni " && "h\r\ni "[1..] == "\r\ni " && "\r\ni "[2..] == "i " && "i "[1..] == " ";
    assert CollapseLines(" ") == [' '] + CollapseLines("");
    assert CollapseLines("i ") == "i ";
    assert CollapseLines("\r\ni ") == "\ni ";
  }
}
