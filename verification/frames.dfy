/** Length-prefixed records with a 4-byte header: TLS extensions (2-byte type, 2-byte length) and
    TLS handshake messages (1-byte type, 3-byte length). Every cursor loop in the TLS files walks one
    of the two, so what a walk yields and what it leaves over is defined once here. */
module Frames {
  import opened Bytes

  datatype Kind = Extension | Handshake

  type frame = f: bytes | |f| >= 4 witness [0, 0, 0, 0]

  function BodyLen(k: Kind, b: bytes): nat
    requires |b| >= 4
  {
    match k
    case Extension => U16At(b, 2)
    case Handshake => U24At(b, 1)
  }

  /** The buffer starts with a whole frame. */
  predicate Complete(k: Kind, b: bytes) {
    |b| >= 4 && 4 + BodyLen(k, b) <= |b|
  }

  /** The buffer is exactly one frame. */
  predicate IsFrame(k: Kind, f: bytes) {
    |f| >= 4 && |f| == 4 + BodyLen(k, f)
  }

  predicate AreFrames(k: Kind, fs: seq<bytes>) {
    forall i :: 0 <= i < |fs| ==> IsFrame(k, fs[i])
  }

  function First(k: Kind, b: bytes): (f: frame)
    requires Complete(k, b)
  {
    b[..4 + BodyLen(k, b)]
  }

  function AfterFirst(k: Kind, b: bytes): (r: bytes)
    requires Complete(k, b)
  {
    b[4 + BodyLen(k, b)..]
  }

  /** The complete frames at the front of a buffer, in order. */
  function Walk(k: Kind, b: bytes): (fs: seq<frame>)
    ensures AreFrames(k, fs)
    decreases |b|
  {
    if Complete(k, b) then [First(k, b)] + Walk(k, AfterFirst(k, b)) else []
  }

  /** What a walk leaves unread: it never starts with a whole frame. */
  function Rest(k: Kind, b: bytes): (r: bytes)
    ensures !Complete(k, r)
    decreases |b|
  {
    if Complete(k, b) then Rest(k, AfterFirst(k, b)) else b
  }

  /** The length field of the frame at offset i. */
  function LenAt(k: Kind, b: bytes, i: nat): nat
    requires i + 4 <= |b|
  {
    match k
    case Extension => U16At(b, i + 2)
    case Handshake => U24At(b, i + 1)
  }

  /** One turn of a cursor loop standing at offset i: either nothing more can be read, or the walk
      yields the frame there and continues right behind it. */
  lemma WalkAt(k: Kind, b: bytes, i: nat)
    requires i <= |b|
    ensures if i + 4 <= |b| && i + 4 + LenAt(k, b, i) <= |b| then
              var end := i + 4 + LenAt(k, b, i);
              && IsFrame(k, b[i..end])
              && Walk(k, b[i..]) == [b[i..end]] + Walk(k, b[end..])
              && Rest(k, b[i..]) == Rest(k, b[end..])
            else
              Walk(k, b[i..]) == [] && Rest(k, b[i..]) == b[i..]
  {
    if i + 4 <= |b| {
      var s := b[i..];
      assert s[1] == b[i + 1] && s[2] == b[i + 2] && s[3] == b[i + 3];
      assert BodyLen(k, s) == LenAt(k, b, i);
      var n := 4 + LenAt(k, b, i);
      if i + n <= |b| {
        assert s[n..] == b[i + n..];
        assert s[..n] == b[i..i + n];
        assert First(k, s) == b[i..i + n] && AfterFirst(k, s) == b[i + n..];
      }
    }
  }

  /** A walk loses nothing: its frames followed by its leftover are the input. */
  lemma {:induction false} WalkConserves(k: Kind, b: bytes)
    ensures Concat(Walk(k, b)) + Rest(k, b) == b
    decreases |b|
  {
    WalkUnfolds(k, b);
    hide *;
    if Complete(k, b) {
      WalkConserves(k, AfterFirst(k, b));
      ConcatCons(First(k, b), Walk(k, AfterFirst(k, b)));
      assert b == First(k, b) + Concat(Walk(k, AfterFirst(k, b))) + Rest(k, AfterFirst(k, b));
    }
  }

  lemma WalkUnfolds(k: Kind, b: bytes)
    ensures Complete(k, b) ==>
              && Walk(k, b) == [First(k, b)] + Walk(k, AfterFirst(k, b))
              && Rest(k, b) == Rest(k, AfterFirst(k, b))
    ensures Complete(k, b) ==> |AfterFirst(k, b)| < |b| && b == First(k, b) + AfterFirst(k, b)
    ensures !Complete(k, b) ==> Concat(Walk(k, b)) == [] && Rest(k, b) == b
  {
    if Complete(k, b) {
      FirstAndAfter(k, b);
    } else {
      assert Walk(k, b) == [];
    }
    hide Complete, First, AfterFirst, Concat;
  }

  lemma FirstAndAfter(k: Kind, b: bytes)
    requires Complete(k, b)
    ensures |AfterFirst(k, b)| < |b| && b == First(k, b) + AfterFirst(k, b)
  {
    hide BodyLen;
  }

  /** Walking can be resumed: leftover bytes are carried in front of the next chunk. */
  lemma {:induction false} WalkAppend(k: Kind, a: bytes, b: bytes)
    ensures Walk(k, a + b) == Walk(k, a) + Walk(k, Rest(k, a) + b)
    ensures Rest(k, a + b) == Rest(k, Rest(k, a) + b)
    decreases |a|
  {
    if Complete(k, a) {
      assert BodyLen(k, a + b) == BodyLen(k, a);
      assert AfterFirst(k, a + b) == AfterFirst(k, a) + b;
      assert First(k, a + b) == First(k, a);
      WalkAppend(k, AfterFirst(k, a), b);
      assert Walk(k, a + b) == [First(k, a)] + (Walk(k, AfterFirst(k, a)) + Walk(k, Rest(k, a) + b));
    }
  }

  /** Parsing inverts writing: any list of frames, written back to back, is read back exactly. */
  lemma {:induction false} WalkConcat(k: Kind, fs: seq<bytes>)
    requires AreFrames(k, fs)
    ensures Walk(k, Concat(fs)) == fs && Rest(k, Concat(fs)) == []
  {
    if fs != [] {
      var b := Concat(fs);
      assert IsFrame(k, fs[0]);
      assert b[..|fs[0]|] == fs[0];
      assert BodyLen(k, b) == BodyLen(k, fs[0]);
      assert AfterFirst(k, b) == Concat(fs[1..]);
      WalkConcat(k, fs[1..]);
      assert fs == [fs[0]] + fs[1..];
    }
  }

  /** Fewer bytes never show a frame that more bytes do not. */
  lemma WalkPrefix(k: Kind, a: bytes, b: bytes)
    ensures Walk(k, a) <= Walk(k, a + b)
  {
    WalkAppend(k, a, b);
  }

  // The two fields of an extension frame.
  function ExtType(f: frame): u16 { U16At(f, 0) }

  function Data(f: frame): bytes { f[4..] }

  function MsgType(f: frame): byte { f[0] }

  /** One extension as appendExtension writes it. */
  function Ext(typ: u16, data: bytes): (f: frame)
  {
    PutU16(typ) + PutU16(|data|) + data
  }

  lemma ExtFields(typ: u16, data: bytes)
    requires |data| < 0x1_0000
    ensures IsFrame(Extension, Ext(typ, data))
    ensures ExtType(Ext(typ, data)) == typ && Data(Ext(typ, data)) == data
  {
    var f := Ext(typ, data);
    assert f[0] == PutU16(typ)[0] && f[1] == PutU16(typ)[1];
    assert f[2] == PutU16(|data|)[0] && f[3] == PutU16(|data|)[1];
  }

  /** One handshake message: type, 24-bit length, body. */
  function Msg(typ: byte, body: bytes): (f: frame)
  {
    [typ] + PutU24(|body|) + body
  }

  lemma MsgFields(typ: byte, body: bytes)
    requires |body| < 0x100_0000
    ensures IsFrame(Handshake, Msg(typ, body))
    ensures MsgType(Msg(typ, body)) == typ && Data(Msg(typ, body)) == body
  {
    var f := Msg(typ, body);
    var l := PutU24(|body|);
    assert f[1] == l[0] && f[2] == l[1] && f[3] == l[2];
  }

  /** The front of a buffer octet by octet: an extension has two octets of type and two of length, a handshake
      message one of type and three of length, the highest octet first. */
  lemma FrontFrame(a: byte, b: byte, c: byte, d: byte, data: bytes, rest: bytes)
    ensures var f: frame := [a, b, c, d] + data;
            && (|data| == c as int * 0x100 + d ==>
                  && Walk(Extension, f + rest) == [f] + Walk(Extension, rest)
                  && ExtType(f) == a as int * 0x100 + b && Data(f) == data)
            && (|data| == b as int * 0x1_0000 + c as int * 0x100 + d ==>
                  && Walk(Handshake, f + rest) == [f] + Walk(Handshake, rest)
                  && MsgType(f) == a && Data(f) == data)
  {
    var f: frame := [a, b, c, d] + data;
    var s := f + rest;
    assert s[0] == a && s[1] == b && s[2] == c && s[3] == d;
    if |data| == c as int * 0x100 + d {
      assert s[..4 + |data|] == f && s[4 + |data|..] == rest;
    }
    if |data| == b as int * 0x1_0000 + c as int * 0x100 + d {
      assert s[..4 + |data|] == f && s[4 + |data|..] == rest;
    }
  }
}
