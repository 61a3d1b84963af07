/** The BSON reader and writer of the MongoDB hello probe: a scanner that keeps the scalar fields it
    knows and skips the rest, and the hello command it answers to. */
module Bson {
  import opened Bytes
  import opened Lists
  import opened Outcomes

  // ---- Little-endian integers ----

  function PutLe32(v: nat): (b: bytes)
    ensures |b| == 4
  {
    [v % 0x100, v / 0x100 % 0x100, v / 0x1_0000 % 0x100, v / 0x100_0000 % 0x100]
  }

  function Le32At(b: bytes, i: nat): (v: nat)
    requires i + 4 <= |b|
    ensures v < 0x1_0000_0000
  {
    b[i] as int + b[i + 1] as int * 0x100 + b[i + 2] as int * 0x1_0000 + b[i + 3] as int * 0x100_0000
  }

  lemma DivideTwice(v: nat)
    ensures v / 0x100_0000 == v / 0x1_0000 / 0x100
  {
  }

  lemma PutGetLe32(v: nat)
    requires v < 0x1_0000_0000
    ensures Le32At(PutLe32(v), 0) == v
  {
    PutGetU16(v);
    PutGetU16(v / 0x1_0000);
    DivideTwice(v);
    assert v / 0x1_0000 % 0x1_0000 == v / 0x1_0000;
    var b := PutLe32(v);
    assert b[0] == v % 0x100 && b[1] == v / 0x100 % 0x100;
    assert b[2] == v / 0x1_0000 % 0x100 && b[3] == v / 0x1_0000 / 0x100 % 0x100;
    hide PutLe32;
  }

  type int32 = x: int | -0x8000_0000 <= x < 0x8000_0000

  /** Two's complement, as a Go conversion between uint32 and int32. */
  function Signed(v: nat): int32
    requires v < 0x1_0000_0000
  {
    if v < 0x8000_0000 then v else v - 0x1_0000_0000
  }

  function Unsigned(v: int32): (u: nat)
    ensures u < 0x1_0000_0000 && Signed(u) == v
  {
    if v < 0 then v as int + 0x1_0000_0000 else v
  }

  // ---- The scanner ----

  datatype Value = Number(n: int32) | Text(s: bytes) | Flag(b: bool)

  type fields = map<bytes, Value>

  datatype Piece = Stop | Skip(size: nat) | Keep(value: Value, size: nat)

  /** What the scanner does with an element of the given type, given everything behind its name. */
  function PieceOf(tag: byte, b: bytes): Piece {
    if tag == 0x10 then
      if |b| < 4 then Stop else Keep(Number(Signed(Le32At(b, 0))), 4)
    else if tag == 0x02 then
      if |b| < 4 then Stop
      else
        var slen := Le32At(b, 0);
        if 4 + slen > |b| || slen < 1 then Stop else Keep(Text(b[4..4 + slen - 1]), 4 + slen)
    else if tag == 0x08 then
      if |b| < 1 then Stop else Keep(Flag(b[0] != 0), 1)
    else if tag == 0x12 || tag == 0x01 || tag == 0x09 then
      if |b| < 8 then Stop else Skip(8)
    else if tag == 0x07 then
      if |b| < 12 then Stop else Skip(12)
    else if tag == 0x03 || tag == 0x04 then
      if |b| < 4 then Stop else Skip(Le32At(b, 0))
    else if tag == 0x0A then Skip(0)
    else Stop
  }

  /** Octets before the first NUL. */
  function NameLen(b: bytes): (k: nat)
    ensures k <= |b|
    ensures forall i :: 0 <= i < k ==> b[i] != 0
    ensures k < |b| ==> b[k] == 0
  {
    if b == [] || b[0] == 0 then 0 else 1 + NameLen(b[1..])
  }

  /** Elements from the front of s, which ends where the document ends. */
  function Walk(s: bytes, out: fields): fields
    decreases |s|, 1
  {
    if |s| < 2 || s[0] == 0 || NameLen(s[1..]) + 1 >= |s| then out
    else Continue(PieceOf(s[0], s[NameLen(s[1..]) + 2..]), s, NameLen(s[1..]), out)
  }

  /** The rest of a walk over s, whose first name has k octets, after its first element. */
  function Continue(p: Piece, s: bytes, k: nat, out: fields): fields
    requires k + 2 <= |s|
    decreases |s|, 0
  {
    match p
    case Stop => out
    case Skip(n) => Walk(Drop(s, k + 2 + n), out)
    case Keep(v, n) => Walk(Drop(s, k + 2 + n), out[s[1..k + 1] := v])
  }

  function DocLen(doc: bytes): nat
    requires |doc| >= 4
  {
    if Le32At(doc, 0) > |doc| then |doc| else Le32At(doc, 0)
  }

  function Scan(doc: bytes): fields {
    if |doc| < 5 || DocLen(doc) < 4 then map[] else Walk(doc[4..DocLen(doc)], map[])
  }

  /** The octets of a document from i on; the cursor may have jumped past the end. */
  function From(doc: bytes, docLen: nat, i: nat): bytes
    requires docLen <= |doc|
  {
    if i <= docLen then doc[i..docLen] else []
  }

  lemma FromStep(doc: bytes, docLen: nat, i: nat, k: nat, n: nat)
    requires i + k + 2 <= docLen <= |doc|
    ensures var s := From(doc, docLen, i);
            && s[1..] == doc[i + 1..docLen]
            && s[k + 2..] == doc[i + k + 2..docLen]
            && s[1..k + 1] == doc[i + 1..i + k + 1]
            && Drop(s, k + 2 + n) == From(doc, docLen, i + k + 2 + n)
  {
    var s := From(doc, docLen, i);
    SliceOfSlice(doc, i, docLen, 1, k + 1);
    SliceOfSlice(doc, i, docLen, 1, docLen - i);
    SliceOfSlice(doc, i, docLen, k + 2, docLen - i);
  }

  method FindNameEnd(doc: bytes, docLen: nat, i: nat) returns (nameEnd: nat)
    requires i <= docLen <= |doc|
    ensures nameEnd == i + NameLen(doc[i..docLen])
  {
    nameEnd := i;
    while nameEnd < docLen && doc[nameEnd] != 0
      invariant i <= nameEnd <= docLen
      invariant i + NameLen(doc[i..docLen]) == nameEnd + NameLen(doc[nameEnd..docLen])
    {
      assert doc[nameEnd..docLen][1..] == doc[nameEnd + 1..docLen];
      nameEnd := nameEnd + 1;
    }
  }

  method ScanBsonFields(doc: bytes) returns (out: fields)
    ensures out == Scan(doc)
  {
    hide Walk, Continue, PieceOf, Le32At, NameLen, From, Drop;
    out := map[];
    if |doc| < 5 {
      return;
    }
    var docLen: nat := Le32At(doc, 0);
    if docLen > |doc| {
      docLen := |doc|;
    }
    var i := 4;
    ghost var result := Scan(doc);
    StartOfScan(doc);
    while i < docLen - 1
      invariant i >= 4
      invariant Walk(From(doc, docLen, i), out) == result
      decreases docLen - i
    {
      WalkStep(doc, docLen, i, out);
      var tag := doc[i];
      if tag == 0 {
        break;
      }
      var nameEnd := FindNameEnd(doc, docLen, i + 1);
      if nameEnd >= docLen {
        return;
      }
      var name := doc[i + 1..nameEnd];
      var piece := ReadPiece(tag, doc, docLen, nameEnd + 1);
      ContinueStep(piece, doc, docLen, i, nameEnd - i - 1, out);
      match piece
      case Stop => return;
      case Skip(n) => i := nameEnd + 1 + n;
      case Keep(v, n) =>
        out := out[name := v];
        i := nameEnd + 1 + n;
    }
    WalkEnds(doc, docLen, i, out);
  }

  /** The switch over the element type. */
  method ReadPiece(tag: byte, doc: bytes, docLen: nat, i: nat) returns (p: Piece)
    requires i <= docLen <= |doc|
    ensures p == PieceOf(tag, doc[i..docLen])
  {
    assert i + 4 <= docLen ==> Le32At(doc[i..docLen], 0) == Le32At(doc, i);
    hide Le32At;
    match tag
    case 0x10 =>
      if i + 4 > docLen {
        return Stop;
      }
      p := Keep(Number(Signed(Le32At(doc, i))), 4);
    case 0x02 =>
      if i + 4 > docLen {
        return Stop;
      }
      var slen := Le32At(doc, i);
      if i + 4 + slen > docLen || slen < 1 {
        return Stop;
      }
      SliceOfSlice(doc, i, docLen, 4, 4 + slen - 1);
      p := Keep(Text(doc[i + 4..i + 4 + slen - 1]), 4 + slen);
    case 0x08 =>
      if i + 1 > docLen {
        return Stop;
      }
      p := Keep(Flag(doc[i] != 0), 1);
    case 0x12 | 0x01 | 0x09 =>
      if i + 8 > docLen {
        return Stop;
      }
      p := Skip(8);
    case 0x07 =>
      if i + 12 > docLen {
        return Stop;
      }
      p := Skip(12);
    case 0x03 | 0x04 =>
      if i + 4 > docLen {
        return Stop;
      }
      p := Skip(Le32At(doc, i));
    case 0x0A => p := Skip(0);
    case _ => p := Stop;
  }

  lemma StartOfScan(doc: bytes)
    requires |doc| >= 5
    ensures Scan(doc) == Walk(From(doc, DocLen(doc), 4), map[])
  {
    hide Le32At;
  }

  lemma WalkUnfolds(s: bytes, out: fields)
    ensures Walk(s, out)
         == if |s| < 2 || s[0] == 0 || NameLen(s[1..]) + 1 >= |s| then out
            else Continue(PieceOf(s[0], s[NameLen(s[1..]) + 2..]), s, NameLen(s[1..]), out)
  {
    hide PieceOf, NameLen, Continue;
  }

  lemma WalkStep(doc: bytes, docLen: nat, i: nat, out: fields)
    requires i + 1 < docLen <= |doc|
    ensures doc[i] == 0 || i + 1 + NameLen(doc[i + 1..docLen]) >= docLen ==> Walk(From(doc, docLen, i), out) == out
    ensures var e := i + 1 + NameLen(doc[i + 1..docLen]);
            doc[i] != 0 && e < docLen ==>
              Walk(From(doc, docLen, i), out)
              == Continue(PieceOf(doc[i], doc[e + 1..docLen]), From(doc, docLen, i), e - i - 1, out)
  {
    hide PieceOf, NameLen, Continue, Walk;
    var s := From(doc, docLen, i);
    var k := NameLen(doc[i + 1..docLen]);
    SliceOfSlice(doc, i, docLen, 1, docLen - i);
    assert s[1..] == doc[i + 1..docLen];
    if k + 1 < |s| {
      SliceOfSlice(doc, i, docLen, k + 2, docLen - i);
    }
    WalkUnfolds(s, out);
  }

  lemma ContinueStep(p: Piece, doc: bytes, docLen: nat, i: nat, k: nat, out: fields)
    requires i + k + 2 <= docLen <= |doc|
    ensures var next := i + k + 2;
            Continue(p, From(doc, docLen, i), k, out)
            == match p
               case Stop => out
               case Skip(n) => Walk(From(doc, docLen, next + n), out)
               case Keep(v, n) => Walk(From(doc, docLen, next + n), out[doc[i + 1..i + k + 1] := v])
  {
    hide Walk, From, Drop;
    match p
    case Stop =>
    case Skip(n) => FromStep(doc, docLen, i, k, n);
    case Keep(_, n) => FromStep(doc, docLen, i, k, n);
  }

  lemma WalkEnds(doc: bytes, docLen: nat, i: nat, out: fields)
    requires docLen <= |doc|
    requires i + 1 >= docLen || doc[i] == 0
    ensures Walk(From(doc, docLen, i), out) == out
  {
  }

  // ---- The encoding the scanner reads ----

  datatype Item =
    | Int32(v: int32)
    | Int64(raw: bytes)
    | String(s: bytes)
    | Bool(b: bool)
    | Double(raw: bytes)
    | DateTime(raw: bytes)
    | ObjectId(raw: bytes)
    | Document(body: bytes)
    | Array(body: bytes)
    | Null

  datatype Field = Field(name: bytes, item: Item)

  /** Names are NUL-free, raw values have their fixed size, lengths fit their 32-bit prefix. */
  predicate Encodable(f: Field) {
    && 0 !in f.name
    && match f.item
       case Int64(raw) => |raw| == 8
       case Double(raw) => |raw| == 8
       case DateTime(raw) => |raw| == 8
       case ObjectId(raw) => |raw| == 12
       case String(s) => |s| + 1 < 0x1_0000_0000
       case Document(body) => |body| + 4 < 0x1_0000_0000
       case Array(body) => |body| + 4 < 0x1_0000_0000
       case _ => true
  }

  function Tag(item: Item): (t: byte)
    ensures t != 0
  {
    match item
    case Int32(_) => 0x10
    case Int64(_) => 0x12
    case String(_) => 0x02
    case Bool(_) => 0x08
    case Double(_) => 0x01
    case DateTime(_) => 0x09
    case ObjectId(_) => 0x07
    case Document(_) => 0x03
    case Array(_) => 0x04
    case Null => 0x0A
  }

  function EncodeItem(item: Item): bytes {
    match item
    case Int32(v) => PutLe32(Unsigned(v))
    case Int64(raw) => raw
    case String(s) => PutLe32(|s| + 1) + s + [0]
    case Bool(b) => [if b then 1 else 0]
    case Double(raw) => raw
    case DateTime(raw) => raw
    case ObjectId(raw) => raw
    case Document(body) => PutLe32(|body| + 4) + body
    case Array(body) => PutLe32(|body| + 4) + body
    case Null => []
  }

  function EncodeField(f: Field): bytes {
    [Tag(f.item)] + f.name + [0] + EncodeItem(f.item)
  }

  function EncodeFields(fs: seq<Field>): bytes {
    if fs == [] then [] else EncodeField(fs[0]) + EncodeFields(fs[1..])
  }

  /** A document: its total length, its elements, a NUL. */
  function EncodeDocument(fs: seq<Field>): bytes {
    PutLe32(4 + |EncodeFields(fs)| + 1) + EncodeFields(fs) + [0]
  }

  function ScalarOf(item: Item): Option<Value> {
    match item
    case Int32(v) => Some(Number(v))
    case String(s) => Some(Text(s))
    case Bool(b) => Some(Flag(b))
    case _ => None
  }

  /** The last int32, string or bool of a name. */
  function LastValue(fs: seq<Field>, name: bytes): Option<Value> {
    if fs == [] then None
    else
      var later := LastValue(fs[1..], name);
      if later.Some? then later
      else if fs[0].name == name then ScalarOf(fs[0].item)
      else None
  }

  function Lookup(m: fields, name: bytes): Option<Value> {
    if name in m then Some(m[name]) else None
  }

  function Apply(f: Field, out: fields): fields {
    match ScalarOf(f.item)
    case Some(v) => out[f.name := v]
    case None => out
  }

  function ApplyAll(fs: seq<Field>, out: fields): fields {
    if fs == [] then out else ApplyAll(fs[1..], Apply(fs[0], out))
  }

  lemma {:induction false} ApplyAllKeepsLast(fs: seq<Field>, out: fields, name: bytes)
    ensures Lookup(ApplyAll(fs, out), name)
         == if LastValue(fs, name).Some? then LastValue(fs, name) else Lookup(out, name)
  {
    if fs != [] {
      ApplyAllKeepsLast(fs[1..], Apply(fs[0], out), name);
    }
  }

  lemma Le32Ahead(v: nat, rest: bytes)
    requires v < 0x1_0000_0000
    ensures Le32At(PutLe32(v) + rest, 0) == v
  {
    PutGetLe32(v);
    var b := PutLe32(v);
    assert (b + rest)[0] == b[0] && (b + rest)[1] == b[1] && (b + rest)[2] == b[2] && (b + rest)[3] == b[3];
    hide PutLe32;
  }

  function PieceFor(item: Item): Piece {
    var size := |EncodeItem(item)|;
    match ScalarOf(item)
    case Some(v) => Keep(v, size)
    case None => Skip(size)
  }

  lemma PieceOfItem(item: Item, rest: bytes)
    requires Encodable(Field([], item))
    ensures PieceOf(Tag(item), EncodeItem(item) + rest) == PieceFor(item)
  {
    hide PutLe32, Le32At;
    var b := EncodeItem(item) + rest;
    match item
    case Int32(v) => Le32Ahead(Unsigned(v), rest);
    case String(s) =>
      Le32Ahead(|s| + 1, s + [0] + rest);
      assert b == PutLe32(|s| + 1) + (s + [0] + rest);
      assert b[4..4 + |s|] == s;
    case Document(body) =>
      Le32Ahead(|body| + 4, body + rest);
      assert b == PutLe32(|body| + 4) + (body + rest);
    case Array(body) =>
      Le32Ahead(|body| + 4, body + rest);
      assert b == PutLe32(|body| + 4) + (body + rest);
    case _ =>
  }

  lemma WalkOver(f: Field, rest: bytes, out: fields)
    requires Encodable(f)
    ensures Walk(EncodeField(f) + rest, out) == Walk(rest, Apply(f, out))
  {
    ItemOf(f);
    hide *;
    var s := EncodeField(f) + rest;
    FieldSlices(f, rest);
    PieceOfItem(f.item, rest);
    NameIsFound(f.name, EncodeItem(f.item) + rest);
    WalkUnfolds(s, out);
    ContinueWith(f, s, rest, out);
  }

  lemma ItemOf(f: Field)
    requires Encodable(f)
    ensures 0 !in f.name && Encodable(Field([], f.item))
  {
  }

  lemma ContinueWith(f: Field, s: bytes, rest: bytes, out: fields)
    requires |s| == |f.name| + 2 + |EncodeItem(f.item)| + |rest|
    requires s[1..|f.name| + 1] == f.name && s[|f.name| + 2 + |EncodeItem(f.item)|..] == rest
    ensures Continue(PieceFor(f.item), s, |f.name|, out) == Walk(rest, Apply(f, out))
  {
    hide Walk, EncodeItem;
  }

  lemma FieldSlices(f: Field, rest: bytes)
    ensures var s := EncodeField(f) + rest;
            var k := |f.name|;
            && |s| == k + 2 + |EncodeItem(f.item)| + |rest|
            && s[0] == Tag(f.item)
            && s[1..] == f.name + [0] + (EncodeItem(f.item) + rest)
            && s[1..k + 1] == f.name
            && s[k + 2..] == EncodeItem(f.item) + rest
            && s[k + 2 + |EncodeItem(f.item)|..] == rest
  {
    hide EncodeItem, Tag;
  }

  lemma NameIsFound(name: bytes, behind: bytes)
    requires 0 !in name
    ensures NameLen(name + [0] + behind) == |name|
  {
    var b := name + [0] + behind;
    assert b[|name|] == 0;
    assert forall i :: 0 <= i < |name| ==> b[i] == name[i] && name[i] in name;
    hide NameLen;
  }

  // ---- A document cut short ----

  lemma LengthAhead(v: nat, b: bytes)
    requires v < 0x1_0000_0000 && |b| >= 4 && b[..4] == PutLe32(v)
    ensures Le32At(b, 0) == v
  {
    Le32Ahead(v, b[4..]);
    assert b == b[..4] + b[4..];
    hide *;
  }

  lemma PieceOfCut(item: Item, b: bytes)
    requires Encodable(Field([], item))
    requires b <= EncodeItem(item) && |b| < |EncodeItem(item)|
    ensures var p := PieceOf(Tag(item), b);
            p.Stop? || (p.Skip? && p.size > |b|)
  {
    hide Le32At, PutLe32;
    if |b| >= 4 {
      match item
      case String(s) => LengthAhead(|s| + 1, b);
      case Document(body) => LengthAhead(|body| + 4, b);
      case Array(body) => LengthAhead(|body| + 4, b);
      case _ =>
    }
  }

  lemma WalkOverCut(f: Field, s: bytes, out: fields)
    requires Encodable(f)
    requires s <= EncodeField(f) && |s| < |EncodeField(f)|
    ensures Walk(s, out) == out
  {
    ItemOf(f);
    hide *;
    WalkUnfolds(s, out);
    if |s| < 2 {
    } else if |s| <= |f.name| + 1 {
      CutInName(f, s);
    } else {
      var b := s[|f.name| + 2..];
      CutSlices(f, s);
      NameIsFound(f.name, b);
      PieceOfCut(f.item, b);
      ContinueCut(PieceOf(Tag(f.item), b), s, |f.name|, out);
    }
  }

  lemma CutInName(f: Field, s: bytes)
    requires 0 !in f.name
    requires s <= EncodeField(f) && 2 <= |s| <= |f.name| + 1
    ensures NameLen(s[1..]) == |s| - 1
  {
    hide NameLen, EncodeItem, Tag;
    assert s[1..] == f.name[..|s| - 1];
    NameIsCut(f.name, |s| - 1);
  }

  lemma CutSlices(f: Field, s: bytes)
    requires s <= EncodeField(f) && |f.name| + 2 <= |s| < |EncodeField(f)|
    ensures var b := s[|f.name| + 2..];
            && s[0] == Tag(f.item) && s[1..] == f.name + [0] + b
            && b <= EncodeItem(f.item) && |b| < |EncodeItem(f.item)|
  {
    hide EncodeItem, Tag;
  }

  lemma ContinueCut(p: Piece, s: bytes, k: nat, out: fields)
    requires k + 2 <= |s|
    requires p.Stop? || (p.Skip? && p.size > |s| - k - 2)
    ensures Continue(p, s, k, out) == out
  {
    assert Walk([], out) == out;
  }

  lemma NameIsCut(name: bytes, n: nat)
    requires 0 !in name && n <= |name|
    ensures NameLen(name[..n]) == n
  {
    assert forall i :: 0 <= i < n ==> name[..n][i] == name[i] && name[i] in name;
    hide NameLen;
  }

  /** The leading fields whose encodings lie whole within n octets. */
  function WholeFields(fs: seq<Field>, n: nat): seq<Field> {
    if fs == [] || |EncodeField(fs[0])| > n then []
    else [fs[0]] + WholeFields(fs[1..], n - |EncodeField(fs[0])|)
  }

  lemma {:induction false} WalkFields(fs: seq<Field>, n: nat, out: fields)
    requires forall f :: f in fs ==> Encodable(f)
    requires n <= |EncodeFields(fs)| + 1
    ensures Walk((EncodeFields(fs) + [0])[..n], out) == ApplyAll(WholeFields(fs, n), out)
    decreases fs
  {
    hide *;
    if fs == [] {
      NoFields(n, out);
    } else {
      FieldsStep(fs, n, out);
      assert fs[0] in fs && (forall f :: f in fs[1..] ==> f in fs);
      var head := EncodeField(fs[0]);
      var s := (EncodeFields(fs) + [0])[..n];
      if |head| > n {
        WalkOverCut(fs[0], s, out);
      } else {
        WalkOver(fs[0], (EncodeFields(fs[1..]) + [0])[..n - |head|], out);
        WalkFields(fs[1..], n - |head|, Apply(fs[0], out));
      }
    }
  }

  lemma NoFields(n: nat, out: fields)
    requires n <= |EncodeFields([])| + 1
    ensures Walk((EncodeFields([]) + [0])[..n], out) == ApplyAll(WholeFields([], n), out)
  {
    assert EncodeFields([]) + [0] == [0];
  }

  lemma FieldsStep(fs: seq<Field>, n: nat, out: fields)
    requires fs != [] && n <= |EncodeFields(fs)| + 1
    ensures var head := EncodeField(fs[0]);
            var tail := EncodeFields(fs[1..]) + [0];
            && |EncodeFields(fs)| == |head| + |EncodeFields(fs[1..])|
            && (EncodeFields(fs) + [0])[..n] == (if |head| > n then head[..n] else head + tail[..n - |head|])
    ensures ApplyAll(WholeFields(fs, n), out)
         == if |EncodeField(fs[0])| > n then out
            else ApplyAll(WholeFields(fs[1..], n - |EncodeField(fs[0])|), Apply(fs[0], out))
  {
    hide EncodeField, Apply;
    var head := EncodeField(fs[0]);
    assert EncodeFields(fs) + [0] == head + (EncodeFields(fs[1..]) + [0]);
    if |head| <= n {
      var whole := WholeFields(fs[1..], n - |head|);
      assert ([fs[0]] + whole)[1..] == whole;
    }
  }

  lemma {:induction false} AllWhole(fs: seq<Field>, n: nat)
    requires n >= |EncodeFields(fs)|
    ensures WholeFields(fs, n) == fs
    decreases fs
  {
    hide EncodeField;
    if fs != [] {
      AllWhole(fs[1..], n - |EncodeField(fs[0])|);
      assert fs == [fs[0]] + fs[1..];
    }
  }

  /** Scanning inverts encoding, also when only the first octets of the document have arrived: for
      every name the scan holds the last scalar among the fields that arrived whole. */
  lemma ScanOfPrefix(fs: seq<Field>, n: nat, name: bytes)
    requires forall f :: f in fs ==> Encodable(f)
    requires 5 <= n <= |EncodeDocument(fs)| < 0x1_0000_0000
    ensures Lookup(Scan(EncodeDocument(fs)[..n]), name) == LastValue(WholeFields(fs, n - 4), name)
  {
    var doc := EncodeDocument(fs)[..n];
    var e := EncodeFields(fs) + [0];
    var total := 4 + |e|;
    hide PutLe32, Le32At, Walk, EncodeFields, Encodable, WholeFields, LastValue, ApplyAll;
    assert EncodeDocument(fs) == PutLe32(total) + e;
    assert doc == PutLe32(total) + e[..n - 4];
    Le32Ahead(total, e[..n - 4]);
    assert DocLen(doc) == n;
    assert doc[4..n] == e[..n - 4];
    WalkFields(fs, n - 4, map[]);
    ApplyAllKeepsLast(WholeFields(fs, n - 4), map[], name);
  }

  /** Scanning a whole document, whatever follows it: exactly the last int32, string or bool of every
      name, and no other name. */
  lemma ScanInvertsEncoding(fs: seq<Field>, trailing: bytes, name: bytes)
    requires forall f :: f in fs ==> Encodable(f)
    requires |EncodeDocument(fs)| < 0x1_0000_0000
    ensures Lookup(Scan(EncodeDocument(fs) + trailing), name) == LastValue(fs, name)
  {
    var whole := EncodeDocument(fs);
    ScanOfPrefix(fs, |whole|, name);
    AllWhole(fs, |whole| - 4);
    assert whole[..|whole|] == whole;
    TrailingIsIgnored(fs, trailing);
  }

  lemma TrailingIsIgnored(fs: seq<Field>, trailing: bytes)
    requires |EncodeDocument(fs)| < 0x1_0000_0000
    ensures Scan(EncodeDocument(fs) + trailing) == Scan(EncodeDocument(fs))
  {
    hide PutLe32, Le32At, Walk, EncodeFields;
    var e := EncodeFields(fs) + [0];
    var total := 4 + |e|;
    var whole := EncodeDocument(fs);
    assert whole == PutLe32(total) + e;
    assert whole + trailing == PutLe32(total) + (e + trailing);
    Le32Ahead(total, e);
    Le32Ahead(total, e + trailing);
    assert (whole + trailing)[4..total] == whole[4..total];
  }

  // ---- The hello command ----

  const HELLO: bytes := [104, 101, 108, 108, 111]
  const DB: bytes := [36, 100, 98]
  const ADMIN: bytes := [97, 100, 109, 105, 110]
  const HELLO_FIELDS: seq<Field> := [Field(HELLO, Int32(1)), Field(DB, String(ADMIN))]

  /** The length is a placeholder until the document is complete, then patched octet by octet. */
  method BuildHelloBson() returns (doc: bytes)
    ensures doc == EncodeDocument(HELLO_FIELDS) && |doc| == 31
  {
    HelloEncoding();
    hide EncodeFields, PutLe32;
    doc := [0, 0, 0, 0];
    doc := doc + [0x10];
    doc := doc + (HELLO + [0]);
    doc := doc + [0x01, 0x00, 0x00, 0x00];
    doc := doc + [0x02];
    doc := doc + (DB + [0]);
    doc := doc + [0x06, 0x00, 0x00, 0x00];
    doc := doc + (ADMIN + [0]);
    doc := doc + [0x00];
    ghost var elements := EncodeFields(HELLO_FIELDS) + [0];
    assert doc == [0, 0, 0, 0] + elements;
    doc := PatchLength(doc, elements);
  }

  method PatchLength(doc: bytes, ghost elements: bytes) returns (patched: bytes)
    requires doc == [0, 0, 0, 0] + elements
    ensures patched == PutLe32(|doc|) + elements
  {
    var totalLen := |doc|;
    patched := doc;
    patched := patched[0 := totalLen % 0x100];
    patched := patched[1 := totalLen / 0x100 % 0x100];
    patched := patched[2 := totalLen / 0x1_0000 % 0x100];
    patched := patched[3 := totalLen / 0x100_0000 % 0x100];
  }

  lemma HelloEncoding()
    ensures EncodeFields(HELLO_FIELDS)
         == [0x10] + HELLO + [0, 1, 0, 0, 0, 0x02] + DB + [0, 6, 0, 0, 0] + ADMIN + [0]
  {
    assert EncodeFields(HELLO_FIELDS) == EncodeField(HELLO_FIELDS[0]) + EncodeField(HELLO_FIELDS[1]) by {
      assert EncodeFields(HELLO_FIELDS[1..]) == EncodeField(HELLO_FIELDS[1]) + EncodeFields(HELLO_FIELDS[1..][1..]);
    }
    assert PutLe32(1) == [1, 0, 0, 0] && PutLe32(6) == [6, 0, 0, 0];
  }

  /** The command octet by octet: {hello: 1, $db: "admin"}. */
  lemma HelloOctets()
    ensures EncodeDocument(HELLO_FIELDS)
         == [0x1f, 0x00, 0x00, 0x00,
             0x10, 0x68, 0x65, 0x6c, 0x6c, 0x6f, 0x00, 0x01, 0x00, 0x00, 0x00,
             0x02, 0x24, 0x64, 0x62, 0x00, 0x06, 0x00, 0x00, 0x00, 0x61, 0x64, 0x6d, 0x69, 0x6e, 0x00,
             0x00]
  {
    HelloEncoding();
    LittleLengths();
    hide EncodeFields, PutLe32;
    assert HELLO == [0x68, 0x65, 0x6c, 0x6c, 0x6f] && DB == [0x24, 0x64, 0x62];
    assert ADMIN == [0x61, 0x64, 0x6d, 0x69, 0x6e];
  }

  /** The message of the wire protocol: 16-octet header, flag bits, section kind, document. */
  method BuildMongoHelloMessage() returns (out: bytes)
    ensures |out| == 52
    ensures out[..16] == [52, 0, 0, 0, 1, 0, 0, 0, 0, 0, 0, 0, 0xDD, 0x07, 0, 0]
    ensures out[16..21] == Zeros(5)
    ensures out[21..] == EncodeDocument(HELLO_FIELDS)
    ensures Scan(out[21..]) == map[HELLO := Number(1), DB := Text(ADMIN)]
  {
    hide EncodeDocument, Scan, PutLe32, Le32At;
    var bson := BuildHelloBson();
    var body: bytes := [0, 0, 0, 0];
    body := body + [0];
    body := body + bson;
    var totalLen := 16 + |body|;
    out := PutLe32(totalLen) + [1, 0, 0, 0] + [0, 0, 0, 0] + [0xDD, 0x07, 0x00, 0x00];
    out := out + body;
    HeaderOf(totalLen, body, out);
    assert PutLe32(totalLen) == [52, 0, 0, 0] by {
      LengthOctets();
    }
    assert out[21..] == bson;
    HelloIsScanned();
  }

  lemma HeaderOf(totalLen: nat, body: bytes, out: bytes)
    requires totalLen < 0x1_0000_0000 && |body| >= 5 && body[..5] == [0, 0, 0, 0, 0]
    requires out == PutLe32(totalLen) + [1, 0, 0, 0] + [0, 0, 0, 0] + [0xDD, 0x07, 0x00, 0x00] + body
    ensures |out| == 16 + |body|
    ensures out[..16] == PutLe32(totalLen) + [1, 0, 0, 0, 0, 0, 0, 0, 0xDD, 0x07, 0, 0]
    ensures out[16..21] == Zeros(5)
  {
    hide PutLe32;
    assert out[16..21] == body[..5];
  }

  lemma LengthOctets()
    ensures PutLe32(52) == [52, 0, 0, 0]
  {
  }

  lemma HelloIsScanned()
    ensures Scan(EncodeDocument(HELLO_FIELDS)) == map[HELLO := Number(1), DB := Text(ADMIN)]
  {
    var doc := EncodeDocument(HELLO_FIELDS);
    assert |doc| == 31 by {
      HelloEncoding();
    }
    hide EncodeDocument, Scan, LastValue;
    var m := Scan(doc);
    forall name: bytes
      ensures Lookup(m, name) == LastValue(HELLO_FIELDS, name)
    {
      ScanInvertsEncoding(HELLO_FIELDS, [], name);
      assert doc + [] == doc;
    }
    var expected: fields := map[HELLO := Number(1), DB := Text(ADMIN)];
    forall name: bytes
      ensures Lookup(m, name) == Lookup(expected, name)
    {
      LastOfHello(name);
    }
    assert forall name: bytes :: name in m <==> Lookup(m, name).Some?;
    assert m == expected;
  }

  lemma LastOfHello(name: bytes)
    ensures LastValue(HELLO_FIELDS, name)
         == if name == DB then Some(Text(ADMIN)) else if name == HELLO then Some(Number(1)) else None
  {
    var last := HELLO_FIELDS[1..];
    assert last == [Field(DB, String(ADMIN))] && last[1..] == [];
    assert LastValue(last, name) == if name == DB then Some(Text(ADMIN)) else None;
    assert HELLO != DB;
  }

  // ---- A reply with every type ----

  /** A reply octet by octet: an int64, a double, a date and an object id. */
  function HeadOctets(long: bytes, double: bytes, date: bytes, id: bytes): bytes {
    [0x12, 0x61, 0x00] + long + [0x01, 0x62, 0x00] + double + [0x09, 0x63, 0x00] + date + [0x07, 0x64, 0x00] + id
  }

  /** Then an empty document, an empty array, a null, a true, the int32 -2 and the string "x". */
  const TAIL_OCTETS: bytes :=
    [0x03, 0x65, 0x00, 0x05, 0x00, 0x00, 0x00, 0x00] + [0x04, 0x66, 0x00, 0x05, 0x00, 0x00, 0x00, 0x00]
    + [0x0a, 0x67, 0x00] + [0x08, 0x68, 0x00, 0x01] + [0x10, 0x69, 0x00, 0xfe, 0xff, 0xff, 0xff]
    + [0x02, 0x6a, 0x00, 0x02, 0x00, 0x00, 0x00, 0x78, 0x00]

  function ReplyHead(long: bytes, double: bytes, date: bytes, id: bytes): seq<Field> {
    [Field([0x61], Int64(long)), Field([0x62], Double(double)), Field([0x63], DateTime(date)),
     Field([0x64], ObjectId(id))]
  }

  const REPLY_TAIL: seq<Field> :=
    [Field([0x65], Document([0])), Field([0x66], Array([0])), Field([0x67], Null),
     Field([0x68], Bool(true)), Field([0x69], Int32(-2)), Field([0x6a], String([0x78]))]

  lemma {:induction false} FieldsAppend(a: seq<Field>, b: seq<Field>)
    ensures EncodeFields(a + b) == EncodeFields(a) + EncodeFields(b)
  {
    hide EncodeField;
    if a == [] {
      assert a + b == b;
    } else {
      assert (a + b)[1..] == a[1..] + b;
      FieldsAppend(a[1..], b);
    }
  }

  lemma {:induction false} LastAppend(a: seq<Field>, b: seq<Field>, name: bytes)
    ensures LastValue(a + b, name) == if LastValue(b, name).Some? then LastValue(b, name) else LastValue(a, name)
  {
    if a == [] {
      assert a + b == b;
    } else {
      assert (a + b)[1..] == a[1..] + b;
      LastAppend(a[1..], b, name);
    }
  }

  lemma OneField(f: Field, name: bytes)
    ensures EncodeFields([f]) == EncodeField(f)
    ensures LastValue([f], name) == if f.name == name then ScalarOf(f.item) else None
  {
    assert [f][1..] == [];
    hide EncodeField;
    assert EncodeFields([f][1..]) == [];
  }

  lemma HeadEncodes(long: bytes, double: bytes, date: bytes, id: bytes)
    ensures EncodeFields(ReplyHead(long, double, date, id)) == HeadOctets(long, double, date, id)
  {
    var a, b := Field([0x61], Int64(long)), Field([0x62], Double(double));
    var c, d := Field([0x63], DateTime(date)), Field([0x64], ObjectId(id));
    assert ReplyHead(long, double, date, id) == [a, b, c, d];
    assert EncodeField(a) == [0x12, 0x61, 0x00] + long && EncodeField(b) == [0x01, 0x62, 0x00] + double;
    assert EncodeField(c) == [0x09, 0x63, 0x00] + date && EncodeField(d) == [0x07, 0x64, 0x00] + id;
    hide EncodeField, ReplyHead;
    FourFields(a, b, c, d, []);
  }

  lemma FourFields(a: Field, b: Field, c: Field, d: Field, name: bytes)
    ensures EncodeFields([a, b, c, d]) == EncodeField(a) + EncodeField(b) + EncodeField(c) + EncodeField(d)
    ensures ScalarOf(a.item).None? && ScalarOf(b.item).None? && ScalarOf(c.item).None? && ScalarOf(d.item).None?
            ==> LastValue([a, b, c, d], name) == None
  {
    OneField(a, name);
    OneField(b, name);
    OneField(c, name);
    OneField(d, name);
    FieldsAppend([a], [b]);
    FieldsAppend([a] + [b], [c]);
    FieldsAppend([a] + [b] + [c], [d]);
    LastAppend([a], [b], name);
    LastAppend([a] + [b], [c], name);
    LastAppend([a] + [b] + [c], [d], name);
    assert [a] + [b] + [c] + [d] == [a, b, c, d];
    hide EncodeFields, LastValue, EncodeField;
  }

  lemma HeadHasNoScalar(long: bytes, double: bytes, date: bytes, id: bytes, name: bytes)
    ensures LastValue(ReplyHead(long, double, date, id), name) == None
  {
    var a, b := Field([0x61], Int64(long)), Field([0x62], Double(double));
    var c, d := Field([0x63], DateTime(date)), Field([0x64], ObjectId(id));
    assert ReplyHead(long, double, date, id) == [a, b, c, d];
    hide EncodeField, LastValue, EncodeFields;
    FourFields(a, b, c, d, name);
  }

  lemma TailEncodes(name: bytes)
    ensures EncodeFields(REPLY_TAIL) == TAIL_OCTETS
    ensures LastValue(REPLY_TAIL, name)
         == if name == [0x6a] then Some(Text([0x78])) else if name == [0x69] then Some(Number(-2))
            else if name == [0x68] then Some(Flag(true)) else None
  {
    var a, b, c := REPLY_TAIL[0], REPLY_TAIL[1], REPLY_TAIL[2];
    var d, e, f := REPLY_TAIL[3], REPLY_TAIL[4], REPLY_TAIL[5];
    TailFields();
    OneField(a, name);
    OneField(b, name);
    OneField(c, name);
    OneField(d, name);
    OneField(e, name);
    OneField(f, name);
    FieldsAppend([a], [b]);
    FieldsAppend([a] + [b], [c]);
    FieldsAppend([a] + [b] + [c], [d]);
    FieldsAppend([a] + [b] + [c] + [d], [e]);
    FieldsAppend([a] + [b] + [c] + [d] + [e], [f]);
    LastAppend([a], [b], name);
    LastAppend([a] + [b], [c], name);
    LastAppend([a] + [b] + [c], [d], name);
    LastAppend([a] + [b] + [c] + [d], [e], name);
    LastAppend([a] + [b] + [c] + [d] + [e], [f], name);
    assert [a] + [b] + [c] + [d] + [e] + [f] == REPLY_TAIL;
    hide EncodeFields, LastValue, EncodeField;
    assert [0x68] != [0x69] && [0x69] != [0x6a] && [0x68] != [0x6a];
  }

  lemma TailFields()
    ensures EncodeField(REPLY_TAIL[0]) == [0x03, 0x65, 0x00, 0x05, 0x00, 0x00, 0x00, 0x00]
    ensures EncodeField(REPLY_TAIL[1]) == [0x04, 0x66, 0x00, 0x05, 0x00, 0x00, 0x00, 0x00]
    ensures EncodeField(REPLY_TAIL[2]) == [0x0a, 0x67, 0x00] && EncodeField(REPLY_TAIL[3]) == [0x08, 0x68, 0x00, 0x01]
    ensures EncodeField(REPLY_TAIL[4]) == [0x10, 0x69, 0x00, 0xfe, 0xff, 0xff, 0xff]
    ensures EncodeField(REPLY_TAIL[5]) == [0x02, 0x6a, 0x00, 0x02, 0x00, 0x00, 0x00, 0x78, 0x00]
  {
    LittleLengths();
    hide PutLe32;
  }

  lemma LittleLengths()
    ensures PutLe32(5) == [5, 0, 0, 0] && PutLe32(2) == [2, 0, 0, 0]
    ensures PutLe32(0x1f) == [0x1f, 0, 0, 0] && PutLe32(0x5c) == [0x5c, 0, 0, 0]
    ensures PutLe32(Unsigned(-2)) == [0xfe, 0xff, 0xff, 0xff]
  {
  }

  lemma ReplyIsEncodable(long: bytes, double: bytes, date: bytes, id: bytes)
    requires |long| == |double| == |date| == 8 && |id| == 12
    ensures forall f :: f in ReplyHead(long, double, date, id) + REPLY_TAIL ==> Encodable(f)
  {
    var head := ReplyHead(long, double, date, id);
    forall f | f in head
      ensures Encodable(f)
    {
      assert f == head[0] || f == head[1] || f == head[2] || f == head[3];
    }
    forall f | f in REPLY_TAIL
      ensures Encodable(f)
    {
      var i :| 0 <= i < |REPLY_TAIL| && REPLY_TAIL[i] == f;
    }
    hide Encodable;
  }

  lemma HeadLength(long: bytes, double: bytes, date: bytes, id: bytes)
    requires |long| == |double| == |date| == 8 && |id| == 12
    ensures |HeadOctets(long, double, date, id)| == 48 && |TAIL_OCTETS| == 39
  {
  }

  lemma ReplyEncodes(long: bytes, double: bytes, date: bytes, id: bytes)
    requires |long| == |double| == |date| == 8 && |id| == 12
    ensures var fs := ReplyHead(long, double, date, id) + REPLY_TAIL;
            && EncodeDocument(fs)
               == [0x5c, 0x00, 0x00, 0x00] + (HeadOctets(long, double, date, id) + TAIL_OCTETS) + [0x00]
            && |EncodeDocument(fs)| == 0x5c
  {
    var fs := ReplyHead(long, double, date, id) + REPLY_TAIL;
    HeadEncodes(long, double, date, id);
    TailEncodes([]);
    FieldsAppend(ReplyHead(long, double, date, id), REPLY_TAIL);
    LittleLengths();
    HeadLength(long, double, date, id);
    hide EncodeFields, LastValue, PutLe32, ReplyHead, HeadOctets, TAIL_OCTETS, REPLY_TAIL;
  }

  const REPLY: fields := map[[0x68] := Flag(true), [0x69] := Number(-2), [0x6a] := Text([0x78])]

  lemma ReplyLookup(name: bytes)
    ensures Lookup(REPLY, name) == LastValue(REPLY_TAIL, name)
  {
    TailEncodes(name);
    hide LastValue, EncodeFields;
    assert [0x68] != [0x69] && [0x69] != [0x6a] && [0x68] != [0x6a];
  }

  lemma SameLookups(m: fields, n: fields)
    requires forall name :: Lookup(m, name) == Lookup(n, name)
    ensures m == n
  {
    forall name: bytes
      ensures (name in m <==> name in n) && (name in m ==> m[name] == n[name])
    {
      assert Lookup(m, name) == Lookup(n, name);
    }
  }

  /** Of that reply the scan keeps the boolean, the number and the string, and nothing else. */
  lemma ReplyIsScanned(long: bytes, double: bytes, date: bytes, id: bytes, trailing: bytes)
    requires |long| == |double| == |date| == 8 && |id| == 12
    ensures Scan([0x5c, 0x00, 0x00, 0x00] + (HeadOctets(long, double, date, id) + TAIL_OCTETS) + [0x00] + trailing)
         == map[[0x68] := Flag(true), [0x69] := Number(-2), [0x6a] := Text([0x78])]
  {
    var fs := ReplyHead(long, double, date, id) + REPLY_TAIL;
    ReplyIsEncodable(long, double, date, id);
    ReplyEncodes(long, double, date, id);
    var m := Scan(EncodeDocument(fs) + trailing);
    assert REPLY == map[[0x68] := Flag(true), [0x69] := Number(-2), [0x6a] := Text([0x78])];
    hide *;
    forall name: bytes
      ensures Lookup(m, name) == Lookup(REPLY, name)
    {
      ScanInvertsEncoding(fs, trailing, name);
      HeadHasNoScalar(long, double, date, id, name);
      ReplyLookup(name);
      LastAppend(ReplyHead(long, double, date, id), REPLY_TAIL, name);
    }
    SameLookups(m, REPLY);
  }
}
