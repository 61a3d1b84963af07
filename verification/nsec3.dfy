/** NSEC3 denial of existence: the iterated hash of section 5 of RFC 5155 over the canonical wire name,
    its base32hex form (section 7 of RFC 4648), and the intervals of the hash circle. */
module Nsec3 {
  import Base32Hex
  import opened Bytes
  import opened Lists
  import opened Outcomes
  import opened Text

  // ---- The hash circle ----

  function Covers(owner: string, next: string, hashed: string): bool {
    var o, n, h := ToLower(owner), ToLower(next), ToLower(hashed);
    if StrLt(o, n) then StrLt(o, h) && StrLt(h, n) else StrLt(o, h) || StrLt(h, n)
  }

  predicate Increasing(hashes: seq<string>) {
    forall i, j :: 0 <= i < j < |hashes| ==> StrLt(ToLower(hashes[i]), ToLower(hashes[j]))
  }

  /** The i-th record of a chain runs from its owner hash to the next one, the last to the first. */
  predicate RecordCovers(hashes: seq<string>, i: nat, hashed: string)
    requires i < |hashes|
  {
    Covers(hashes[i], hashes[(i + 1) % |hashes|], hashed)
  }

  predicate InChain(hashes: seq<string>, hashed: string) {
    exists i :: 0 <= i < |hashes| && ToLower(hashes[i]) == ToLower(hashed)
  }

  /** How many hashes of an increasing list lie below h. */
  ghost predicate Splits(hashes: seq<string>, h: string, k: nat) {
    && k <= |hashes|
    && (forall i :: 0 <= i < k ==> StrLt(ToLower(hashes[i]), h))
    && (forall i :: k <= i < |hashes| ==> StrLt(h, ToLower(hashes[i])))
  }

  lemma {:induction false} SplitPoint(hashes: seq<string>, h: string) returns (k: nat)
    requires Increasing(hashes)
    requires forall i :: 0 <= i < |hashes| ==> ToLower(hashes[i]) != h
    ensures Splits(hashes, h, k)
  {
    hide StrLt, ToLower;
    if hashes == [] {
      k := 0;
    } else {
      var last := |hashes| - 1;
      StrLtTotal(ToLower(hashes[last]), h);
      if StrLt(ToLower(hashes[last]), h) {
        k := |hashes|;
        forall i | 0 <= i < last
          ensures StrLt(ToLower(hashes[i]), h)
        {
          StrLtTransitive(ToLower(hashes[i]), ToLower(hashes[last]), h);
        }
      } else {
        k := SplitPoint(hashes[..last], h);
        assert forall i :: 0 <= i < last ==> hashes[..last][i] == hashes[i];
      }
    }
  }

  lemma CoverageAtSplit(hashes: seq<string>, hashed: string, k: nat, i: nat)
    requires Increasing(hashes) && Splits(hashes, ToLower(hashed), k) && i < |hashes|
    ensures RecordCovers(hashes, i, hashed) <==> i == if k == 0 then |hashes| - 1 else k - 1
  {
    hide StrLt, ToLower;
    var n := |hashes|;
    var h := ToLower(hashed);
    StrLtTotal(ToLower(hashes[i]), h);
    StrLtTotal(ToLower(hashes[(i + 1) % n]), h);
    StrLtTotal(ToLower(hashes[i]), ToLower(hashes[(i + 1) % n]));
    if i + 1 < n {
      assert (i + 1) % n == i + 1;
    } else {
      assert (i + 1) % n == 0;
    }
  }

  lemma ChainHashIsNotCovered(hashes: seq<string>, hashed: string, i: nat, j: nat)
    requires Increasing(hashes) && i < |hashes| && j < |hashes|
    requires ToLower(hashes[j]) == ToLower(hashed)
    ensures !RecordCovers(hashes, i, hashed)
  {
    hide StrLt, ToLower;
    var n := |hashes|;
    var next := if i + 1 < n then i + 1 else 0;
    assert (i + 1) % n == next;
    var o, x, h := ToLower(hashes[i]), ToLower(hashes[next]), ToLower(hashed);
    StrLtTotal(o, h);
    StrLtTotal(x, h);
    StrLtTotal(o, x);
  }

  /** The records of a circular chain, down to a single one, partition the hash circle without its
      points: a hash outside the chain is covered by exactly one record, a hash in it by none. */
  lemma Partition(hashes: seq<string>, hashed: string)
    requires Increasing(hashes) && hashes != []
    ensures InChain(hashes, hashed) ==> forall i :: 0 <= i < |hashes| ==> !RecordCovers(hashes, i, hashed)
    ensures !InChain(hashes, hashed) ==>
              exists i :: 0 <= i < |hashes| && RecordCovers(hashes, i, hashed)
                          && forall j :: 0 <= j < |hashes| && RecordCovers(hashes, j, hashed) ==> j == i
  {
    hide RecordCovers, ToLower, StrLt;
    if InChain(hashes, hashed) {
      var j :| 0 <= j < |hashes| && ToLower(hashes[j]) == ToLower(hashed);
      forall i | 0 <= i < |hashes|
        ensures !RecordCovers(hashes, i, hashed)
      {
        ChainHashIsNotCovered(hashes, hashed, i, j);
      }
    } else {
      var k := SplitPoint(hashes, ToLower(hashed));
      forall i | 0 <= i < |hashes|
        ensures RecordCovers(hashes, i, hashed) <==> i == if k == 0 then |hashes| - 1 else k - 1
      {
        CoverageAtSplit(hashes, hashed, k, i);
      }
      assert RecordCovers(hashes, if k == 0 then |hashes| - 1 else k - 1, hashed);
    }
  }

  datatype Record = Record(owner: string, next: string)

  datatype Proof = Proven(owner: string, next: string) | Unproven

  function ChainRecords(hashes: seq<string>): (records: seq<Record>)
    ensures |records| == |hashes|
  {
    seq(|hashes|, i requires 0 <= i < |hashes| => Record(hashes[i], hashes[(i + 1) % |hashes|]))
  }

  /** The search through the records of a denial: the first one that covers the hash. */
  method Prove(records: seq<Record>, hashed: string) returns (p: Proof)
    ensures p.Unproven? ==> forall r :: r in records ==> !Covers(ToLower(r.owner), ToLower(r.next), hashed)
    ensures p.Proven? ==>
              exists k :: 0 <= k < |records|
                          && p == Proven(ToLower(records[k].owner), ToLower(records[k].next))
                          && Covers(p.owner, p.next, hashed)
                          && forall j :: 0 <= j < k ==>
                               !Covers(ToLower(records[j].owner), ToLower(records[j].next), hashed)
  {
    hide Covers;
    for i := 0 to |records|
      invariant forall j :: 0 <= j < i ==> !Covers(ToLower(records[j].owner), ToLower(records[j].next), hashed)
    {
      var owner, next := ToLower(records[i].owner), ToLower(records[i].next);
      if Covers(owner, next, hashed) {
        return Proven(owner, next);
      }
    }
    p := Unproven;
  }

  lemma CoversIgnoresCase(owner: string, next: string, hashed: string)
    ensures Covers(ToLower(owner), ToLower(next), hashed) == Covers(owner, next, hashed)
  {
    hide StrLt;
    LowerIsStable(owner);
    LowerIsStable(next);
  }

  /** Given the whole chain of a zone, the search ends with a proof exactly when the hash is not one of
      the zone's. */
  lemma WholeChainDecides(hashes: seq<string>, hashed: string)
    requires Increasing(hashes) && hashes != []
    ensures (exists r :: r in ChainRecords(hashes) && Covers(ToLower(r.owner), ToLower(r.next), hashed))
       <==> !InChain(hashes, hashed)
  {
    var records := ChainRecords(hashes);
    Partition(hashes, hashed);
    hide Covers, Increasing, InChain;
    forall i | 0 <= i < |hashes|
      ensures records[i] in records
      ensures Covers(ToLower(records[i].owner), ToLower(records[i].next), hashed) == RecordCovers(hashes, i, hashed)
    {
      CoversIgnoresCase(records[i].owner, records[i].next, hashed);
    }
  }

  /** Comparing the encoded hashes is comparing the digests as octet strings: on digests of one length,
      in whole groups of five octets, the interval test means what it says. */
  lemma CoversComparesDigests(owner: bytes, next: bytes, hashed: bytes)
    requires |owner| == |next| == |hashed| && |hashed| % 5 == 0
    ensures Covers(Base32Hex.Encode(owner), Base32Hex.Encode(next), Base32Hex.Encode(hashed))
         == if Base32Hex.LexLt(owner, next)
            then Base32Hex.LexLt(owner, hashed) && Base32Hex.LexLt(hashed, next)
            else Base32Hex.LexLt(owner, hashed) || Base32Hex.LexLt(hashed, next)
  {
    hide StrLt, Base32Hex.LexLt, Base32Hex.Encode, ToLower;
    Base32Hex.EncodeIsLower(owner);
    Base32Hex.EncodeIsLower(next);
    Base32Hex.EncodeIsLower(hashed);
    Base32Hex.EncodeKeepsOrder(owner, next);
    Base32Hex.EncodeKeepsOrder(owner, hashed);
    Base32Hex.EncodeKeepsOrder(hashed, next);
  }

  // ---- The canonical wire name ----

  const MAX_LABEL := 63

  function WireLabel(l: string): bytes {
    [|l| % 0x100] + Octets(ToLower(l))
  }

  function WireLabels(labels: seq<string>): bytes {
    if labels == [] then [] else WireLabel(labels[0]) + WireLabels(labels[1..])
  }

  function WithoutDot(name: string): string {
    if name != "" && name[|name| - 1] == '.' then name[..|name| - 1] else name
  }

  /** The labels of a name, which may or may not end with the root's dot. */
  function LabelsOf(name: string): seq<string> {
    if name == "" || name == "." then [] else Split(WithoutDot(name), '.')
  }

  predicate Short(labels: seq<string>) {
    forall i :: 0 <= i < |labels| ==> |labels[i]| <= MAX_LABEL
  }

  lemma ShortMeans(labels: seq<string>)
    ensures Short(labels) <==> !exists i :: 0 <= i < |labels| && |labels[i]| > 63
  {
  }

  lemma {:induction false} WireLabelsAppend(labels: seq<string>, l: string)
    ensures WireLabels(labels + [l]) == WireLabels(labels) + WireLabel(l)
  {
    hide WireLabel;
    if labels == [] {
      assert labels + [l] == [l] && [l][1..] == [];
    } else {
      assert (labels + [l])[1..] == labels[1..] + [l];
      WireLabelsAppend(labels[1..], l);
    }
  }

  method WireOfName(name: string) returns (r: Option<bytes>)
    ensures r == if Short(LabelsOf(name)) then Some(WireLabels(LabelsOf(name)) + [0]) else None
  {
    assert WireLabels([]) + [0] == [0];
    assert WireLabels([]) == [];
    hide Split, WireLabels, ToLower, Octets;
    if name == "" || name == "." {
      return Some([0]);
    }
    var n := name;
    if n[|n| - 1] != '.' {
      n := n + ".";
    }
    assert n[..|n| - 1] == WithoutDot(name);
    var labels := Split(n[..|n| - 1], '.');
    var out: bytes := [];
    for i := 0 to |labels|
      invariant out == WireLabels(labels[..i])
      invariant Short(labels[..i])
    {
      var l := labels[i];
      if |l| > MAX_LABEL {
        return None;
      }
      assert labels[..i + 1] == labels[..i] + [l];
      WireLabelsAppend(labels[..i], l);
      out := out + ([|l| % 0x100] + Octets(ToLower(l)));
    }
    assert labels[..|labels|] == labels;
    out := out + [0];
    r := Some(out);
  }

  method CanonicalNameWire(name: string) returns (r: Option<bytes>)
    ensures r == if Short(LabelsOf(name)) then Some(WireLabels(LabelsOf(name)) + [0]) else None
    ensures r == None <==> exists i :: 0 <= i < |LabelsOf(name)| && |LabelsOf(name)[i]| > 63
  {
    r := WireOfName(name);
    ShortMeans(LabelsOf(name));
    hide *;
  }

  /** The reader of the wire form: length octet, label, ..., zero. */
  function ReadWire(w: bytes): Option<seq<bytes>>
    decreases |w|
  {
    if w == [] then None
    else if w[0] == 0 then (if |w| == 1 then Some([]) else None)
    else if 1 + w[0] as int > |w| then None
    else
      match ReadWire(w[1 + w[0] as int..])
      case None => None
      case Some(rest) => Some([w[1..1 + w[0] as int]] + rest)
  }

  function Lowered(labels: seq<string>): (ls: seq<bytes>)
    ensures |ls| == |labels|
  {
    seq(|labels|, i requires 0 <= i < |labels| => Octets(ToLower(labels[i])))
  }

  predicate NonEmpty(labels: seq<string>) {
    forall i :: 0 <= i < |labels| ==> labels[i] != ""
  }

  lemma ReadWireLabel(l: string, tail: bytes)
    requires 0 < |l| <= MAX_LABEL
    ensures ReadWire(WireLabel(l) + tail)
         == match ReadWire(tail) case None => None case Some(rest) => Some([Octets(ToLower(l))] + rest)
  {
    hide Octets, ToLower;
    var w := WireLabel(l) + tail;
    assert w[1..1 + |l|] == Octets(ToLower(l));
    assert w[1 + |l|..] == tail;
  }

  /** The wire form of a name is read back as its labels in lower case exactly when none is empty. */
  lemma {:induction false} WireIsDecodable(labels: seq<string>)
    requires Short(labels)
    ensures ReadWire(WireLabels(labels) + [0]) == Some(Lowered(labels)) <==> NonEmpty(labels)
  {
    hide *;
    LabelConditions(labels);
    if labels == [] {
      NoLabels();
    } else if labels[0] == "" {
      LabelStep(labels);
      EmptyLabelStops(labels[0], WireLabels(labels[1..]) + [0]);
    } else {
      LabelStep(labels);
      var rest := WireLabels(labels[1..]) + [0];
      WireIsDecodable(labels[1..]);
      ReadWireLabel(labels[0], rest);
      if ReadWire(rest).Some? {
        ConcatEqual([Octets(ToLower(labels[0]))], ReadWire(rest).value,
                    [Octets(ToLower(labels[0]))], Lowered(labels[1..]));
      }
    }
  }

  lemma NoLabels()
    ensures ReadWire(WireLabels([]) + [0]) == Some(Lowered([]))
  {
    assert WireLabels([]) + [0] == [0];
  }

  lemma EmptyLabelStops(l: string, rest: bytes)
    requires l == "" && rest != []
    ensures ReadWire(WireLabel(l) + rest) == None
  {
    hide ToLower;
  }

  lemma LabelStep(labels: seq<string>)
    requires Short(labels) && labels != []
    ensures WireLabels(labels) + [0] == WireLabel(labels[0]) + (WireLabels(labels[1..]) + [0])
    ensures Lowered(labels) == [Octets(ToLower(labels[0]))] + Lowered(labels[1..])
  {
    hide WireLabel, Octets, ToLower;
  }

  lemma LabelConditions(labels: seq<string>)
    ensures labels == [] ==> NonEmpty(labels)
    ensures labels != [] && Short(labels) ==> |labels[0]| <= MAX_LABEL && Short(labels[1..])
    ensures labels != [] ==> (NonEmpty(labels) <==> labels[0] != "" && NonEmpty(labels[1..]))
  {
    assert forall i :: 0 < i < |labels| ==> labels[i] == labels[1..][i - 1];
  }

  predicate DotFree(labels: seq<string>) {
    forall i :: 0 <= i < |labels| ==> '.' !in labels[i]
  }

  /** The labels of a dotted name, with or without the root's dot at its end, are what it was joined
      from. */
  lemma LabelsOfName(labels: seq<string>)
    requires NonEmpty(labels) && DotFree(labels)
    ensures LabelsOf(Join(labels, ".") + ".") == labels
    ensures LabelsOf(Join(labels, ".")) == labels
  {
    if labels != [] {
      var name := Join(labels, ".");
      JoinEndsInLabel(labels);
      assert (name + ".")[..|name|] == name;
      hide Join;
      SplitJoin(labels, '.');
    }
  }

  lemma {:induction false} JoinEndsInLabel(labels: seq<string>)
    requires labels != [] && NonEmpty(labels) && DotFree(labels)
    ensures Join(labels, ".") != "" && Join(labels, ".")[|Join(labels, ".")| - 1] != '.'
  {
    if |labels| == 1 {
      var l := labels[0];
      assert l[|l| - 1] in l;
    } else {
      JoinEndsInLabel(labels[1..]);
    }
  }

  /** Two names have the same hash input exactly when their labels agree up to case. */
  lemma WireIsInjective(a: seq<string>, b: seq<string>)
    requires Short(a) && Short(b) && NonEmpty(a) && NonEmpty(b)
    ensures WireLabels(a) + [0] == WireLabels(b) + [0] <==> Lowered(a) == Lowered(b)
  {
    hide ReadWire, WireLabels, Lowered;
    WireIsDecodable(a);
    WireIsDecodable(b);
    if Lowered(a) == Lowered(b) {
      SameLabelsSameWire(a, b);
    }
  }

  lemma {:induction false} SameLabelsSameWire(a: seq<string>, b: seq<string>)
    requires Lowered(a) == Lowered(b)
    ensures WireLabels(a) == WireLabels(b)
  {
    hide Octets, ToLower;
    if a != [] {
      assert Lowered(a)[0] == Octets(ToLower(a[0])) && Lowered(b)[0] == Octets(ToLower(b[0]));
      assert Lowered(a)[1..] == Lowered(a[1..]) && Lowered(b)[1..] == Lowered(b[1..]);
      SameLabelsSameWire(a[1..], b[1..]);
    }
  }

  // ---- The salt ----

  function HexVal(c: char): Option<byte> {
    if '0' <= c <= '9' then Some(c as int - '0' as int)
    else if 'a' <= c <= 'f' then Some(c as int - 'a' as int + 10)
    else if 'A' <= c <= 'F' then Some(c as int - 'A' as int + 10)
    else None
  }

  /** Pairs of hex digits from the front; an odd last character is never looked at. */
  function HexBytes(t: string): Option<bytes> {
    if |t| < 2 then Some([])
    else
      match (HexVal(t[0]), HexVal(t[1]), HexBytes(t[2..]))
      case (Some(hi), Some(lo), Some(rest)) => Some([(hi as int * 16 + lo) % 0x100] + rest)
      case _ => None
  }

  function SaltOf(s: string): Option<bytes> {
    var t := TrimSpace(s);
    if t == "" || t == "-" then Some([]) else HexBytes(t)
  }

  /** Octets already decoded, in front of what the rest yields. */
  function Behind(done: bytes, rest: Option<bytes>): Option<bytes> {
    match rest
    case None => None
    case Some(more) => Some(done + more)
  }

  lemma HexStep(t: string, i: nat, done: bytes)
    requires 2 * i + 1 < |t|
    ensures var hi, lo := HexVal(t[2 * i]), HexVal(t[2 * i + 1]);
            Behind(done, HexBytes(t[2 * i..]))
            == if hi.None? || lo.None? then None
               else Behind(done + [(hi.value as int * 16 + lo.value) % 0x100], HexBytes(t[2 * (i + 1)..]))
  {
    hide HexVal;
    assert t[2 * i..][2..] == t[2 * (i + 1)..];
    var hi, lo, rest := HexVal(t[2 * i]), HexVal(t[2 * i + 1]), HexBytes(t[2 * (i + 1)..]);
    if hi.Some? && lo.Some? && rest.Some? {
      var x: byte := (hi.value as int * 16 + lo.value) % 0x100;
      assert done + ([x] + rest.value) == (done + [x]) + rest.value;
    }
  }

  lemma HexUnits(t: string, done: bytes, r: Option<bytes>)
    ensures Behind([], r) == r
    ensures Behind(done, HexBytes(t[2 * (|t| / 2)..])) == Some(done)
  {
    assert done + [] == done;
    if r.Some? {
      assert [] + r.value == r.value;
    }
  }

  /** The buffer has half the length of the string and is filled from the front. */
  method HexLoop(t: string) returns (r: Option<bytes>)
    ensures r == HexBytes(t)
  {
    hide *;
    var out := new byte[|t| / 2];
    HexUnits(t, [], HexBytes(t));
    assert t[2 * 0..] == t && out[..0] == [];
    for i := 0 to out.Length
      invariant Behind(out[..i], HexBytes(t[2 * i..])) == HexBytes(t)
    {
      HexStep(t, i, out[..i]);
      var hi, lo := HexVal(t[2 * i]), HexVal(t[2 * i + 1]);
      if hi.None? || lo.None? {
        return None;
      }
      ghost var done := out[..i];
      out[i] := (hi.value as int * 16 + lo.value) % 0x100;
      assert out[..i + 1] == done + [out[i]];
    }
    HexUnits(t, out[..], None);
    assert out[..out.Length] == out[..];
    r := Some(out[..]);
  }

  method HexDecodeOrEmpty(s: string) returns (r: Option<bytes>)
    ensures r == SaltOf(s)
  {
    hide TrimSpace, HexBytes;
    var t := TrimSpace(s);
    if t == "" || t == "-" {
      return Some([]);
    }
    r := HexLoop(t);
  }

  function HexDigit(d: nat, upper: bool): (c: char)
    requires d < 16
    ensures HexVal(c) == Some(d) && !IsSpace(c) && c != '-'
  {
    if d < 10 then '0' + d as char else (if upper then 'A' else 'a') + (d - 10) as char
  }

  function Hex(b: bytes, upper: bool): (t: string)
    ensures |t| == 2 * |b|
    ensures forall i :: 0 <= i < |t| ==> !IsSpace(t[i])
  {
    if b == [] then "" else [HexDigit(b[0] / 16, upper), HexDigit(b[0] % 16, upper)] + Hex(b[1..], upper)
  }

  lemma {:induction false} HexBytesOfHex(b: bytes, upper: bool, odd: string)
    requires |odd| <= 1
    ensures HexBytes(Hex(b, upper) + odd) == Some(b)
  {
    hide *;
    if b == [] {
      NoDigits(odd, upper);
    } else {
      HexBytesOfHex(b[1..], upper, odd);
      HexPrepend(b[0], Hex(b[1..], upper) + odd, upper);
      HexUnfolds(b, upper);
      assert Hex(b, upper) + odd
          == [HexDigit(b[0] / 16, upper), HexDigit(b[0] % 16, upper)] + (Hex(b[1..], upper) + odd);
      assert b == [b[0]] + b[1..];
    }
  }

  lemma NoDigits(odd: string, upper: bool)
    requires |odd| <= 1
    ensures HexBytes(Hex([], upper) + odd) == Some([])
  {
  }

  lemma HexUnfolds(b: bytes, upper: bool)
    requires b != []
    ensures Hex(b, upper) == [HexDigit(b[0] / 16, upper), HexDigit(b[0] % 16, upper)] + Hex(b[1..], upper)
  {
  }

  lemma HexPrepend(x: byte, t: string, upper: bool)
    ensures HexBytes([HexDigit(x / 16, upper), HexDigit(x % 16, upper)] + t)
         == match HexBytes(t) case None => None case Some(rest) => Some([x] + rest)
  {
    hide HexDigit, HexVal;
    var s := [HexDigit(x / 16, upper), HexDigit(x % 16, upper)] + t;
    assert s[2..] == t;
  }

  /** Decoding undoes hex encoding in either case. */
  lemma SaltInvertsHex(b: bytes, upper: bool)
    ensures SaltOf(Hex(b, upper)) == Some(b)
  {
    TrimNothing(Hex(b, upper));
    HexBytesOfHex(b, upper, "");
    assert Hex(b, upper) + "" == Hex(b, upper);
  }

  /** An odd last character is dropped, whatever it is. */
  lemma OddDigitIsDropped(b: bytes, upper: bool, last: char)
    requires b != [] && !IsSpace(last)
    ensures SaltOf(Hex(b, upper) + [last]) == Some(b)
  {
    var t := Hex(b, upper) + [last];
    assert t[0] == Hex(b, upper)[0];
    TrimNothing(t);
    HexBytesOfHex(b, upper, [last]);
  }

  /** The characters the decoder looks at: all of them, or all but the last of an odd number. */
  function Paired(t: string): string {
    t[..|t| / 2 * 2]
  }

  predicate AllHex(t: string) {
    forall i :: 0 <= i < |t| ==> HexVal(t[i]).Some?
  }

  lemma HexOfVal(c: char)
    requires HexVal(c).Some?
    ensures HexVal(c).value < 16 && HexDigit(HexVal(c).value, false) == LowerChar(c)
  {
  }

  lemma TwoDigits(hi: nat, lo: nat)
    requires hi < 16 && lo < 16
    ensures (hi * 16 + lo) % 0x100 / 16 == hi && (hi * 16 + lo) % 0x100 % 16 == lo
  {
  }

  lemma PairCons(c: char, d: char, q: string)
    ensures AllHex([c, d] + q) <==> HexVal(c).Some? && HexVal(d).Some? && AllHex(q)
    ensures ToLower([c, d] + q) == [LowerChar(c), LowerChar(d)] + ToLower(q)
  {
    hide HexVal, LowerChar;
    AllHexCons(c, [d] + q);
    AllHexCons(d, q);
    LowerCons(c, [d] + q);
    LowerCons(d, q);
    hide AllHex, ToLower;
    assert [c, d] + q == [c] + ([d] + q);
    assert [LowerChar(c), LowerChar(d)] + ToLower(q) == [LowerChar(c)] + ([LowerChar(d)] + ToLower(q));
  }

  lemma AllHexCons(c: char, q: string)
    ensures AllHex([c] + q) <==> HexVal(c).Some? && AllHex(q)
  {
    hide HexVal;
    var p := [c] + q;
    assert p[0] == c;
    assert forall i :: 0 <= i < |q| ==> p[i + 1] == q[i];
  }

  lemma LowerCons(c: char, q: string)
    ensures ToLower([c] + q) == [LowerChar(c)] + ToLower(q)
  {
    hide LowerChar;
  }

  lemma PairedStep(t: string)
    requires |t| >= 2
    ensures Paired(t) == [t[0], t[1]] + Paired(t[2..])
    ensures AllHex(Paired(t)) <==> HexVal(t[0]).Some? && HexVal(t[1]).Some? && AllHex(Paired(t[2..]))
    ensures ToLower(Paired(t)) == [LowerChar(t[0]), LowerChar(t[1])] + ToLower(Paired(t[2..]))
  {
    hide HexVal, LowerChar, AllHex, ToLower;
    assert |t[2..]| / 2 * 2 == |t| / 2 * 2 - 2;
    assert Paired(t) == [t[0], t[1]] + Paired(t[2..]);
    PairCons(t[0], t[1], Paired(t[2..]));
  }

  lemma HexUndoes(t: string)
    requires |t| >= 2 && HexBytes(t).Some?
    ensures HexVal(t[0]).Some? && HexVal(t[1]).Some? && HexBytes(t[2..]).Some?
    ensures Hex(HexBytes(t).value, false)
         == [LowerChar(t[0]), LowerChar(t[1])] + Hex(HexBytes(t[2..]).value, false)
  {
    HexOfVal(t[0]);
    HexOfVal(t[1]);
    var hi, lo := HexVal(t[0]).value, HexVal(t[1]).value;
    TwoDigits(hi, lo);
    var b := HexBytes(t).value;
    assert b[0] == (hi as int * 16 + lo) % 0x100 && b[1..] == HexBytes(t[2..]).value;
    hide HexVal, HexDigit, LowerChar, HexBytes;
  }

  lemma {:induction false} HexBytesExact(t: string)
    ensures HexBytes(t).Some? <==> AllHex(Paired(t))
    ensures HexBytes(t).Some? ==> Hex(HexBytes(t).value, false) == ToLower(Paired(t))
  {
    if |t| >= 2 {
      HexBytesExact(t[2..]);
      PairedStep(t);
      if HexBytes(t).Some? {
        HexUndoes(t);
      }
      hide HexVal, LowerChar, ToLower, AllHex, Paired, Hex;
    } else {
      assert Paired(t) == "";
    }
  }

  /** The decoder accepts a salt exactly when all characters it looks at are hex digits. The octets are
      then those characters read as hex, and all of the salt exactly when its length is even. */
  lemma SaltIsExact(s: string)
    requires TrimSpace(s) != "" && TrimSpace(s) != "-"
    ensures var t := TrimSpace(s);
            && (SaltOf(s).Some? <==> AllHex(Paired(t)))
            && (SaltOf(s).Some? ==> Hex(SaltOf(s).value, false) == ToLower(Paired(t)))
            && (SaltOf(s).Some? ==> (Hex(SaltOf(s).value, false) == ToLower(t) <==> |t| % 2 == 0))
  {
    var t := TrimSpace(s);
    HexBytesExact(t);
    hide TrimSpace, HexBytes, AllHex;
    if |t| % 2 == 0 {
      assert Paired(t) == t;
    }
  }

  // ---- The iterated hash ----

  /** IH(salt, x, k) of section 5 of RFC 5155. */
  function IteratedHash(h: bytes -> bytes, salt: bytes, x: bytes, k: nat): bytes {
    if k == 0 then h(x + salt) else h(IteratedHash(h, salt, x, k - 1) + salt)
  }

  method HashLoop(h: bytes -> bytes, wire: bytes, salt: bytes, iterations: nat) returns (cur: bytes)
    ensures cur == IteratedHash(h, salt, wire, iterations)
    ensures iterations == 0 ==> cur == h(wire + salt)
    ensures iterations == 1 ==> cur == h(h(wire + salt) + salt)
  {
    cur := h(wire + salt);
    for i := 0 to iterations
      invariant cur == IteratedHash(h, salt, wire, i)
      invariant i == 0 ==> cur == h(wire + salt)
      invariant i == 1 ==> cur == h(h(wire + salt) + salt)
    {
      cur := h(cur + salt);
    }
  }

  /** No iteration hashes anything but a digest, or first the name, with the salt behind. */
  lemma {:induction false} EachHash(h: bytes -> bytes, salt: bytes, x: bytes, digests: seq<bytes>)
    requires digests != [] && digests[0] == h(x + salt)
    requires forall i :: 0 <= i < |digests| - 1 ==> digests[i + 1] == h(digests[i] + salt)
    ensures IteratedHash(h, salt, x, |digests| - 1) == digests[|digests| - 1]
  {
    var n := |digests| - 1;
    if n > 0 {
      EachHash(h, salt, x, digests[..n]);
      assert digests[n - 1 + 1] == h(digests[n - 1] + salt);
    }
  }

  const SHA1_SIZE := 20

  ghost predicate IsSha1(h: bytes -> bytes) {
    forall x :: |h(x)| == SHA1_SIZE
  }

  lemma HashSize(h: bytes -> bytes, salt: bytes, x: bytes, k: nat)
    requires IsSha1(h)
    ensures |IteratedHash(h, salt, x, k)| == SHA1_SIZE
  {
  }

  /** The empty string stands for a name or a salt that cannot be used; otherwise the result is the
      encoded iterated hash of the wire name, 32 characters long. */
  method Nsec3Hash(h: bytes -> bytes, name: string, saltHex: string, iterations: nat) returns (r: string)
    requires IsSha1(h)
    ensures r == "" <==> !Short(LabelsOf(name)) || SaltOf(saltHex).None?
    ensures r != "" ==>
              var digest := IteratedHash(h, SaltOf(saltHex).value, WireLabels(LabelsOf(name)) + [0], iterations);
              |digest| == SHA1_SIZE && r == Base32Hex.Encode(digest) && |r| == 32
  {
    hide Base32Hex.Encode, IteratedHash, LabelsOf, WireLabels, Short, SaltOf;
    var wire := CanonicalNameWire(name);
    if wire.None? {
      return "";
    }
    var salt := HexDecodeOrEmpty(saltHex);
    if salt.None? {
      return "";
    }
    var cur := HashLoop(h, wire.value, salt.value, iterations);
    HashSize(h, salt.value, wire.value, iterations);
    r := Base32Hex.Encode(cur);
    Base32Hex.EncodeIsLower(cur);
  }
}
