/** TLS 1.3 record protection (sections 5.2 to 5.4 of RFC 8446): one direction's keys and its
    sequence counter. The AEAD and the key derivation are parameters with their laws. */
module Tls13Record {
  import opened Bytes
  import opened Outcomes

  const RECORD_CHANGE_CIPHER_SPEC: byte := 20
  const RECORD_ALERT: byte := 21
  const RECORD_HANDSHAKE: byte := 22
  const RECORD_APPLICATION_DATA: byte := 23
  const TAG := 16
  const SEQ_MODULUS := 0x1_0000_0000_0000_0000

  /** AES-128-GCM as (key, nonce, text, additional data) functions. */
  datatype Aead = Aead(
    seal: (bytes, bytes, bytes, bytes) -> bytes,
    open: (bytes, bytes, bytes, bytes) -> Option<bytes>)

  ghost predicate Lawful(a: Aead) {
    && (forall k, n, p, ad :: |a.seal(k, n, p, ad)| == |p| + TAG)
    && (forall k, n, p, ad :: a.open(k, n, a.seal(k, n, p, ad), ad) == Some(p))
  }

  datatype Keys = Keys(aead: Aead, key: bytes, iv: bytes)

  ghost predicate Usable(k: Keys) {
    Lawful(k.aead) && |k.iv| == 12
  }

  datatype OpenError =
    | TooShortForHeader | OuterTypeNotAppData | LengthMismatch | ShorterThanTag
    | AuthenticationFailed | EmptyInnerPlaintext

  datatype OpenResult = Opened(content: bytes, typ: byte) | Failed(error: OpenError)

  /** The AEAD accepted the record, whatever its plaintext turned out to be. */
  predicate Authenticated(r: OpenResult) {
    r.Opened? || r.error == EmptyInnerPlaintext
  }

  function Nonce(iv: bytes, s: u64): (n: bytes)
    requires |iv| == 12
    ensures |n| == 12
  {
    iv[..4] + PutU64(XorU64(U64At(iv, 4), s))
  }

  function Header(cipherLen: nat): (h: bytes)
    ensures |h| == 5
  {
    [RECORD_APPLICATION_DATA, 3, 3] + PutU16(cipherLen)
  }

  /** TLSInnerPlaintext: content, real type, zero padding. */
  function Inner(content: bytes, typ: byte, zeros: nat): bytes {
    content + [typ] + Zeros(zeros)
  }

  /** The wire record that carries an inner plaintext under sequence number s. */
  function Sealed(k: Keys, s: u64, inner: bytes): bytes
    requires |k.iv| == 12
  {
    var header := Header(|inner| + TAG);
    header + k.aead.seal(k.key, Nonce(k.iv, s), inner, header)
  }

  /** The nonce by section 5.3 of RFC 8446: the sequence number, padded on the left with zeros to the length
      of the IV, exclusive-ored with the IV octet by octet. */
  function PeerNonce(iv: bytes, s: u64): (n: bytes)
    requires |iv| == 12
    ensures |n| == 12
  {
    seq(12, i requires 0 <= i < 12 => XorByte(iv[i], if i < 4 then 0 else OctetOf(s, 11 - i)))
  }

  /** A TLSCiphertext as any peer writes it by sections 5.2 and 5.4: type 23, version 3.3, the length of
      content, type, padding and tag, and the AEAD over the first three with the header as additional data. */
  function PeerRecord(k: Keys, s: u64, content: bytes, typ: byte, zeros: nat): bytes
    requires |k.iv| == 12
  {
    var n := |content| + 1 + zeros + 16;
    var header := [23, 3, 3, n / 0x100 % 0x100, n % 0x100];
    header + k.aead.seal(k.key, PeerNonce(k.iv, s), content + [typ] + Zeros(zeros), header)
  }

  lemma NonceIsPeers(iv: bytes, s: u64)
    requires |iv| == 12
    ensures Nonce(iv, s) == PeerNonce(iv, s)
  {
    XorOfField(iv, 4, s);
    XorNothing(iv[0]);
    XorNothing(iv[1]);
    XorNothing(iv[2]);
    XorNothing(iv[3]);
    hide PutU64, XorU64, U64At, Xor, OctetOf;
    var n, m := Nonce(iv, s), PeerNonce(iv, s);
    forall i | 0 <= i < 12
      ensures n[i] == m[i]
    {
      if i >= 4 {
        assert n[i] == PutU64(XorU64(U64At(iv, 4), s))[i - 4];
      }
    }
  }

  lemma SealedIsPeers(k: Keys, s: u64, content: bytes, typ: byte, zeros: nat)
    requires |k.iv| == 12
    ensures Sealed(k, s, Inner(content, typ, zeros)) == PeerRecord(k, s, content, typ, zeros)
  {
    NonceIsPeers(k.iv, s);
    hide Nonce, PeerNonce, Zeros;
    var n := |content| + 1 + zeros + 16;
    assert Header(n) == [23, 3, 3, n / 0x100 % 0x100, n % 0x100];
  }

  /** Content and type of an inner plaintext: the last nonzero octet is the type. */
  function Stripped(pt: bytes): OpenResult {
    if pt == [] then Failed(EmptyInnerPlaintext)
    else if pt[|pt| - 1] != 0 then Opened(pt[..|pt| - 1], pt[|pt| - 1])
    else Stripped(pt[..|pt| - 1])
  }

  function OpenAt(k: Keys, s: u64, record: bytes): OpenResult
    requires |k.iv| == 12
  {
    if |record| < 5 then Failed(TooShortForHeader)
    else if record[0] != RECORD_APPLICATION_DATA then Failed(OuterTypeNotAppData)
    else if 5 + U16At(record, 3) != |record| then Failed(LengthMismatch)
    else if U16At(record, 3) < TAG then Failed(ShorterThanTag)
    else match k.aead.open(k.key, Nonce(k.iv, s), record[5..], record[..5])
      case None => Failed(AuthenticationFailed)
      case Some(pt) => Stripped(pt)
  }

  function Next(s: u64): u64 {
    (s + 1) % SEQ_MODULUS
  }

  function SeqAfter(s: u64, r: OpenResult): u64 {
    if Authenticated(r) then Next(s) else s
  }

  /** One direction of a protected stream. */
  class RecordProtector {
    const keys: Keys
    var seqNum: u64

    ghost predicate Valid() {
      |keys.iv| == 12
    }

    /** Key and IV are expanded from the traffic secret; the counter starts at zero. */
    constructor (aead: Aead, expand: (bytes, string, nat) -> bytes, trafficSecret: bytes)
      requires forall s, l, n :: |expand(s, l, n)| == n
      ensures Valid() && seqNum == 0
      ensures keys == Keys(aead, expand(trafficSecret, "key", 16), expand(trafficSecret, "iv", 12))
    {
      keys := Keys(aead, expand(trafficSecret, "key", 16), expand(trafficSecret, "iv", 12));
      seqNum := 0;
    }

    method Open(record: bytes) returns (r: OpenResult)
      requires Valid()
      modifies this`seqNum
      ensures r == OpenAt(keys, old(seqNum), record)
      ensures seqNum == SeqAfter(old(seqNum), r)
    {
      if |record| < 5 {
        return Failed(TooShortForHeader);
      }
      if record[0] != RECORD_APPLICATION_DATA {
        return Failed(OuterTypeNotAppData);
      }
      var cipherLen := U16At(record, 3);
      if 5 + cipherLen != |record| {
        return Failed(LengthMismatch);
      }
      if cipherLen < TAG {
        return Failed(ShorterThanTag);
      }
      var decrypted := keys.aead.open(keys.key, Nonce(keys.iv, seqNum), record[5..], record[..5]);
      if decrypted.None? {
        return Failed(AuthenticationFailed);
      }
      var pt := decrypted.value;
      StrippedAuthenticates(pt);
      seqNum := (seqNum + 1) % SEQ_MODULUS;
      var i := |pt| - 1;
      assert pt[..i + 1] == pt;
      while i >= 0
        invariant -1 <= i < |pt|
        invariant Stripped(pt) == Stripped(pt[..i + 1])
      {
        var prefix := pt[..i + 1];
        assert prefix[..i] == pt[..i];
        if pt[i] != 0 {
          return Opened(pt[..i], pt[i]);
        }
        i := i - 1;
      }
      return Failed(EmptyInnerPlaintext);
    }

    method Seal(content: bytes, innerType: byte) returns (record: bytes)
      requires Valid()
      modifies this`seqNum
      ensures record == PeerRecord(keys, old(seqNum), content, innerType, 0)
      ensures seqNum == Next(old(seqNum))
    {
      var inner: bytes := [];
      inner := inner + content;
      inner := inner + [innerType];
      assert inner == Inner(content, innerType, 0);
      var cipherLen := |inner| + TAG;
      var header := [RECORD_APPLICATION_DATA, 0x03, 0x03] + PutU16(cipherLen);
      record := header + keys.aead.seal(keys.key, Nonce(keys.iv, seqNum), inner, header);
      assert record == Sealed(keys, seqNum, Inner(content, innerType, 0));
      SealedIsPeers(keys, seqNum, content, innerType, 0);
      seqNum := (seqNum + 1) % SEQ_MODULUS;
    }
  }

  // ---- What stripping means ----

  lemma {:induction false} StrippedAuthenticates(pt: bytes)
    ensures Authenticated(Stripped(pt))
  {
    if pt != [] && pt[|pt| - 1] == 0 {
      StrippedAuthenticates(pt[..|pt| - 1]);
    }
  }

  /** Stripping undoes padding of any length, for every nonzero type. */
  lemma {:induction false} StrippedInner(content: bytes, typ: byte, zeros: nat)
    requires typ != 0
    ensures Stripped(Inner(content, typ, zeros)) == Opened(content, typ)
  {
    var pt := Inner(content, typ, zeros);
    if zeros == 0 {
      assert pt[..|pt| - 1] == content;
    } else {
      assert pt[..|pt| - 1] == Inner(content, typ, zeros - 1);
      StrippedInner(content, typ, zeros - 1);
    }
  }

  /** Whatever comes out has a nonzero type, and padding it again gives the input back. */
  lemma {:induction false} StrippedIsInner(pt: bytes)
    ensures match Stripped(pt)
            case Opened(c, t) => t != 0 && |c| < |pt| && pt == Inner(c, t, |pt| - |c| - 1)
            case Failed(_) => pt == Zeros(|pt|)
  {
    if pt != [] {
      var init := pt[..|pt| - 1];
      assert pt == init + [pt[|pt| - 1]];
      if pt[|pt| - 1] == 0 {
        StrippedIsInner(init);
        var r := Stripped(init);
        if r.Opened? {
          assert Zeros(|pt| - |r.content| - 1) == Zeros(|init| - |r.content| - 1) + [0];
        }
      }
    }
  }

  // ---- One record ----

  /** Exactly when a sealed record opens to what was sealed: the type octet must be nonzero and the
      ciphertext length must fit the 16-bit field. */
  lemma SealOpens(k: Keys, s: u64, content: bytes, typ: byte, zeros: nat)
    requires Usable(k)
    ensures OpenAt(k, s, PeerRecord(k, s, content, typ, zeros)) == Opened(content, typ)
       <==> typ != 0 && |content| + 1 + zeros + 16 < 0x1_0000
  {
    SealedIsPeers(k, s, content, typ, zeros);
    hide PeerRecord;
    var inner := Inner(content, typ, zeros);
    var record := Sealed(k, s, inner);
    var header := Header(|inner| + TAG);
    assert record[..5] == header;
    assert record[5..] == k.aead.seal(k.key, Nonce(k.iv, s), inner, header);
    assert U16At(record, 3) == U16At(PutU16(|inner| + TAG), 0);
    PutGetU16(|inner| + TAG);
    if |inner| + TAG < 0x1_0000 {
      assert OpenAt(k, s, record) == Stripped(inner);
      if typ != 0 {
        StrippedInner(content, typ, zeros);
      } else {
        StrippedIsInner(inner);
      }
    }
  }

  // ---- Nonces ----

  lemma NonceInjective(iv: bytes, s: u64, t: u64)
    requires |iv| == 12 && Nonce(iv, s) == Nonce(iv, t)
    ensures s == t
  {
    var base := U64At(iv, 4);
    assert PutU64(XorU64(base, s)) == Nonce(iv, s)[4..];
    assert PutU64(XorU64(base, t)) == Nonce(iv, t)[4..];
    PutGetU64(XorU64(base, s));
    PutGetU64(XorU64(base, t));
    XorCommutes(base, s);
    XorCommutes(base, t);
    XorCancels(s, base);
    XorCancels(t, base);
  }

  /** Within 2^64 consecutive records of one direction no nonce is used twice. */
  lemma NoncesNeverRepeat(iv: bytes, start: u64, i: nat, j: nat)
    requires |iv| == 12 && i < j < i + SEQ_MODULUS
    ensures Nonce(iv, (start + i) % SEQ_MODULUS) != Nonce(iv, (start + j) % SEQ_MODULUS)
  {
    var a, b := (start + i) % SEQ_MODULUS, (start + j) % SEQ_MODULUS;
    if Nonce(iv, a) == Nonce(iv, b) {
      NonceInjective(iv, a, b);
    }
  }

  // ---- Whole runs ----

  /** What arrives on a direction: records its peer sealed, and anything else. */
  datatype Arrival = Genuine(content: bytes, typ: byte, zeros: nat) | Noise(record: bytes)

  function SenderSeq(s: u64, items: seq<Arrival>): u64
    decreases items
  {
    if items == [] then s
    else SenderSeq(if items[0].Genuine? then Next(s) else s, items[1..])
  }

  function OnWire(k: Keys, s: u64, items: seq<Arrival>): seq<bytes>
    requires |k.iv| == 12
    decreases items
  {
    if items == [] then []
    else match items[0]
      case Genuine(c, t, z) => [PeerRecord(k, s, c, t, z)] + OnWire(k, Next(s), items[1..])
      case Noise(r) => [r] + OnWire(k, s, items[1..])
  }

  datatype Run = Run(results: seq<OpenResult>, seqNum: u64)

  /** Opening records one after the other, as successive calls of Open do. */
  function OpenRun(k: Keys, s: u64, records: seq<bytes>): Run
    requires |k.iv| == 12
    decreases records
  {
    if records == [] then Run([], s)
    else
      var r := OpenAt(k, s, records[0]);
      var rest := OpenRun(k, SeqAfter(s, r), records[1..]);
      Run([r] + rest.results, rest.seqNum)
  }

  /** Sealed records are within the limits of SealOpens; the others do not authenticate. */
  ghost predicate Admissible(k: Keys, s: u64, items: seq<Arrival>)
    requires |k.iv| == 12
    decreases items
  {
    items != [] ==>
      match items[0]
      case Genuine(c, t, z) =>
        t != 0 && |c| + 1 + z + TAG < 0x1_0000 && Admissible(k, Next(s), items[1..])
      case Noise(r) => !Authenticated(OpenAt(k, s, r)) && Admissible(k, s, items[1..])
  }

  /** Two ends with the same keys and counter stay in lockstep over any run: every sealed record is
      opened to exactly its content and type whatever padding it carries, records that do not
      authenticate are refused without disturbing the rest, and the counters agree at the end. */
  lemma {:induction false} Lockstep(k: Keys, s: u64, items: seq<Arrival>)
    requires Usable(k) && Admissible(k, s, items)
    ensures var run := OpenRun(k, s, OnWire(k, s, items));
            && run.seqNum == SenderSeq(s, items)
            && |run.results| == |items|
            && forall i :: 0 <= i < |items| ==>
                 match items[i]
                 case Genuine(c, t, _) => run.results[i] == Opened(c, t)
                 case Noise(_) => !Authenticated(run.results[i])
    decreases items
  {
    if items != [] {
      var wire := OnWire(k, s, items);
      match items[0] {
        case Genuine(c, t, z) =>
          SealOpens(k, s, c, t, z);
          assert wire[1..] == OnWire(k, Next(s), items[1..]);
          Lockstep(k, Next(s), items[1..]);
        case Noise(r) =>
          assert wire[1..] == OnWire(k, s, items[1..]);
          Lockstep(k, s, items[1..]);
      }
    }
  }

  function CountAuthenticated(rs: seq<OpenResult>): nat {
    if rs == [] then 0 else (if Authenticated(rs[0]) then 1 else 0) + CountAuthenticated(rs[1..])
  }

  lemma NextAdds(s: u64, n: nat)
    ensures (Next(s) + n) % SEQ_MODULUS == (s + 1 + n) % SEQ_MODULUS
  {
  }

  /** On arbitrary input the counter is the number of records the AEAD accepted. */
  lemma {:induction false} CounterCountsAuthenticated(k: Keys, s: u64, records: seq<bytes>)
    requires |k.iv| == 12
    ensures var run := OpenRun(k, s, records);
            run.seqNum == (s + CountAuthenticated(run.results)) % SEQ_MODULUS
    decreases records
  {
    if records != [] {
      var r := OpenAt(k, s, records[0]);
      var rest := OpenRun(k, SeqAfter(s, r), records[1..]);
      CounterCountsAuthenticated(k, SeqAfter(s, r), records[1..]);
      var all := OpenRun(k, s, records);
      assert all.results[0] == r && all.results[1..] == rest.results;
      NextAdds(s, CountAuthenticated(rest.results));
    }
  }
}
