/** The authentication chain of section 5 of RFC 4035, stated from the answers alone: a record set is
    authentic when any of its signatures verifies under a key of an authentic key set, and a key set is
    authentic when it is signed by a key that a trust anchor or an authentic DS record speaks for. Beside it
    the walk of the code, which keeps one signature per answer and takes key sets on trust. The checks of
    section 5.3.1 on one signature and one key are what the verify parameter stands for. */
module DnssecStrict {
  import opened Lists
  import opened Outcomes
  import opened Text
  import opened DnssecChain

  // ---- The chain of the standard ----

  /** The signature names the key by tag and algorithm, and verifies under it. */
  predicate GoodUnder(w: World, sig: Sig, k: Key, rrset: seq<Rr>) {
    w.keyTag(k) == sig.keyTag && k.algorithm == sig.algorithm && w.verify(sig, k, rrset)
  }

  /** Some signature over the type in the answer, first or last, is a good one by key k. */
  ghost predicate SignedBy(w: World, rrs: seq<Rr>, t: QType, k: Key) {
    exists sig :: SigRr(t, sig) in rrs && GoodUnder(w, sig, k, SetIn(rrs, t))
  }

  /** The records of the type are there and signed by one of the keys. */
  ghost predicate Authentic(w: World, name: string, t: QType, keys: seq<Key>) {
    match w.resolve(name, t)
    case Err(_) => false
    case Ok(rrs) => SetIn(rrs, t) != [] && exists k :: k in keys && SignedBy(w, rrs, t, k)
  }

  /** Hex text compares without regard to case, and white space in it is not significant. */
  predicate SameDigest(text: string, digest: string) {
    EqualFold(text, digest) || EqualFold(WithoutSpaces(text), digest)
  }

  predicate MatchesAnchor(w: World, k: Key, a: Anchor) {
    && w.keyTag(k) == a.keyTag && k.algorithm == a.algorithm
    && w.toDs(k, a.digestType).Some? && SameDigest(a.digest, w.toDs(k, a.digestType).value)
  }

  /** The DS record names the key by tag and algorithm and holds its digest, in hex of either case. */
  predicate Digests(w: World, ds: Ds, k: Key) {
    && w.keyTag(k) == ds.keyTag && k.algorithm == ds.algorithm
    && w.toDs(k, ds.digestType).Some? && ToLower(w.toDs(k, ds.digestType).value) == ToLower(ds.digest)
  }

  /** A trust anchor, or a DS record served for the zone, speaks for the key. */
  ghost predicate SpokenFor(w: World, zones: seq<string>, j: nat, k: Key)
    requires j < |zones|
  {
    if j == 0 then exists a :: a in ROOT_ANCHORS && MatchesAnchor(w, k, a)
    else match w.resolve(zones[j], DS)
      case Err(_) => false
      case Ok(rrs) => exists ds :: DsRr(ds) in rrs && Digests(w, ds, k)
  }

  /** The key signs the key set it is in. */
  ghost predicate SignsKeySet(w: World, zone: string, k: Key) {
    match w.resolve(zone, DNSKEY)
    case Err(_) => false
    case Ok(rrs) => k in KeysIn(rrs) && SignedBy(w, rrs, DNSKEY, k)
  }

  /** The key set of the j-th zone is authentic, from the root down. */
  ghost predicate AuthenticKeys(w: World, zones: seq<string>, j: nat)
    requires j < |zones|
    decreases j
  {
    && (exists k :: SpokenFor(w, zones, j, k) && SignsKeySet(w, zones[j], k))
    && (j > 0 ==> AuthenticKeys(w, zones, j - 1) && Authentic(w, zones[j], DS, ZoneKeys(w, zones[j - 1])))
  }

  ghost predicate StandardChain(w: World, zones: seq<string>, qname: string)
    requires zones != []
  {
    && AuthenticKeys(w, zones, |zones| - 1)
    && Authentic(w, qname, A, ZoneKeys(w, zones[|zones| - 1]))
  }

  /** The chain of the walk, for any list of zones. */
  ghost predicate WalkedChain(w: World, zones: seq<string>, qname: string)
    requires zones != []
  {
    (forall j :: 0 <= j < |zones| ==> LinkHolds(w, zones, j)) && LeafHolds(w, ZoneKeys(w, zones[|zones| - 1]), qname)
  }

  lemma WalkedIsIntact(w: World, registrable: string, qname: string)
    ensures WalkedChain(w, Zones(registrable), qname) <==> ChainIntact(w, registrable, qname)
  {
    hide LinkHolds, LeafHolds, ZoneKeys, Fqdn, AfterDot;
  }

  // ---- From answers to what the walk makes of them ----

  lemma {:induction false} SigIsThere(rrs: seq<Rr>, t: QType)
    ensures SigIn(rrs, t).Some? ==> SigRr(t, SigIn(rrs, t).value) in rrs
    ensures SigIn(rrs, t).None? ==> forall sig :: SigRr(t, sig) !in rrs
  {
    if rrs != [] {
      SigIsThere(rrs[..|rrs| - 1], t);
      assert rrs == rrs[..|rrs| - 1] + [rrs[|rrs| - 1]];
    }
  }

  lemma {:induction false} SetIsThere(rrs: seq<Rr>, t: QType, rr: Rr)
    ensures rr in SetIn(rrs, t) <==> rr in rrs && IsOf(rr, t)
  {
    if rrs != [] {
      SetIsThere(rrs[1..], t, rr);
      assert rrs == [rrs[0]] + rrs[1..];
      assert SetIn(rrs, t) == Only(t)(rrs[0]) + SetIn(rrs[1..], t);
    }
  }

  /** The last signature over the answer is a good one by one of the keys. */
  ghost predicate LastSigned(w: World, name: string, t: QType, keys: seq<Key>) {
    match w.resolve(name, t)
    case Err(_) => false
    case Ok(rrs) =>
      match SigIn(rrs, t)
      case None => false
      case Some(sig) => exists k :: k in keys && Verifies(w, Signed(SetIn(rrs, t), sig), k)
  }

  lemma LastIsSome(w: World, name: string, t: QType, keys: seq<Key>)
    ensures SignedSet(w, name, t).Some? && VerifiedUnder(w, SignedSet(w, name, t).value, keys)
       <==> Authentic(w, name, t, keys) && LastSigned(w, name, t, keys)
  {
    if w.resolve(name, t).Ok? {
      SigIsThere(w.resolve(name, t).value, t);
    }
    hide SetIn, SigIn, Verifies;
  }

  lemma AnchorsAreSha256(a: Anchor)
    requires a in ROOT_ANCHORS
    ensures a.digestType == SHA256
  {
  }

  /** The walk enters a zone by a key that is spoken for and has the flags of a key signing key. */
  ghost predicate EntersByKsk(w: World, zones: seq<string>, j: nat)
    requires j < |zones|
  {
    exists k :: k in ZoneKeys(w, zones[j]) && k.flags == 257 && SpokenFor(w, zones, j, k)
  }

  lemma RootEntry(w: World, zones: seq<string>)
    requires zones != [] && zones[0] == "."
    ensures RootHolds(w) <==> EntersByKsk(w, zones, 0)
  {
    hide ZoneKeys, EqualFold, WithoutSpaces;
    forall k: Key, a | a in ROOT_ANCHORS
      ensures Anchored(w, k, a) <==> k.flags == KSK && MatchesAnchor(w, k, a)
    {
      AnchorsAreSha256(a);
    }
    hide Anchored, MatchesAnchor;
    if RootHolds(w) {
      var k, a :| k in ZoneKeys(w, ".") && a in ROOT_ANCHORS && Anchored(w, k, a);
      assert SpokenFor(w, zones, 0, k);
    }
    if EntersByKsk(w, zones, 0) {
      var k :| k in ZoneKeys(w, zones[0]) && k.flags == KSK && SpokenFor(w, zones, 0, k);
      var a :| a in ROOT_ANCHORS && MatchesAnchor(w, k, a);
      assert Anchored(w, k, a);
    }
  }

  lemma MatchesIsDigests(w: World, ds: Ds, k: Key)
    ensures Matches(w, ds, k) <==> Digests(w, ds, k)
  {
    hide ToLower;
  }

  lemma ChildEntry(w: World, zones: seq<string>, j: nat)
    requires 0 < j < |zones|
    ensures ChildHolds(w, ZoneKeys(w, zones[j - 1]), zones[j])
       <==> && EntersByKsk(w, zones, j)
            && Authentic(w, zones[j], DS, ZoneKeys(w, zones[j - 1]))
            && LastSigned(w, zones[j], DS, ZoneKeys(w, zones[j - 1]))
  {
    hide ZoneKeys, Authentic, LastSigned, VerifiedUnder, Matches, Digests;
    LastIsSome(w, zones[j], DS, ZoneKeys(w, zones[j - 1]));
    if w.resolve(zones[j], DS).Ok? {
      var rrs := w.resolve(zones[j], DS).value;
      forall rr: Rr
        ensures rr in SetIn(rrs, DS) <==> rr in rrs && rr.DsRr?
      {
        SetIsThere(rrs, DS, rr);
      }
      hide SetIn, SigIn;
      forall k: Key
        ensures MatchedBy(w, SetIn(rrs, DS), k) <==> exists ds :: DsRr(ds) in rrs && Digests(w, ds, k)
      {
        if ds :| DsRr(ds) in rrs && Digests(w, ds, k) {
          MatchesIsDigests(w, ds, k);
          assert DsRr(ds) in SetIn(rrs, DS) && DsRr(ds).ds == ds;
        }
        if rr :| rr in SetIn(rrs, DS) && rr.DsRr? && Matches(w, rr.ds, k) {
          MatchesIsDigests(w, rr.ds, k);
          assert DsRr(rr.ds) == rr;
        }
      }
      if EntersByKsk(w, zones, j) && SignedSet(w, zones[j], DS).Some? {
        var k :| k in ZoneKeys(w, zones[j]) && k.flags == KSK && SpokenFor(w, zones, j, k);
        assert KskMatches(w, SetIn(rrs, DS), zones[j], k);
      }
      if SignedSet(w, zones[j], DS).Some? {
        if k :| KskMatches(w, SetIn(rrs, DS), zones[j], k) {
          assert k in ZoneKeys(w, zones[j]) && k.flags == KSK && SpokenFor(w, zones, j, k);
        }
      }
    }
  }

  // ---- Where the two chains part ----

  /** A key set that no key spoken for signs. */
  ghost predicate UnsignedKeySet(w: World, zones: seq<string>, j: nat)
    requires j < |zones|
  {
    forall k :: SpokenFor(w, zones, j, k) ==> !SignsKeySet(w, zones[j], k)
  }

  lemma {:induction false} AuthenticIff(w: World, zones: seq<string>, j: nat)
    requires j < |zones|
    ensures AuthenticKeys(w, zones, j)
       <==> && (forall i :: 0 <= i <= j ==> !UnsignedKeySet(w, zones, i))
            && (forall i :: 0 < i <= j ==> Authentic(w, zones[i], DS, ZoneKeys(w, zones[i - 1])))
    decreases j
  {
    hide SpokenFor, SignsKeySet, Authentic, ZoneKeys;
    if j > 0 {
      AuthenticIff(w, zones, j - 1);
    }
    if !UnsignedKeySet(w, zones, j) {
      var k :| SpokenFor(w, zones, j, k) && SignsKeySet(w, zones[j], k);
    }
  }

  lemma WalkedIff(w: World, zones: seq<string>, qname: string)
    requires zones != [] && zones[0] == "."
    ensures WalkedChain(w, zones, qname)
       <==> && (forall j :: 0 <= j < |zones| ==> EntersByKsk(w, zones, j))
            && (forall j :: 0 <= j < |zones| ==> Handed(w, zones, j))
            && Authentic(w, qname, A, ZoneKeys(w, zones[|zones| - 1]))
            && LastSigned(w, qname, A, ZoneKeys(w, zones[|zones| - 1]))
  {
    hide ZoneKeys, Authentic, LastSigned, EntersByKsk, LinkHolds, VerifiedUnder, SignedSet;
    forall j: nat | j < |zones|
      ensures LinkHolds(w, zones, j) <==> EntersByKsk(w, zones, j) && Handed(w, zones, j)
    {
      LinkIff(w, zones, j);
    }
    LastIsSome(w, qname, A, ZoneKeys(w, zones[|zones| - 1]));
    assert LeafHolds(w, ZoneKeys(w, zones[|zones| - 1]), qname)
      <==> && Authentic(w, qname, A, ZoneKeys(w, zones[|zones| - 1]))
           && LastSigned(w, qname, A, ZoneKeys(w, zones[|zones| - 1]));
    hide LeafHolds;
    if WalkedChain(w, zones, qname) {
      forall j | 0 <= j < |zones|
        ensures EntersByKsk(w, zones, j) && Handed(w, zones, j)
      {
        assert LinkHolds(w, zones, j);
      }
    }
  }

  /** The keys of the parent vouch for the DS set of a zone below the root. */
  ghost predicate Handed(w: World, zones: seq<string>, j: nat)
    requires j < |zones|
  {
    j > 0 ==>
      && Authentic(w, zones[j], DS, ZoneKeys(w, zones[j - 1]))
      && LastSigned(w, zones[j], DS, ZoneKeys(w, zones[j - 1]))
  }

  lemma LinkIff(w: World, zones: seq<string>, j: nat)
    requires j < |zones| && zones[0] == "."
    ensures LinkHolds(w, zones, j) <==> EntersByKsk(w, zones, j) && Handed(w, zones, j)
  {
    hide ZoneKeys, Authentic, LastSigned, EntersByKsk, ChildHolds, RootHolds;
    if j == 0 {
      RootEntry(w, zones);
    } else {
      ChildEntry(w, zones, j);
    }
  }

  /** What the walk accepts is the standard's chain exactly when no key set on the way is unsigned: the
      other key sets, the DS sets and the answer need no further condition. */
  lemma AcceptedByTheWalk(w: World, zones: seq<string>, qname: string)
    requires zones != [] && zones[0] == "." && WalkedChain(w, zones, qname)
    ensures StandardChain(w, zones, qname) <==> forall j :: 0 <= j < |zones| ==> !UnsignedKeySet(w, zones, j)
  {
    hide WalkedChain, UnsignedKeySet, Authentic, AuthenticKeys, LastSigned, EntersByKsk, ZoneKeys;
    WalkedIff(w, zones, qname);
    AuthenticIff(w, zones, |zones| - 1);
    forall i | 0 < i < |zones|
      ensures Authentic(w, zones[i], DS, ZoneKeys(w, zones[i - 1]))
    {
      assert Handed(w, zones, i);
    }
  }

  /** What the standard accepts the walk refuses exactly when some zone is entered by keys without the flags
      of a key signing key only, or the last of several signatures over a DS set or the answer is by no
      key of the zone that should have signed it. */
  lemma AcceptedByTheStandard(w: World, zones: seq<string>, qname: string)
    requires zones != [] && zones[0] == "." && StandardChain(w, zones, qname)
    ensures WalkedChain(w, zones, qname)
       <==> && (forall j :: 0 <= j < |zones| ==> EntersByKsk(w, zones, j))
            && (forall j :: 0 < j < |zones| ==> LastSigned(w, zones[j], DS, ZoneKeys(w, zones[j - 1])))
            && LastSigned(w, qname, A, ZoneKeys(w, zones[|zones| - 1]))
  {
    hide WalkedChain, UnsignedKeySet, Authentic, AuthenticKeys, LastSigned, EntersByKsk, ZoneKeys;
    WalkedIff(w, zones, qname);
    AuthenticIff(w, zones, |zones| - 1);
    forall i | 0 <= i < |zones|
      ensures Handed(w, zones, i) <==> (i > 0 ==> LastSigned(w, zones[i], DS, ZoneKeys(w, zones[i - 1])))
    {
    }
    if WalkedChain(w, zones, qname) {
      forall i | 0 < i < |zones|
        ensures LastSigned(w, zones[i], DS, ZoneKeys(w, zones[i - 1]))
      {
        assert Handed(w, zones, i);
      }
    }
  }

  /** The verdict reported for a name, whatever the network answered, against the standard. */
  lemma VerdictAgainstStandard(w: World, registrable: string, qname: string, v: Validation)
    requires registrable != "" && Reported(w, Some(registrable), qname, v)
    ensures var zones := Zones(registrable);
            && (v.validated ==>
                  (StandardChain(w, zones, qname) <==> forall j :: 0 <= j < |zones| ==> !UnsignedKeySet(w, zones, j)))
            && (StandardChain(w, zones, qname) ==>
                  (v.validated
                   <==> && (forall j :: 0 <= j < |zones| ==> EntersByKsk(w, zones, j))
                        && (forall j :: 0 < j < |zones| ==> LastSigned(w, zones[j], DS, ZoneKeys(w, zones[j - 1])))
                        && LastSigned(w, qname, A, ZoneKeys(w, zones[|zones| - 1]))))
  {
    ZonesShape(registrable);
    WalkedIsIntact(w, registrable, qname);
    assert v.validated <==> ChainIntact(w, registrable, qname);
    hide *;
    var zones := Zones(registrable);
    if v.validated {
      AcceptedByTheWalk(w, zones, qname);
    }
    if StandardChain(w, zones, qname) {
      AcceptedByTheStandard(w, zones, qname);
    }
  }

  /** The same for a registrable name: from the root over the public suffix to the name. */
  lemma VerdictByName(w: World, own: string, suffix: string, qname: string, v: Validation)
    requires IsRegistrable(own, suffix) && Reported(w, Some(own + "." + suffix), qname, v)
    ensures var zones := [".", suffix + ".", own + "." + suffix + "."];
            && (v.validated ==>
                  (StandardChain(w, zones, qname) <==> forall j :: 0 <= j < 3 ==> !UnsignedKeySet(w, zones, j)))
            && (StandardChain(w, zones, qname) ==>
                  (v.validated
                   <==> && (forall j :: 0 <= j < 3 ==> EntersByKsk(w, zones, j))
                        && (forall j :: 0 < j < 3 ==> LastSigned(w, zones[j], DS, ZoneKeys(w, zones[j - 1])))
                        && LastSigned(w, qname, A, ZoneKeys(w, zones[2]))))
  {
    assert own + "." + suffix != "";
    ZonesAre(own, suffix);
    VerdictAgainstStandard(w, own + "." + suffix, qname, v);
    hide *;
  }

  /** Answers as most zones give them: one signature over a set, and entry by key signing keys alone. */
  ghost predicate OneSignature(w: World, name: string, t: QType) {
    w.resolve(name, t).Ok? ==>
      forall x, y :: SigRr(t, x) in w.resolve(name, t).value && SigRr(t, y) in w.resolve(name, t).value ==> x == y
  }

  ghost predicate Ordinary(w: World, zones: seq<string>, qname: string) {
    && (forall j :: 0 < j < |zones| ==> OneSignature(w, zones[j], DS))
    && OneSignature(w, qname, A)
    && forall j, k :: 0 <= j < |zones| && SpokenFor(w, zones, j, k) && k in ZoneKeys(w, zones[j]) ==> k.flags == 257
  }

  lemma OneIsLast(w: World, name: string, t: QType, keys: seq<Key>)
    requires OneSignature(w, name, t) && Authentic(w, name, t, keys)
    ensures LastSigned(w, name, t, keys)
  {
    var rrs := w.resolve(name, t).value;
    SigIsThere(rrs, t);
    hide SigIn, SetIn, Verifies;
    var k :| k in keys && SignedBy(w, rrs, t, k);
    var sig :| SigRr(t, sig) in rrs && Verifies(w, Signed(SetIn(rrs, t), sig), k);
  }

  /** On ordinary answers the standard accepts exactly what the walk accepts with every key set signed. */
  lemma OrdinaryAnswers(w: World, zones: seq<string>, qname: string)
    requires zones != [] && zones[0] == "." && Ordinary(w, zones, qname)
    ensures StandardChain(w, zones, qname)
       <==> WalkedChain(w, zones, qname) && forall j :: 0 <= j < |zones| ==> !UnsignedKeySet(w, zones, j)
  {
    hide WalkedChain, Authentic, AuthenticKeys, LastSigned, ZoneKeys, SpokenFor, OneSignature;
    if StandardChain(w, zones, qname) {
      AuthenticIff(w, zones, |zones| - 1);
      forall j | 0 <= j < |zones|
        ensures EntersByKsk(w, zones, j)
        ensures j > 0 ==> LastSigned(w, zones[j], DS, ZoneKeys(w, zones[j - 1]))
      {
        assert !UnsignedKeySet(w, zones, j);
        var k :| SpokenFor(w, zones, j, k) && SignsKeySet(w, zones[j], k);
        SignerIsInSet(w, zones[j], k);
        if j > 0 {
          OneIsLast(w, zones[j], DS, ZoneKeys(w, zones[j - 1]));
        }
      }
      OneIsLast(w, qname, A, ZoneKeys(w, zones[|zones| - 1]));
      AcceptedByTheStandard(w, zones, qname);
      AcceptedByTheWalk(w, zones, qname);
    } else if WalkedChain(w, zones, qname) {
      AcceptedByTheWalk(w, zones, qname);
    }
  }

  lemma SignerIsInSet(w: World, zone: string, k: Key)
    requires SignsKeySet(w, zone, k)
    ensures k in ZoneKeys(w, zone)
  {
    hide KeysIn, SignedBy;
  }

  // ---- One network each way ----

  const ENTRY := Key(KSK, 8, "entry")
  const EXTRA := Key(ZSK, 8, "extra")
  const OTHER := "00"

  function Tag(k: Key): nat {
    if k == ENTRY then 20326 else 1
  }

  /** The digest of the anchor for the entry key, another one for every other key. */
  function Digest(k: Key): string {
    if k == ENTRY then ROOT_ANCHORS[0].digest else OTHER
  }

  const DS_RECORD := Ds(20326, 8, SHA256, ROOT_ANCHORS[0].digest)
  const BY_ENTRY := Sig(20326, 8, "entry")
  const BY_EXTRA := Sig(1, 8, "extra")

  /** Signatures verify under the key they name. */
  function Network(answers: QType -> seq<Rr>): World {
    World((name: string, t: QType) => Ok(answers(t)), (k: Key) => Tag(k), (k: Key, d: nat) => Some(Digest(k)),
          (sig: Sig, k: Key, rrset: seq<Rr>) => k.material == sig.raw)
  }

  /** Every key set holds the entry key and one more. Only the other key signs, and no key set is signed. */
  function Unvouched(t: QType): seq<Rr> {
    match t
    case DNSKEY => [KeyRr(ENTRY), KeyRr(EXTRA)]
    case DS => [DsRr(DS_RECORD), SigRr(DS, BY_EXTRA)]
    case A => [ARr("192.0.2.1"), SigRr(A, BY_EXTRA)]
  }

  /** Every key set holds the entry key alone and is signed by it; so are the other sets, each with a second
      signature behind by a key that is in no set. */
  function TwiceSigned(t: QType): seq<Rr> {
    match t
    case DNSKEY => [KeyRr(ENTRY), SigRr(DNSKEY, BY_ENTRY)]
    case DS => [DsRr(DS_RECORD), SigRr(DS, BY_ENTRY), SigRr(DS, BY_EXTRA)]
    case A => [ARr("192.0.2.1"), SigRr(A, BY_ENTRY), SigRr(A, BY_EXTRA)]
  }

  lemma TwoElements<A, B>(f: A -> seq<B>, x: A, y: A)
    ensures FlatMap(f, [x, y]) == f(x) + f(y)
  {
    FlatMapSnoc(f, [x], y);
    FlatMapOne(f, x);
    assert [x] + [y] == [x, y];
  }

  lemma ThreeElements<A, B>(f: A -> seq<B>, x: A, y: A, z: A)
    ensures FlatMap(f, [x, y, z]) == f(x) + f(y) + f(z)
  {
    FlatMapSnoc(f, [x, y], z);
    TwoElements(f, x, y);
    assert [x, y] + [z] == [x, y, z];
    hide FlatMap;
  }

  lemma LastOf(rrs: seq<Rr>, t: QType, sig: Sig)
    requires rrs != [] && rrs[|rrs| - 1] == SigRr(t, sig)
    ensures SigIn(rrs, t) == Some(sig)
  {
  }

  lemma EntryIsSpokenFor(answers: QType -> seq<Rr>, zones: seq<string>, j: nat, k: Key)
    requires j < |zones| && forall ds :: DsRr(ds) in answers(DS) <==> ds == DS_RECORD
    ensures SpokenFor(Network(answers), zones, j, k) <==> k == ENTRY
  {
    var w := Network(answers);
    hide ToLower;
    if k == ENTRY {
      assert ROOT_ANCHORS[0] in ROOT_ANCHORS && MatchesAnchor(w, k, ROOT_ANCHORS[0]);
      assert DsRr(DS_RECORD) in answers(DS) && Digests(w, DS_RECORD, k);
    } else {
      assert forall a :: a in ROOT_ANCHORS ==> a.keyTag != 1;
      assert !Digests(w, DS_RECORD, k);
    }
  }

  lemma UnvouchedSets()
    ensures KeysIn(Unvouched(DNSKEY)) == [ENTRY, EXTRA]
    ensures SetIn(Unvouched(DS), DS) == [DsRr(DS_RECORD)] && SigIn(Unvouched(DS), DS) == Some(BY_EXTRA)
    ensures SetIn(Unvouched(A), A) == [ARr("192.0.2.1")] && SigIn(Unvouched(A), A) == Some(BY_EXTRA)
  {
    TwoElements(KeyOf, KeyRr(ENTRY), KeyRr(EXTRA));
    TwoElements(Only(DS), DsRr(DS_RECORD), SigRr(DS, BY_EXTRA));
    TwoElements(Only(A), ARr("192.0.2.1"), SigRr(A, BY_EXTRA));
    LastOf(Unvouched(DS), DS, BY_EXTRA);
    LastOf(Unvouched(A), A, BY_EXTRA);
    hide FlatMap, SigIn;
  }

  lemma UnvouchedLinks(zones: seq<string>, j: nat)
    requires j < |zones|
    ensures EntersByKsk(Network(Unvouched), zones, j) && UnsignedKeySet(Network(Unvouched), zones, j)
  {
    UnvouchedSets();
    EntryIsSpokenFor(Unvouched, zones, j, ENTRY);
    hide SpokenFor, KeysIn, SetIn, SigIn;
    assert ENTRY in ZoneKeys(Network(Unvouched), zones[j]);
    forall k: Key
      ensures !SignsKeySet(Network(Unvouched), zones[j], k)
    {
      assert forall sig :: SigRr(DNSKEY, sig) !in Unvouched(DNSKEY);
    }
  }

  lemma UnvouchedAnswers(name: string, parent: string, t: QType)
    requires t == DS || t == A
    ensures var w := Network(Unvouched);
            Authentic(w, name, t, ZoneKeys(w, parent)) && LastSigned(w, name, t, ZoneKeys(w, parent))
  {
    var w := Network(Unvouched);
    UnvouchedSets();
    hide KeysIn, SetIn, SigIn;
    assert EXTRA in ZoneKeys(w, parent);
    assert Verifies(w, Signed(SetIn(Unvouched(t), t), BY_EXTRA), EXTRA);
    assert SigRr(t, BY_EXTRA) in Unvouched(t);
  }

  lemma UnvouchedHanded(zones: seq<string>, j: nat)
    requires j < |zones|
    ensures Handed(Network(Unvouched), zones, j)
  {
    if j > 0 {
      UnvouchedAnswers(zones[j], zones[j - 1], DS);
    }
    hide Authentic, LastSigned, ZoneKeys, Network;
  }

  /** A signature served is good under no key that is spoken for. */
  lemma NoneVouches(zones: seq<string>, j: nat, t: QType, u: QType, sig: Sig, rrset: seq<Rr>, k: Key)
    requires j < |zones| && SigRr(u, sig) in Unvouched(t) && Verifies(Network(Unvouched), Signed(rrset, sig), k)
    ensures !SpokenFor(Network(Unvouched), zones, j, k)
  {
    EntryIsSpokenFor(Unvouched, zones, j, k);
    hide SpokenFor;
    assert sig == BY_EXTRA;
  }

  /** There are answers that the walk accepts for every name although no key set is signed, and although
      every signature served is good only under keys that neither an anchor nor a DS record served speaks
      for. */
  lemma UnsignedKeyValidates(zones: seq<string>, qname: string)
    requires zones != [] && zones[0] == "."
    ensures WalkedChain(Network(Unvouched), zones, qname) && !StandardChain(Network(Unvouched), zones, qname)
    ensures forall t, u, sig, rrset, k, j: nat ::
              SigRr(u, sig) in Unvouched(t) && Verifies(Network(Unvouched), Signed(rrset, sig), k) && j < |zones|
              ==> !SpokenFor(Network(Unvouched), zones, j, k)
  {
    var w := Network(Unvouched);
    forall t, u, sig, rrset, k, j: nat | SigRr(u, sig) in Unvouched(t)
                                         && Verifies(w, Signed(rrset, sig), k) && j < |zones|
      ensures !SpokenFor(w, zones, j, k)
    {
      NoneVouches(zones, j, t, u, sig, rrset, k);
    }
    hide *;
    forall j: nat | j < |zones|
      ensures EntersByKsk(w, zones, j) && UnsignedKeySet(w, zones, j) && Handed(w, zones, j)
    {
      UnvouchedLinks(zones, j);
      UnvouchedHanded(zones, j);
    }
    UnvouchedAnswers(qname, zones[|zones| - 1], A);
    WalkedIff(w, zones, qname);
    AcceptedByTheWalk(w, zones, qname);
    assert UnsignedKeySet(w, zones, 0);
  }

  lemma TwiceSignedSets()
    ensures KeysIn(TwiceSigned(DNSKEY)) == [ENTRY]
    ensures SetIn(TwiceSigned(DS), DS) == [DsRr(DS_RECORD)]
    ensures SetIn(TwiceSigned(A), A) == [ARr("192.0.2.1")] && SigIn(TwiceSigned(A), A) == Some(BY_EXTRA)
  {
    TwoElements(KeyOf, KeyRr(ENTRY), SigRr(DNSKEY, BY_ENTRY));
    ThreeElements(Only(DS), DsRr(DS_RECORD), SigRr(DS, BY_ENTRY), SigRr(DS, BY_EXTRA));
    ThreeElements(Only(A), ARr("192.0.2.1"), SigRr(A, BY_ENTRY), SigRr(A, BY_EXTRA));
    LastOf(TwiceSigned(A), A, BY_EXTRA);
    hide FlatMap, SigIn;
  }

  lemma TwiceSignedKeys(zones: seq<string>, j: nat)
    requires j < |zones|
    ensures !UnsignedKeySet(Network(TwiceSigned), zones, j)
  {
    var w := Network(TwiceSigned);
    TwiceSignedSets();
    EntryIsSpokenFor(TwiceSigned, zones, j, ENTRY);
    hide SpokenFor, KeysIn, SetIn;
    assert SigRr(DNSKEY, BY_ENTRY) in TwiceSigned(DNSKEY);
    assert Verifies(w, Signed(SetIn(TwiceSigned(DNSKEY), DNSKEY), BY_ENTRY), ENTRY);
  }

  lemma TwiceSignedAnswers(name: string, parent: string, t: QType)
    requires t == DS || t == A
    ensures Authentic(Network(TwiceSigned), name, t, ZoneKeys(Network(TwiceSigned), parent))
    ensures t == A ==> !LastSigned(Network(TwiceSigned), name, t, ZoneKeys(Network(TwiceSigned), parent))
  {
    var w := Network(TwiceSigned);
    TwiceSignedSets();
    hide KeysIn, SetIn, SigIn;
    assert ENTRY in ZoneKeys(w, parent);
    assert Verifies(w, Signed(SetIn(TwiceSigned(t), t), BY_ENTRY), ENTRY);
    assert SigRr(t, BY_ENTRY) in TwiceSigned(t);
  }

  /** And there are answers that the standard accepts for every name and the walk does not: a second signature
      behind the good one hides it. */
  lemma SecondSignatureHides(zones: seq<string>, qname: string)
    requires zones != [] && zones[0] == "."
    ensures StandardChain(Network(TwiceSigned), zones, qname) && !WalkedChain(Network(TwiceSigned), zones, qname)
  {
    var w := Network(TwiceSigned);
    StandardIs(w, zones, qname);
    hide *;
    forall j: nat | j < |zones|
      ensures !UnsignedKeySet(w, zones, j)
    {
      TwiceSignedKeys(zones, j);
    }
    forall j: nat | 0 < j < |zones|
      ensures Authentic(w, zones[j], DS, ZoneKeys(w, zones[j - 1]))
    {
      TwiceSignedAnswers(zones[j], zones[j - 1], DS);
    }
    TwiceSignedAnswers(qname, zones[|zones| - 1], A);
    AuthenticIff(w, zones, |zones| - 1);
    WalkedIff(w, zones, qname);
  }

  lemma StandardIs(w: World, zones: seq<string>, qname: string)
    requires zones != []
    ensures StandardChain(w, zones, qname) <==>
              && AuthenticKeys(w, zones, |zones| - 1)
              && Authentic(w, qname, A, ZoneKeys(w, zones[|zones| - 1]))
  {
    hide AuthenticKeys, Authentic, ZoneKeys;
  }
}
