/** The DNSSEC chain walk: from the root trust anchors down to the registrable domain, then the signature
    over the address records. What the network answers and what the DNS library computes (key tags, DS
    digests, signature checks) are parameters. */
module DnssecChain {
  import opened Lists
  import opened Outcomes
  import opened Text

  // ---- Records ----

  datatype Key = Key(flags: nat, algorithm: nat, material: string)

  datatype Ds = Ds(keyTag: nat, algorithm: nat, digestType: nat, digest: string)

  datatype Sig = Sig(keyTag: nat, algorithm: nat, raw: string)

  datatype QType = DNSKEY | DS | A

  datatype Rr = KeyRr(key: Key) | DsRr(ds: Ds) | ARr(address: string) | SigRr(covered: QType, sig: Sig) | OtherRr

  /** The network and the DNS library. */
  datatype World = World(resolve: (string, QType) -> Result<seq<Rr>, string>,
                         keyTag: Key -> nat,
                         toDs: (Key, nat) -> Option<string>,
                         verify: (Sig, Key, seq<Rr>) -> bool)

  const SHA256 := 2
  const KSK := 257
  const ZSK := 256

  datatype Anchor = Anchor(keyTag: nat, algorithm: nat, digestType: nat, digest: string)

  const ROOT_ANCHORS: seq<Anchor> := [
    Anchor(20326, 8, 2, "E06D44B80B8F1D39A95C0B0D7C65D08458E880409BBC683457104237C7F8EC8D"),
    Anchor(38696, 8, 2, "683D2D0ACB8C9B712A1948B27F741219298D0A450D612C483AF444A4C0FB2B16")
  ]

  function EqualFold(a: string, b: string): bool {
    ToLower(a) == ToLower(b)
  }

  // ---- What an answer contains ----

  function KeyOf(rr: Rr): seq<Key> {
    if rr.KeyRr? then [rr.key] else []
  }

  function KeysIn(rrs: seq<Rr>): seq<Key> {
    FlatMap(KeyOf, rrs)
  }

  /** The records of the type asked for. */
  predicate IsOf(rr: Rr, t: QType) {
    match t
    case DNSKEY => rr.KeyRr?
    case DS => rr.DsRr?
    case A => rr.ARr?
  }

  function Only(t: QType): Rr -> seq<Rr> {
    (rr: Rr) => if IsOf(rr, t) then [rr] else []
  }

  function SetIn(rrs: seq<Rr>, t: QType): seq<Rr> {
    FlatMap(Only(t), rrs)
  }

  /** The last signature over the type. */
  function SigIn(rrs: seq<Rr>, t: QType): Option<Sig> {
    if rrs == [] then None
    else
      var last := rrs[|rrs| - 1];
      if last.SigRr? && last.covered == t then Some(last.sig) else SigIn(rrs[..|rrs| - 1], t)
  }

  function KskOf(k: Key): seq<Key> {
    if k.flags == KSK then [k] else []
  }

  function KeySigning(keys: seq<Key>): seq<Key> {
    FlatMap(KskOf, keys)
  }

  lemma {:induction false} InKeySigning(keys: seq<Key>, k: Key)
    ensures k in KeySigning(keys) <==> k in keys && k.flags == KSK
  {
    if keys != [] {
      InKeySigning(keys[1..], k);
      assert keys == [keys[0]] + keys[1..];
    }
  }

  /** The key set fetched for a zone: none when the query fails or brings no key. */
  function ZoneKeys(w: World, zone: string): seq<Key> {
    match w.resolve(zone, DNSKEY)
    case Err(_) => []
    case Ok(rrs) => KeysIn(rrs)
  }

  datatype Signed = Signed(rrset: seq<Rr>, sig: Sig)

  /** A record set with its signature, when the answer has both. */
  function SignedSet(w: World, name: string, t: QType): Option<Signed> {
    match w.resolve(name, t)
    case Err(_) => None
    case Ok(rrs) =>
      if SetIn(rrs, t) == [] then None
      else match SigIn(rrs, t)
           case None => None
           case Some(sig) => Some(Signed(SetIn(rrs, t), sig))
  }

  method FetchDnskeys(w: World, zone: string) returns (r: Result<(seq<Key>, seq<Key>), string>)
    ensures r.Ok? <==> ZoneKeys(w, zone) != []
    ensures r.Ok? ==> r.value == (KeySigning(ZoneKeys(w, zone)), ZoneKeys(w, zone))
  {
    match w.resolve(zone, DNSKEY)
    case Err(e) => r := Err(e);
    case Ok(rrs) =>
      var ksks: seq<Key>, all: seq<Key> := [], [];
      for i := 0 to |rrs|
        invariant all == KeysIn(rrs[..i]) && ksks == KeySigning(all)
      {
        FlatMapGrow(KeyOf, rrs, i);
        if rrs[i].KeyRr? {
          var k := rrs[i].key;
          FlatMapSnoc(KskOf, all, k);
          all := all + [k];
          if k.flags == KSK {
            ksks := ksks + [k];
          }
        }
      }
      assert rrs[..|rrs|] == rrs;
      if |all| == 0 {
        return Err("zone has no DNSKEY records");
      }
      r := Ok((ksks, all));
  }

  lemma LastSig(rrs: seq<Rr>, i: nat, t: QType)
    requires i < |rrs|
    ensures SigIn(rrs[..i + 1], t)
         == if rrs[i].SigRr? && rrs[i].covered == t then Some(rrs[i].sig) else SigIn(rrs[..i], t)
  {
    assert rrs[..i + 1][..i] == rrs[..i];
  }

  /** The two fetches of a signed set differ in the type they ask for. */
  method FetchSigned(w: World, name: string, t: QType) returns (r: Result<Signed, string>)
    ensures r.Ok? <==> SignedSet(w, name, t).Some?
    ensures r.Ok? ==> Some(r.value) == SignedSet(w, name, t)
  {
    match w.resolve(name, t)
    case Err(e) => r := Err(e);
    case Ok(rrs) =>
      var rrset: seq<Rr> := [];
      var sig: Option<Sig> := None;
      assert SetIn(rrs[..0], t) == [] && SigIn(rrs[..0], t) == None;
      hide FlatMap, SigIn;
      for i := 0 to |rrs|
        invariant rrset == SetIn(rrs[..i], t) && sig == SigIn(rrs[..i], t)
      {
        FlatMapGrow(Only(t), rrs, i);
        LastSig(rrs, i, t);
        if IsOf(rrs[i], t) {
          rrset := rrset + [rrs[i]];
        }
        if rrs[i].SigRr? && rrs[i].covered == t {
          sig := Some(rrs[i].sig);
        }
      }
      assert rrs[..|rrs|] == rrs;
      if |rrset| == 0 {
        return Err("no such records");
      }
      if sig.None? {
        return Err("no RRSIG");
      }
      r := Ok(Signed(rrset, sig.value));
  }

  // ---- The matchers ----

  predicate Verifies(w: World, s: Signed, k: Key) {
    w.keyTag(k) == s.sig.keyTag && k.algorithm == s.sig.algorithm && w.verify(s.sig, k, s.rrset)
  }

  ghost predicate VerifiedUnder(w: World, s: Signed, keys: seq<Key>) {
    exists k :: k in keys && Verifies(w, s, k)
  }

  method VerifyRrsig(w: World, s: Signed, keys: seq<Key>) returns (ok: bool)
    ensures ok <==> VerifiedUnder(w, s, keys)
  {
    for i := 0 to |keys|
      invariant forall j :: 0 <= j < i ==> !Verifies(w, s, keys[j])
    {
      var k := keys[i];
      assert k in keys;
      if w.keyTag(k) != s.sig.keyTag {
        continue;
      }
      if k.algorithm != s.sig.algorithm {
        continue;
      }
      if w.verify(s.sig, k, s.rrset) {
        return true;
      }
    }
    ok := false;
  }

  function WithoutSpaces(s: string): string {
    if s == [] then [] else (if s[0] == ' ' then [] else [s[0]]) + WithoutSpaces(s[1..])
  }

  /** The key is the one an anchor was published for. */
  predicate Anchored(w: World, k: Key, a: Anchor) {
    && k.flags == KSK
    && w.toDs(k, SHA256).Some?
    && a.keyTag == w.keyTag(k) && a.algorithm == k.algorithm && a.digestType == SHA256
    && (EqualFold(a.digest, w.toDs(k, SHA256).value) || EqualFold(WithoutSpaces(a.digest), w.toDs(k, SHA256).value))
  }

  method MatchRootAnchor(w: World, keys: seq<Key>) returns (r: Option<(Key, Anchor)>)
    ensures r.Some? ==> r.value.0 in keys && r.value.1 in ROOT_ANCHORS && Anchored(w, r.value.0, r.value.1)
    ensures r.None? ==> forall k, a :: k in keys && a in ROOT_ANCHORS ==> !Anchored(w, k, a)
  {
    for i := 0 to |keys|
      invariant forall j, a :: 0 <= j < i && a in ROOT_ANCHORS ==> !Anchored(w, keys[j], a)
    {
      var k := keys[i];
      if k.flags != KSK {
        continue;
      }
      var digest := w.toDs(k, SHA256);
      if digest.None? {
        continue;
      }
      r := AnchorFor(w, k, digest.value);
      if r.Some? {
        return;
      }
    }
    r := None;
  }

  method AnchorFor(w: World, k: Key, digest: string) returns (r: Option<(Key, Anchor)>)
    requires k.flags == KSK && w.toDs(k, SHA256) == Some(digest)
    ensures r.Some? ==> r.value.0 == k && r.value.1 in ROOT_ANCHORS && Anchored(w, k, r.value.1)
    ensures r.None? ==> forall a :: a in ROOT_ANCHORS ==> !Anchored(w, k, a)
  {
    hide EqualFold, WithoutSpaces;
    for i := 0 to |ROOT_ANCHORS|
      invariant forall j :: 0 <= j < i ==> !Anchored(w, k, ROOT_ANCHORS[j])
    {
      var a := ROOT_ANCHORS[i];
      if a.keyTag != w.keyTag(k) || a.algorithm != k.algorithm || a.digestType != SHA256 {
        continue;
      }
      if EqualFold(a.digest, digest) {
        return Some((k, a));
      }
      if EqualFold(WithoutSpaces(a.digest), digest) {
        return Some((k, a));
      }
    }
    r := None;
  }

  predicate Matches(w: World, ds: Ds, k: Key) {
    && w.keyTag(k) == ds.keyTag && k.algorithm == ds.algorithm
    && w.toDs(k, ds.digestType).Some? && EqualFold(w.toDs(k, ds.digestType).value, ds.digest)
  }

  ghost predicate MatchedBy(w: World, dsRrs: seq<Rr>, k: Key) {
    exists rr :: rr in dsRrs && rr.DsRr? && Matches(w, rr.ds, k)
  }

  method MatchDsToDnskey(w: World, dsRrs: seq<Rr>, keys: seq<Key>) returns (r: Option<Key>)
    ensures r.Some? ==> r.value in keys && MatchedBy(w, dsRrs, r.value)
    ensures r.None? ==> forall k :: k in keys ==> !MatchedBy(w, dsRrs, k)
  {
    hide EqualFold;
    for i := 0 to |dsRrs|
      invariant forall j, k :: 0 <= j < i && dsRrs[j].DsRr? && k in keys ==> !Matches(w, dsRrs[j].ds, k)
    {
      if !dsRrs[i].DsRr? {
        continue;
      }
      var ds := dsRrs[i].ds;
      for j := 0 to |keys|
        invariant forall l :: 0 <= l < j ==> !Matches(w, ds, keys[l])
      {
        var k := keys[j];
        if w.keyTag(k) != ds.keyTag {
          continue;
        }
        if k.algorithm != ds.algorithm {
          continue;
        }
        var computed := w.toDs(k, ds.digestType);
        if computed.None? {
          continue;
        }
        if EqualFold(computed.value, ds.digest) {
          assert dsRrs[i] in dsRrs;
          return Some(k);
        }
      }
    }
    r := None;
  }

  // ---- The walk ----

  datatype Level = Level(zone: string, trusted: bool, reason: string, kskTag: nat, zskTags: seq<nat>,
                         algorithm: nat)

  datatype Leaf = Leaf(verified: bool, records: seq<string>, signedBy: nat)

  datatype Validation = Validation(validated: bool, reason: string, levels: seq<Level>, leaf: Option<Leaf>)

  ghost predicate RootHolds(w: World) {
    exists k, a :: k in ZoneKeys(w, ".") && a in ROOT_ANCHORS && Anchored(w, k, a)
  }

  /** The parent's keys vouch for a DS record of the zone, and the DS record for a KSK of the zone. */
  ghost predicate ChildHolds(w: World, parentKeys: seq<Key>, zone: string) {
    match SignedSet(w, zone, DS)
    case None => false
    case Some(s) => VerifiedUnder(w, s, parentKeys) && exists k :: KskMatches(w, s.rrset, zone, k)
  }

  ghost predicate KskMatches(w: World, dsRrs: seq<Rr>, zone: string, k: Key) {
    k in ZoneKeys(w, zone) && k.flags == KSK && MatchedBy(w, dsRrs, k)
  }

  /** The j-th link of the chain, with the keys its parent zone publishes. */
  ghost predicate LinkHolds(w: World, zones: seq<string>, j: nat)
    requires j < |zones|
  {
    if j == 0 then RootHolds(w) else ChildHolds(w, ZoneKeys(w, zones[j - 1]), zones[j])
  }

  ghost predicate LeafHolds(w: World, keys: seq<Key>, qname: string) {
    match SignedSet(w, qname, A)
    case None => false
    case Some(s) => VerifiedUnder(w, s, keys)
  }

  function Untrusted(zone: string, reason: string): Level {
    Level(zone, false, reason, 0, [], 0)
  }

  function ZskTags(w: World): Key -> seq<nat> {
    (k: Key) => if k.flags == ZSK then [w.keyTag(k)] else []
  }

  /** The body of the loop over the zones below the root. */
  method CheckChild(w: World, zone: string, parentKeys: seq<Key>) returns (level: Level, keys: seq<Key>)
    ensures level.zone == zone
    ensures level.trusted <==> ChildHolds(w, parentKeys, zone)
    ensures level.trusted <==> level.reason == ""
    ensures level.trusted ==>
              && keys == ZoneKeys(w, zone)
              && level.zskTags == FlatMap(ZskTags(w), keys)
              && exists k :: k in keys && k.flags == KSK && level.kskTag == w.keyTag(k)
                             && level.algorithm == k.algorithm
  {
    hide ZoneKeys, SignedSet, MatchedBy, VerifiedUnder, KeySigning, FlatMap;
    var ds := FetchSigned(w, zone, DS);
    if ds.Err? {
      return Untrusted(zone, "no DS in parent: " + ds.error), [];
    }
    var signed := ds.value;
    var verified := VerifyRrsig(w, signed, parentKeys);
    if !verified {
      return Untrusted(zone, "DS RRSIG verification failed"), [];
    }
    var fetched := FetchDnskeys(w, zone);
    if fetched.Err? {
      assert ZoneKeys(w, zone) == [];
      return Untrusted(zone, "could not fetch zone DNSKEY: " + fetched.error), [];
    }
    var ksks := fetched.value.0;
    keys := fetched.value.1;
    var matched := MatchDsToDnskey(w, signed.rrset, ksks);
    forall k: Key
      ensures k in ksks <==> k in keys && k.flags == KSK
    {
      InKeySigning(keys, k);
    }
    if matched.None? {
      assert forall k :: !KskMatches(w, signed.rrset, zone, k);
      return Untrusted(zone, "no DS digest matched any DNSKEY at zone"), [];
    }
    var tags: seq<nat> := [];
    FlatMapNothing(ZskTags(w), keys);
    for i := 0 to |keys|
      invariant tags == FlatMap(ZskTags(w), keys[..i])
    {
      FlatMapGrow(ZskTags(w), keys, i);
      if keys[i].flags == ZSK {
        tags := tags + [w.keyTag(keys[i])];
      }
    }
    assert keys[..|keys|] == keys;
    assert KskMatches(w, signed.rrset, zone, matched.value);
    level := Level(zone, true, "", w.keyTag(matched.value), tags, matched.value.algorithm);
  }

  lemma FlatMapNothing<B>(f: Key -> seq<B>, keys: seq<Key>)
    ensures FlatMap(f, keys[..0]) == []
  {
  }

  /** The levels reported: the zones from the root on, each trusted exactly when its link holds, up to
      the first that is not; none at all when the root keys could not be fetched. */
  ghost predicate Walked(w: World, zones: seq<string>, levels: seq<Level>) {
    && |levels| <= |zones|
    && (forall j :: 0 <= j < |levels| ==>
          levels[j].zone == zones[j] && (levels[j].trusted <==> LinkHolds(w, zones, j)))
    && (forall j :: 0 <= j < |levels| - 1 ==> levels[j].trusted)
    && (levels == [] ==> ZoneKeys(w, ".") == [])
    && (0 < |levels| < |zones| ==> !levels[|levels| - 1].trusted)
  }

  predicate AllTrusted(levels: seq<Level>) {
    forall j :: 0 <= j < |levels| ==> levels[j].trusted
  }

  /** Phases 1 and 2: the root against the anchors, then zone by zone. */
  method WalkZones(w: World, zones: seq<string>) returns (levels: seq<Level>, reason: string, keys: seq<Key>)
    requires zones != [] && zones[0] == "."
    ensures Walked(w, zones, levels)
    ensures reason == "" <==> |levels| == |zones| && AllTrusted(levels)
    ensures reason == "" ==> keys == ZoneKeys(w, zones[|zones| - 1])
  {
    hide ZoneKeys, Anchored, KeySigning, ChildHolds;
    levels, reason, keys := [], "", [];
    var root := FetchDnskeys(w, ".");
    if root.Err? {
      return [], "could not fetch root DNSKEY: " + root.error, [];
    }
    keys := root.value.1;
    var matched := MatchRootAnchor(w, root.value.0);
    RootMatch(w, matched);
    if matched.None? {
      var level := Untrusted(".", "root KSK does not match any IANA trust anchor");
      return [level], level.reason, [];
    }
    levels := [Level(".", true, "", w.keyTag(matched.value.0), [], matched.value.1.algorithm)];
    for i := 1 to |zones|
      invariant |levels| == i && AllTrusted(levels)
      invariant forall j :: 0 <= j < i ==> levels[j].zone == zones[j] && LinkHolds(w, zones, j)
      invariant keys == ZoneKeys(w, zones[i - 1])
    {
      var level, zoneKeys := CheckChild(w, zones[i], keys);
      levels := levels + [level];
      if !level.trusted {
        return levels, level.reason, [];
      }
      keys := zoneKeys;
    }
  }

  lemma RootMatch(w: World, matched: Option<(Key, Anchor)>)
    requires matched.Some? ==> matched.value.0 in KeySigning(ZoneKeys(w, "."))
                               && matched.value.1 in ROOT_ANCHORS && Anchored(w, matched.value.0, matched.value.1)
    requires matched.None? ==>
               forall k, a :: k in KeySigning(ZoneKeys(w, ".")) && a in ROOT_ANCHORS ==> !Anchored(w, k, a)
    ensures matched.Some? <==> RootHolds(w)
  {
    forall k: Key
      ensures k in KeySigning(ZoneKeys(w, ".")) <==> k in ZoneKeys(w, ".") && k.flags == KSK
    {
      InKeySigning(ZoneKeys(w, "."), k);
    }
    hide ZoneKeys, KeySigning, EqualFold;
  }

  // ---- The whole validation ----

  function Fqdn(s: string): string {
    if s != "" && s[|s| - 1] == '.' then s else s + "."
  }

  function AfterDot(s: string): string {
    if s == [] then [] else if s[0] == '.' then s[1..] else AfterDot(s[1..])
  }

  /** Root, top-level domain, registrable domain. */
  function Zones(registrable: string): seq<string> {
    var reg := Fqdn(registrable);
    [".", Fqdn(AfterDot(reg)), reg]
  }

  /** A name under a public suffix: one label in front of the suffix. */
  predicate IsRegistrable(own: string, suffix: string) {
    '.' !in own && suffix != "" && suffix[|suffix| - 1] != '.'
  }

  /** The zones of a registrable name, with or without the root's dot at its end: the root, the suffix and the
      name, in this order. */
  lemma ZonesAre(own: string, suffix: string)
    requires IsRegistrable(own, suffix)
    ensures Zones(own + "." + suffix) == [".", suffix + ".", own + "." + suffix + "."]
    ensures Zones(own + "." + suffix + ".") == [".", suffix + ".", own + "." + suffix + "."]
  {
    var name := own + "." + suffix;
    assert name[|name| - 1] == suffix[|suffix| - 1];
    assert Fqdn(name) == name + "." && Fqdn(name + ".") == name + ".";
    assert name + "." == own + "." + (suffix + ".");
    AfterFirstDot(own, suffix + ".");
    hide AfterDot;
  }

  lemma {:induction false} AfterFirstDot(own: string, rest: string)
    requires '.' !in own
    ensures AfterDot(own + "." + rest) == rest
  {
    if own != "" {
      assert own[0] in own;
      assert (own + "." + rest)[1..] == own[1..] + "." + rest;
      AfterFirstDot(own[1..], rest);
    }
  }

  function Addresses(rrset: seq<Rr>): seq<string> {
    FlatMap((rr: Rr) => AddressOf(rr), rrset)
  }

  function AddressOf(rr: Rr): seq<string> {
    if rr.ARr? then [rr.address] else []
  }

  /** The chain is intact: an anchored root, every link below it, and the answer at the end. */
  ghost predicate ChainIntact(w: World, registrable: string, qname: string) {
    var zones := Zones(registrable);
    (forall j :: 0 <= j < |zones| ==> LinkHolds(w, zones, j)) && LeafHolds(w, ZoneKeys(w, zones[2]), qname)
  }

  /** Phase 3: the address records of the name under the keys of the last zone. */
  method CheckAnswer(w: World, qname: string, keys: seq<Key>) returns (reason: string, leaf: Option<Leaf>)
    ensures reason == "" <==> LeafHolds(w, keys, qname)
    ensures leaf.Some? ==> leaf.value.verified == (reason == "")
    ensures reason == "" ==> leaf.Some? && SignedSet(w, qname, A).Some?
    ensures reason == "" ==>
              var s := SignedSet(w, qname, A).value;
              leaf.value == Leaf(true, Addresses(s.rrset), s.sig.keyTag)
  {
    hide VerifiedUnder, SignedSet, FlatMap;
    var answer := FetchSigned(w, qname, A);
    if answer.Err? {
      return "no signed A for " + qname + ": " + answer.error, None;
    }
    var ok := VerifyRrsig(w, answer.value, keys);
    if !ok {
      return "A RRSIG verification failed", Some(Leaf(false, [], 0));
    }
    reason := "";
    leaf := Some(Leaf(true, Addresses(answer.value.rrset), answer.value.sig.keyTag));
  }

  /** What a validation reports, whatever the network answered. */
  ghost predicate Reported(w: World, reg: Option<string>, qname: string, v: Validation) {
    && (v.validated <==> reg.Some? && reg.value != "" && ChainIntact(w, reg.value, qname))
    && (v.validated <==> v.reason == "")
    && (if reg.Some? && reg.value != "" then Walked(w, Zones(reg.value), v.levels) else v.levels == [])
    && (v.validated || v.leaf.Some? ==> |v.levels| == 3 && AllTrusted(v.levels))
    && (v.leaf.Some? ==> v.leaf.value.verified == v.validated)
    && (v.validated ==> v.leaf.Some? && Some(v.leaf.value.signedBy) == SignerOf(w, qname))
  }

  method Validated(w: World, name: string, registrableOf: string -> Option<string>) returns (v: Validation)
    ensures var qname := Fqdn(ToLower(name));
            Reported(w, registrableOf(qname[..|qname| - 1]), qname, v)
  {
    v := Validation(false, "", [], None);
    var qname := Fqdn(ToLower(name));
    var reg := registrableOf(qname[..|qname| - 1]);
    if reg.None? || reg.value == "" {
      return v.(reason := "could not derive registrable domain");
    }
    var zones := Zones(reg.value);
    ZonesShape(reg.value);
    hide LinkHolds, LeafHolds, Fqdn, ToLower, SignedSet, Zones, Walked, AllTrusted, ChainIntact, Reported, SignerOf;
    hide ZoneKeys, Addresses;
    var levels, reason, keys := WalkZones(w, zones);
    v := v.(levels := levels);
    if reason != "" {
      v := v.(reason := reason);
      WalkReported(w, reg, qname, v);
      return;
    }
    var failure, leaf := CheckAnswer(w, qname, keys);
    v := v.(reason := failure, leaf := leaf, validated := failure == "");
    if failure == "" {
      SignerIs(w, qname);
    }
    AnswerReported(w, reg, qname, v);
  }

  method ValidateDnssecChain(w: World, name: string, registrableOf: string -> Option<string>) returns (v: Validation)
    ensures var qname := Fqdn(ToLower(name));
            var reg := registrableOf(qname[..|qname| - 1]);
            && Reported(w, reg, qname, v)
            && forall own, suffix :: IsRegistrable(own, suffix) && reg == Some(own + "." + suffix) ==>
                 ReportedByName(w, own, suffix, qname, v)
  {
    v := Validated(w, name, registrableOf);
    ghost var qname := Fqdn(ToLower(name));
    ghost var reg := registrableOf(qname[..|qname| - 1]);
    hide *;
    forall own, suffix | IsRegistrable(own, suffix) && reg == Some(own + "." + suffix)
      ensures ReportedByName(w, own, suffix, qname, v)
    {
      NamesAreReported(w, own, suffix, qname, v);
    }
  }
  /** The report in terms of the name: the levels are those of the root, the suffix and the name, from the
      first one on, and the verdict is that the root is anchored, the root's keys vouch for the suffix, the
      suffix's keys for the name, and the keys of the name for the answer. */
  ghost predicate ReportedByName(w: World, own: string, suffix: string, qname: string, v: Validation) {
    var parent, child := suffix + ".", own + "." + suffix + ".";
    && |v.levels| <= 3 && (forall j :: 0 <= j < |v.levels| ==> v.levels[j].zone == [".", parent, child][j])
    && (v.validated <==>
          && RootHolds(w)
          && ChildHolds(w, ZoneKeys(w, "."), parent)
          && ChildHolds(w, ZoneKeys(w, parent), child)
          && LeafHolds(w, ZoneKeys(w, child), qname))
  }

  lemma NamesAreReported(w: World, own: string, suffix: string, qname: string, v: Validation)
    requires IsRegistrable(own, suffix) && Reported(w, Some(own + "." + suffix), qname, v)
    ensures ReportedByName(w, own, suffix, qname, v)
  {
    ZonesAre(own, suffix);
    var zones := Zones(own + "." + suffix);
    hide Zones, IsRegistrable, RootHolds, ChildHolds, LeafHolds, ZoneKeys, SignerOf, AllTrusted;
    assert own + "." + suffix != "";
    assert LinkHolds(w, zones, 0) <==> RootHolds(w);
    assert LinkHolds(w, zones, 1) <==> ChildHolds(w, ZoneKeys(w, "."), zones[1]);
    assert LinkHolds(w, zones, 2) <==> ChildHolds(w, ZoneKeys(w, zones[1]), zones[2]);
    assert ChainIntact(w, own + "." + suffix, qname) <==>
      LinkHolds(w, zones, 0) && LinkHolds(w, zones, 1) && LinkHolds(w, zones, 2)
      && LeafHolds(w, ZoneKeys(w, zones[2]), qname);
  }

  lemma SignerIs(w: World, qname: string)
    requires SignedSet(w, qname, A).Some?
    ensures SignerOf(w, qname) == Some(SignedSet(w, qname, A).value.sig.keyTag)
  {
    hide SignedSet;
  }

  /** A walk that stopped early leaves nothing validated. */
  lemma WalkReported(w: World, reg: Option<string>, qname: string, v: Validation)
    requires reg.Some? && reg.value != "" && Walked(w, Zones(reg.value), v.levels)
    requires !(|v.levels| == |Zones(reg.value)| && AllTrusted(v.levels))
    requires !v.validated && v.leaf.None? && v.reason != ""
    ensures Reported(w, reg, qname, v)
  {
    ZonesShape(reg.value);
    hide Zones, Walked, AllTrusted, LinkHolds, LeafHolds, ZoneKeys;
    BrokenWalk(w, Zones(reg.value), v.levels);
  }

  /** Behind a whole walk the answer decides. */
  lemma AnswerReported(w: World, reg: Option<string>, qname: string, v: Validation)
    requires reg.Some? && reg.value != "" && Walked(w, Zones(reg.value), v.levels)
    requires |v.levels| == |Zones(reg.value)| && AllTrusted(v.levels)
    requires v.validated <==> LeafHolds(w, ZoneKeys(w, Zones(reg.value)[|v.levels| - 1]), qname)
    requires v.validated <==> v.reason == ""
    requires v.leaf.Some? ==> v.leaf.value.verified == v.validated
    requires v.validated ==> v.leaf.Some? && Some(v.leaf.value.signedBy) == SignerOf(w, qname)
    ensures Reported(w, reg, qname, v)
  {
    ZonesShape(reg.value);
    hide Zones, LinkHolds, LeafHolds, ZoneKeys, SignerOf;
    assert forall j :: 0 <= j < |v.levels| ==> LinkHolds(w, Zones(reg.value), j);
  }

  lemma ZonesShape(registrable: string)
    ensures |Zones(registrable)| == 3 && Zones(registrable)[0] == "."
  {
    hide Fqdn, AfterDot;
  }

  function SignerOf(w: World, qname: string): Option<nat> {
    match SignedSet(w, qname, A)
    case None => None
    case Some(s) => Some(s.sig.keyTag)
  }

  lemma BrokenWalk(w: World, zones: seq<string>, levels: seq<Level>)
    requires Walked(w, zones, levels) && zones != [] && !(|levels| == |zones| && AllTrusted(levels))
    ensures !(forall j :: 0 <= j < |zones| ==> LinkHolds(w, zones, j))
  {
    hide ChildHolds, ZoneKeys, Anchored;
    if levels == [] {
      assert !LinkHolds(w, zones, 0);
    } else if |levels| < |zones| {
      assert !LinkHolds(w, zones, |levels| - 1);
    }
  }
}
