/** Two policies and what they must be charged for; and what the rubric looks at in any policy. */
module KnownPolicies {
  import opened Lists
  import opened Text
  import opened Csp

  /** What a list stands for: the directive's own sources, or default-src when it is absent. */
  function SourcesOf(p: policy, name: string): seq<string> {
    if name in p then p[name] else if "default-src" in p then p["default-src"] else []
  }

  /** Scripts are charged for a wildcard exactly when a source of script-src, or of default-src in its place,
      is the star or one of seven bare schemes. */
  lemma ScriptWildcards(p: policy)
    ensures Deserves(p, ScriptWildcard)
       <==> exists s :: s in SourcesOf(p, "script-src")
                        && ToLower(TrimSpace(s)) in {"*", "data:", "blob:", "http:", "https:", "filesystem:",
                                                     "ws:", "wss:"}
  {
    FetchSources(p, "script-src");
    hide InEffect, SourcesOf, ToLower, TrimSpace;
    if s :| s in SourcesOf(p, "script-src") && IsWildcard(s) {
      assert Deserves(p, ScriptWildcard);
    }
  }

  /** Objects are charged for unless object-src, or default-src in its place, lists 'none'. */
  lemma ObjectSources(p: policy)
    ensures Deserves(p, ObjectSrcOpen)
       <==> forall s :: s in SourcesOf(p, "object-src") ==> ToLower(s) != "'none'"
  {
    FetchSources(p, "object-src");
    assert ToLower("'none'") == "'none'";
    hide InEffect, SourcesOf, ToLower;
    assert AnyKeyword(InEffect(p, "object-src"), "'none'")
      <==> exists s :: s in SourcesOf(p, "object-src") && ToLower(s) == "'none'";
  }

  /** Twelve fetch directives fall back to default-src, and no other directive does. */
  lemma FetchSources(p: policy, name: string)
    ensures InEffect(p, name)
         == if name in {"script-src", "style-src", "img-src", "font-src", "media-src", "connect-src", "object-src",
                        "frame-src", "child-src", "worker-src", "manifest-src", "prefetch-src"}
            then SourcesOf(p, name)
            else Sources(p, name)
  {
  }

  // ---- Whole lists of findings ----

  /** The findings of one issue at a time. */
  function One(p: policy, i: Issue): seq<Finding> {
    if Deserves(p, i) then [Found(i)] else []
  }

  lemma DeservedStep(p: policy, k: nat)
    requires k < |ISSUES|
    ensures Deserved(p, ISSUES[..k + 1]) == Deserved(p, ISSUES[..k]) + One(p, ISSUES[k])
  {
    FlatMapGrow(Raised(p), ISSUES, k);
    hide FlatMap, Deserves;
  }

  lemma IssueNames()
    ensures |ISSUES| == 13 && ISSUES[..13] == ISSUES
    ensures ISSUES[0] == UnsafeInline && ISSUES[1] == UnsafeEval && ISSUES[2] == ScriptWildcard
    ensures ISSUES[3] == ObjectSrcOpen && ISSUES[4] == DefaultSrcAbsent && ISSUES[5] == ScriptSrcAbsent
    ensures ISSUES[6] == BaseUriUnset && ISSUES[7] == FormActionUnset && ISSUES[8] == FrameAncestorsUnset
    ensures ISSUES[9] == UnsafeHashes && ISSUES[10] == NoReporting && ISSUES[11] == NoncesWithoutStrictDynamic
    ensures ISSUES[12] == NoUpgrade
  {
  }

  lemma CriticalOnes(p: policy)
    ensures Deserved(p, ISSUES[..4])
         == One(p, UnsafeInline) + One(p, UnsafeEval) + One(p, ScriptWildcard) + One(p, ObjectSrcOpen)
  {
    IssueNames();
    NothingDeserved(p);
    hide *;
    DeservedStep(p, 0);
    DeservedStep(p, 1);
    DeservedStep(p, 2);
    DeservedStep(p, 3);
    assert [] + One(p, UnsafeInline) == One(p, UnsafeInline);
  }

  lemma HighOnes(p: policy)
    ensures Deserved(p, ISSUES[..8])
         == Deserved(p, ISSUES[..4]) + One(p, DefaultSrcAbsent) + One(p, ScriptSrcAbsent) + One(p, BaseUriUnset)
            + One(p, FormActionUnset)
  {
    IssueNames();
    hide *;
    DeservedStep(p, 4);
    DeservedStep(p, 5);
    DeservedStep(p, 6);
    DeservedStep(p, 7);
  }

  lemma OtherOnes(p: policy)
    ensures Deserved(p, ISSUES)
         == Deserved(p, ISSUES[..8]) + One(p, FrameAncestorsUnset) + One(p, UnsafeHashes) + One(p, NoReporting)
            + One(p, NoncesWithoutStrictDynamic) + One(p, NoUpgrade)
  {
    IssueNames();
    hide *;
    DeservedStep(p, 8);
    DeservedStep(p, 9);
    DeservedStep(p, 10);
    DeservedStep(p, 11);
    DeservedStep(p, 12);
  }

  // ---- A careless policy ----

  const CARELESS: policy := map["script-src" := ["'unsafe-inline'", "'UNSAFE-EVAL'", "'unsafe-hashes'", "https:"]]

  lemma Lowered()
    ensures ToLower("'unsafe-inline'") == "'unsafe-inline'" && ToLower("'UNSAFE-EVAL'") == "'unsafe-eval'"
    ensures ToLower("'unsafe-hashes'") == "'unsafe-hashes'" && ToLower("https:") == "https:"
    ensures ToLower("'unsafe-eval'") == "'unsafe-eval'"
    ensures TrimSpace("https:") == "https:"
  {
  }

  /** Nonces start with 'n behind the quote, hashes with 's. */
  lemma NeitherNonceNorHash(s: string)
    requires |s| >= 2
    requires ToLower(s)[0] != '\'' || (ToLower(s)[1] != 'n' && ToLower(s)[1] != 's')
    ensures !IsNonce(s) && !IsHash(s)
  {
    var t := ToLower(s);
    assert "'nonce-"[1] == 'n' && "'sha256-"[1] == "'sha384-"[1] == "'sha512-"[1] == 's';
    hide ToLower;
  }

  lemma CarelessScripts()
    ensures var script := CARELESS["script-src"];
            && AnyKeyword(script, "'unsafe-inline'") && AnyKeyword(script, "'unsafe-eval'")
            && AnyKeyword(script, "'unsafe-hashes'") && AnyWildcard(script)
  {
    Lowered();
    var script := CARELESS["script-src"];
    hide ToLower, TrimSpace;
    assert IsKeyword(script[0], "'unsafe-inline'") && IsKeyword(script[1], "'unsafe-eval'");
    assert IsKeyword(script[2], "'unsafe-hashes'") && IsWildcard(script[3]);
  }

  lemma CarelessLacks()
    ensures var script := CARELESS["script-src"];
            !AnyKeyword(script, "'strict-dynamic'") && !AnyNonce(script) && !AnyHash(script)
  {
    var script := CARELESS["script-src"];
    forall s | s in script
      ensures |ToLower(s)| >= 2 && (ToLower(s)[0] != '\'' || ToLower(s)[1] == 'u')
    {
      assert s == script[0] || s == script[1] || s == script[2] || s == script[3];
    }
    assert ToLower("'strict-dynamic'")[0] == '\'' && ToLower("'strict-dynamic'")[1] == 's';
    hide ToLower, CARELESS;
    forall s | s in script
      ensures !IsKeyword(s, "'strict-dynamic'") && !IsNonce(s) && !IsHash(s)
    {
      NeitherNonceNorHash(s);
      hide IsNonce, IsHash;
    }
  }

  lemma CarelessSources()
    ensures InEffect(CARELESS, "script-src") == CARELESS["script-src"] && InEffect(CARELESS, "object-src") == []
  {
  }

  lemma NoKeyword(kw: string)
    ensures !AnyKeyword([], kw)
  {
  }

  lemma CarelessDeserves(i: Issue)
    ensures Deserves(CARELESS, i) <==> i != ScriptSrcAbsent && i != NoncesWithoutStrictDynamic
  {
    CarelessScripts();
    CarelessLacks();
    CarelessSources();
    NoKeyword("'none'");
    CarelessNames();
    hide InEffect, AnyKeyword, AnyWildcard, AnyNonce, AnyHash, CARELESS;
  }

  lemma CarelessNames()
    ensures "script-src" in CARELESS && "default-src" !in CARELESS && "base-uri" !in CARELESS
    ensures "form-action" !in CARELESS && "frame-ancestors" !in CARELESS && "report-uri" !in CARELESS
    ensures "report-to" !in CARELESS && "upgrade-insecure-requests" !in CARELESS
  {
    Absent("default-src");
    Absent("base-uri");
    Absent("form-action");
    Absent("frame-ancestors");
    Absent("report-uri");
    Absent("report-to");
    Absent("upgrade-insecure-requests");
    hide CARELESS;
    assert "script-src" in CARELESS by {
      Present();
    }
  }

  lemma Present()
    ensures "script-src" in CARELESS
  {
  }

  lemma Absent(name: string)
    requires name != "script-src"
    ensures name !in CARELESS
  {
  }

  /** Eleven charges of the four severities, in the order of the rubric. */
  lemma CarelessIsCharged()
    ensures Deserved(CARELESS, ISSUES)
         == [Finding(Critical, UnsafeInline), Finding(Critical, UnsafeEval), Finding(Critical, ScriptWildcard),
             Finding(Critical, ObjectSrcOpen), Finding(High, DefaultSrcAbsent), Finding(High, BaseUriUnset),
             Finding(High, FormActionUnset), Finding(Medium, FrameAncestorsUnset), Finding(Medium, UnsafeHashes),
             Finding(Medium, NoReporting), Finding(Low, NoUpgrade)]
    ensures Penalty(Deserved(CARELESS, ISSUES)) == 160
  {
    hide *;
    CriticalOnes(CARELESS);
    HighOnes(CARELESS);
    OtherOnes(CARELESS);
    CarelessOne(UnsafeInline);
    CarelessOne(UnsafeEval);
    CarelessOne(ScriptWildcard);
    CarelessOne(ObjectSrcOpen);
    CarelessOne(DefaultSrcAbsent);
    CarelessOne(ScriptSrcAbsent);
    CarelessOne(BaseUriUnset);
    CarelessOne(FormActionUnset);
    CarelessOne(FrameAncestorsUnset);
    CarelessOne(UnsafeHashes);
    CarelessOne(NoReporting);
    CarelessOne(NoncesWithoutStrictDynamic);
    CarelessOne(NoUpgrade);
    Severities();
    CarelessPenalty(Deserved(CARELESS, ISSUES));
  }

  lemma CarelessPenalty(f: seq<Finding>)
    requires |f| == 11
    requires f[0].severity == f[1].severity == f[2].severity == f[3].severity == Critical
    requires f[4].severity == f[5].severity == f[6].severity == High
    requires f[7].severity == f[8].severity == f[9].severity == Medium && f[10].severity == Low
    ensures Penalty(f) == 160
  {
    Weights();
    hide Penalty, Weight;
    assert f[..0] == [] && f[..11] == f;
    NoPenalty();
    PenaltyStep(f, 0);
    PenaltyStep(f, 1);
    PenaltyStep(f, 2);
    PenaltyStep(f, 3);
    PenaltyStep(f, 4);
    PenaltyStep(f, 5);
    PenaltyStep(f, 6);
    PenaltyStep(f, 7);
    PenaltyStep(f, 8);
    PenaltyStep(f, 9);
    PenaltyStep(f, 10);
  }

  lemma Weights()
    ensures Weight(Critical) == 20 && Weight(High) == 15 && Weight(Medium) == 10 && Weight(Low) == 5
  {
  }

  lemma NoPenalty()
    ensures Penalty([]) == 0
  {
  }

  lemma PenaltyStep(findings: seq<Finding>, k: nat)
    requires k < |findings|
    ensures Penalty(findings[..k + 1]) == Penalty(findings[..k]) + Weight(findings[k].severity)
  {
    PenaltyAppend(findings[..k], findings[k]);
    hide Penalty, Weight;
    assert findings[..k + 1] == findings[..k] + [findings[k]];
  }

  lemma CarelessOne(i: Issue)
    ensures One(CARELESS, i) == if i == ScriptSrcAbsent || i == NoncesWithoutStrictDynamic then [] else [Found(i)]
  {
    CarelessDeserves(i);
    hide Deserves, CARELESS;
  }

  lemma Severities()
    ensures Found(UnsafeInline) == Finding(Critical, UnsafeInline) && Found(UnsafeEval) == Finding(Critical, UnsafeEval)
    ensures Found(ScriptWildcard) == Finding(Critical, ScriptWildcard)
    ensures Found(ObjectSrcOpen) == Finding(Critical, ObjectSrcOpen)
    ensures Found(DefaultSrcAbsent) == Finding(High, DefaultSrcAbsent)
    ensures Found(BaseUriUnset) == Finding(High, BaseUriUnset)
    ensures Found(FormActionUnset) == Finding(High, FormActionUnset)
    ensures Found(FrameAncestorsUnset) == Finding(Medium, FrameAncestorsUnset)
    ensures Found(UnsafeHashes) == Finding(Medium, UnsafeHashes)
    ensures Found(NoReporting) == Finding(Medium, NoReporting)
    ensures Found(NoncesWithoutStrictDynamic) == Finding(Medium, NoncesWithoutStrictDynamic)
    ensures Found(NoUpgrade) == Finding(Low, NoUpgrade)
  {
  }

  // ---- A careful policy ----

  const CAREFUL: policy :=
    map["default-src" := ["'none'"], "script-src" := ["'nonce-abc'"], "base-uri" := [], "form-action" := [],
        "frame-ancestors" := [], "report-to" := ["x"], "upgrade-insecure-requests" := []]

  lemma CarefulSources()
    ensures InEffect(CAREFUL, "script-src") == ["'nonce-abc'"] && InEffect(CAREFUL, "object-src") == ["'none'"]
  {
  }

  lemma NonceIsOne()
    ensures IsNonce("'nonce-abc'")
  {
    var t := ToLower("'nonce-abc'");
    assert t == "'nonce-abc'";
    hide ToLower;
    assert "'nonce-" <= t && t[|t| - 1..] == "'";
  }

  lemma NonceIsNoKeyword(kw: string)
    requires |kw| >= 2 && (kw[1] == 'u' || kw[1] == 's')
    ensures !AnyKeyword(["'nonce-abc'"], kw)
  {
    var s := "'nonce-abc'";
    assert ToLower(s)[1] == 'n' && ToLower(kw)[1] == kw[1];
    hide ToLower;
  }

  lemma NonceIsNothingElse()
    ensures !AnyHash(["'nonce-abc'"]) && !AnyWildcard(["'nonce-abc'"])
  {
    var s := "'nonce-abc'";
    assert ToLower(s)[1] == 'n' && TrimSpace(s) == s && ToLower(s)[0] == '\'';
    assert "'sha256-"[1] == "'sha384-"[1] == "'sha512-"[1] == 's';
    hide ToLower, TrimSpace;
  }

  lemma CarefulScripts()
    ensures AnyKeyword(["'none'"], "'none'") && AnyNonce(["'nonce-abc'"])
    ensures !AnyKeyword(["'nonce-abc'"], "'unsafe-inline'") && !AnyKeyword(["'nonce-abc'"], "'unsafe-eval'")
    ensures !AnyKeyword(["'nonce-abc'"], "'unsafe-hashes'") && !AnyKeyword(["'nonce-abc'"], "'strict-dynamic'")
  {
    NonceIsOne();
    NonceIsNoKeyword("'unsafe-inline'");
    NonceIsNoKeyword("'unsafe-eval'");
    NonceIsNoKeyword("'unsafe-hashes'");
    NonceIsNoKeyword("'strict-dynamic'");
    hide ToLower, IsNonce;
    assert ["'nonce-abc'"][0] == "'nonce-abc'" && ["'none'"][0] == "'none'" && IsKeyword("'none'", "'none'");
  }

  lemma CarefulDeserves(i: Issue)
    ensures Deserves(CAREFUL, i) <==> i == NoncesWithoutStrictDynamic
  {
    CarefulScripts();
    CarefulSources();
    CarefulNames();
    NonceIsNothingElse();
    hide InEffect, AnyKeyword, AnyWildcard, AnyNonce, AnyHash, CAREFUL;
  }

  lemma CarefulNames()
    ensures "default-src" in CAREFUL && "script-src" in CAREFUL && "base-uri" in CAREFUL && "form-action" in CAREFUL
    ensures "frame-ancestors" in CAREFUL && "report-to" in CAREFUL && "upgrade-insecure-requests" in CAREFUL
  {
  }

  /** One charge, for nonces without strict-dynamic; object-src falls back to default-src. */
  lemma CarefulIsCharged()
    ensures Deserved(CAREFUL, ISSUES) == [Finding(Medium, NoncesWithoutStrictDynamic)]
    ensures Clamp(100 - Penalty(Deserved(CAREFUL, ISSUES)) + Bonus(CAREFUL)) == 95
  {
    hide *;
    CarefulOnes();
    Severities();
    var f := Finding(Medium, NoncesWithoutStrictDynamic);
    OneCharge(f);
    CarefulBonus(f);
  }

  lemma CarefulOne(i: Issue)
    ensures One(CAREFUL, i) == if i == NoncesWithoutStrictDynamic then [Found(i)] else []
  {
    CarefulDeserves(i);
    hide Deserves, CAREFUL;
  }

  lemma CarefulOnes()
    ensures Deserved(CAREFUL, ISSUES) == [Found(NoncesWithoutStrictDynamic)]
  {
    hide *;
    CriticalOnes(CAREFUL);
    HighOnes(CAREFUL);
    OtherOnes(CAREFUL);
    CarefulOne(UnsafeInline);
    CarefulOne(UnsafeEval);
    CarefulOne(ScriptWildcard);
    CarefulOne(ObjectSrcOpen);
    CarefulOne(DefaultSrcAbsent);
    CarefulOne(ScriptSrcAbsent);
    CarefulOne(BaseUriUnset);
    CarefulOne(FormActionUnset);
    CarefulOne(FrameAncestorsUnset);
    CarefulOne(UnsafeHashes);
    CarefulOne(NoReporting);
    CarefulOne(NoncesWithoutStrictDynamic);
    CarefulOne(NoUpgrade);
  }

  lemma CarefulBonus(f: Finding)
    requires f.severity == Medium && Penalty([f]) == Weight(f.severity)
    ensures Clamp(100 - Penalty([f]) + Bonus(CAREFUL)) == 95
  {
    CarefulScripts();
    CarefulSources();
    NonceIsNothingElse();
    hide Penalty, CAREFUL, InEffect, AnyKeyword, AnyNonce, AnyHash;
  }

  lemma OneCharge(f: Finding)
    ensures Penalty([f]) == Weight(f.severity)
  {
    assert [f][1..] == [] && Penalty([]) == 0;
  }

  // ---- The bonuses ----

  lemma OneSource(source: string)
    ensures var script := [source];
            && (AnyNonce(script) <==> IsNonce(source)) && (AnyHash(script) <==> IsHash(source))
            && (AnyKeyword(script, "'strict-dynamic'") <==> IsKeyword(source, "'strict-dynamic'"))
  {
    hide IsNonce, IsHash, IsKeyword;
    assert [source][0] == source;
  }

  lemma BonusOf(source: string)
    ensures Bonus(map["script-src" := [source]])
         == (if IsNonce(source) then 5 else 0) + (if IsHash(source) then 5 else 0)
            + (if IsKeyword(source, "'strict-dynamic'") then 10 else 0)
  {
    var p: policy := map["script-src" := [source]];
    OneSource(source);
    assert InEffect(p, "script-src") == [source];
    hide AnyNonce, AnyHash, AnyKeyword, InEffect, IsNonce, IsHash, IsKeyword;
  }

  /** A nonce is worth 5 points, a hash 5 and strict-dynamic 10. */
  lemma Bonuses()
    ensures Bonus(map["script-src" := ["'nonce-abc'"]]) == 5
    ensures Bonus(map["script-src" := ["'sha256-abc'"]]) == 5
    ensures Bonus(map["script-src" := ["'strict-dynamic'"]]) == 10
  {
    BonusOf("'nonce-abc'");
    BonusOf("'sha256-abc'");
    BonusOf("'strict-dynamic'");
    NonceIsOne();
    NonceSources();
    HashSources();
    StrictSources();
    hide Bonus, IsNonce, IsHash, IsKeyword;
  }

  lemma NonceSources()
    ensures !IsHash("'nonce-abc'") && !IsKeyword("'nonce-abc'", "'strict-dynamic'")
  {
    NonceIsNothingElse();
    NonceIsNoKeyword("'strict-dynamic'");
    hide IsHash, IsKeyword;
    assert ["'nonce-abc'"][0] == "'nonce-abc'";
  }

  lemma HashSources()
    ensures IsHash("'sha256-abc'") && !IsNonce("'sha256-abc'") && !IsKeyword("'sha256-abc'", "'strict-dynamic'")
  {
    var s := "'sha256-abc'";
    assert ToLower(s) == s;
    assert |ToLower("'strict-dynamic'")| == 16 && |s| == 12;
    hide ToLower;
    assert "'sha256-" <= s && s[|s| - 1..] == "'" && s[1] == 's' && "'nonce-"[1] == 'n';
  }

  lemma StrictSources()
    ensures IsKeyword("'strict-dynamic'", "'strict-dynamic'")
    ensures !IsHash("'strict-dynamic'") && !IsNonce("'strict-dynamic'")
  {
    var s := "'strict-dynamic'";
    assert ToLower(s)[2] == 't' && ToLower(s)[1] == 's';
    hide ToLower;
    assert "'sha256-"[2] == "'sha384-"[2] == "'sha512-"[2] == 'h' && "'nonce-"[1] == 'n';
  }
}
