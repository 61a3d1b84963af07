/** Content-Security-Policy: the header parser and the strictness score. */
module Csp {
  import opened Lists
  import opened Outcomes
  import opened Text

  type policy = map<string, seq<string>>

  // ---- The parser ----

  /** The source list of a directive; empty when the policy does not have it. */
  function Sources(p: policy, name: string): seq<string> {
    if name in p then p[name] else []
  }

  datatype Directive = Directive(name: string, sources: seq<string>)

  /** What one segment of the header declares, if anything. */
  function Declared(segment: string): seq<Directive> {
    var f := Fields(TrimSpace(segment));
    if f == [] then [] else [Directive(ToLower(f[0]), f[1..])]
  }

  function Append(p: policy, d: Directive): policy {
    p[d.name := Sources(p, d.name) + d.sources]
  }

  function Declarations(raw: string): seq<Directive> {
    FlatMap(Declared, Split(raw, ';'))
  }

  /** The sources the directives of one name list, in order. */
  function Listed(ds: seq<Directive>, name: string): seq<string> {
    if ds == [] then []
    else (if ds[0].name == name then ds[0].sources else []) + Listed(ds[1..], name)
  }

  predicate Names(ds: seq<Directive>, name: string) {
    exists i :: 0 <= i < |ds| && ds[i].name == name
  }

  /** p groups the directives of ds by name. */
  ghost predicate Groups(p: policy, ds: seq<Directive>) {
    forall name :: (name in p <==> Names(ds, name)) && Sources(p, name) == Listed(ds, name)
  }

  lemma NamesAppend(a: seq<Directive>, b: seq<Directive>, name: string)
    ensures Names(a + b, name) <==> Names(a, name) || Names(b, name)
  {
    if Names(a, name) {
      var i :| 0 <= i < |a| && a[i].name == name;
      assert (a + b)[i].name == name;
    }
    if Names(b, name) {
      var i :| 0 <= i < |b| && b[i].name == name;
      assert (a + b)[|a| + i].name == name;
    }
  }

  lemma {:induction false} ListedAppend(a: seq<Directive>, b: seq<Directive>, name: string)
    ensures Listed(a + b, name) == Listed(a, name) + Listed(b, name)
  {
    if a == [] {
      assert a + b == b;
    } else {
      assert (a + b)[1..] == a[1..] + b;
      ListedAppend(a[1..], b, name);
    }
  }

  lemma GroupsOne(p: policy, ds: seq<Directive>, d: Directive)
    requires Groups(p, ds)
    ensures Groups(Append(p, d), ds + [d])
  {
    forall name: string
      ensures name in Append(p, d) <==> Names(ds + [d], name)
      ensures Sources(Append(p, d), name) == Listed(ds + [d], name)
    {
      ListedAppend(ds, [d], name);
      NamesAppend(ds, [d], name);
      assert Listed([d], name) == if d.name == name then d.sources else [] by {
        assert [d][1..] == [];
      }
      assert Names([d], name) <==> d.name == name by {
        assert [d][0] == d;
      }
      hide Listed, Names;
    }
  }

  method ParseCsp(raw: string) returns (p: policy)
    ensures Groups(p, Declarations(raw))
    ensures forall q :: Groups(q, Declarations(raw)) ==> q == p
  {
    hide Groups, Append, Fields, TrimSpace, Split;
    var segments := Split(raw, ';');
    p := map[];
    GroupsNothing();
    assert segments[..0] == [];
    for i := 0 to |segments|
      invariant Groups(p, FlatMap(Declared, segments[..i]))
    {
      assert segments[..i + 1] == segments[..i] + [segments[i]];
      FlatMapAppend(Declared, segments[..i], [segments[i]]);
      FlatMapOne(Declared, segments[i]);
      NothingDeclared(FlatMap(Declared, segments[..i]));
      var segment := TrimSpace(segments[i]);
      if segment == "" {
        FieldsOfNothing();
        continue;
      }
      var fields := Fields(segment);
      if |fields| == 0 {
        continue;
      }
      var name := ToLower(fields[0]);
      var srcs: seq<string> := [];
      if |fields| > 1 {
        srcs := fields[1..];
      }
      assert srcs == fields[1..];
      GroupsOne(p, FlatMap(Declared, segments[..i]), Directive(name, srcs));
      AppendIs(p, name, srcs);
      p := p[name := (if name in p then p[name] else []) + srcs];
    }
    assert segments[..|segments|] == segments;
    forall q | Groups(q, Declarations(raw))
      ensures q == p
    {
      GroupsIsUnique(p, q, Declarations(raw));
    }
  }

  lemma GroupsNothing()
    ensures Groups(map[], [])
  {
  }

  lemma NothingDeclared(ds: seq<Directive>)
    ensures ds + [] == ds
  {
  }

  lemma FieldsOfNothing()
    ensures Fields("") == []
  {
  }

  lemma AppendIs(p: policy, name: string, srcs: seq<string>)
    ensures Append(p, Directive(name, srcs)) == p[name := (if name in p then p[name] else []) + srcs]
  {
  }

  /** Two headers joined by a semicolon declare what the first and then the second declare. */
  lemma DeclarationsConcat(a: string, b: string)
    ensures Declarations(a + ";" + b) == Declarations(a) + Declarations(b)
  {
    hide FlatMap, Declared;
    SplitConcat(a, b, ';');
    FlatMapAppend(Declared, Split(a, ';'), Split(b, ';'));
  }

  /** Parsing is a homomorphism: in the policy of "a;b" every directive has the sources of a's policy
      followed by those of b's, and no other directive is there. */
  lemma ParsingConcat(a: string, b: string, pa: policy, pb: policy, pab: policy, name: string)
    requires Groups(pa, Declarations(a)) && Groups(pb, Declarations(b)) && Groups(pab, Declarations(a + ";" + b))
    ensures Sources(pab, name) == Sources(pa, name) + Sources(pb, name)
    ensures name in pab <==> name in pa || name in pb
  {
    DeclarationsConcat(a, b);
    ListedAppend(Declarations(a), Declarations(b), name);
    NamesAppend(Declarations(a), Declarations(b), name);
    hide Declarations, Listed, Names;
  }

  // ---- Rendering, the other side of the parser ----

  predicate IsRenderable(d: Directive) {
    && IsWord(d.name) && ';' !in d.name
    && forall i :: 0 <= i < |d.sources| ==> IsWord(d.sources[i]) && ';' !in d.sources[i]
  }

  function Render(d: Directive): string {
    Join([d.name] + d.sources, " ")
  }

  /** Names do not depend on case. */
  function InLowerCase(d: Directive): seq<Directive> {
    [Directive(ToLower(d.name), d.sources)]
  }

  function RenderAll(ds: seq<Directive>): seq<string> {
    seq(|ds|, i requires 0 <= i < |ds| => Render(ds[i]))
  }

  lemma {:induction false} JoinAvoids(words: seq<string>, c: char)
    requires c != ' ' && forall i :: 0 <= i < |words| ==> c !in words[i]
    ensures c !in Join(words, " ")
  {
    if words != [] {
      JoinAvoids(words[1..], c);
    }
  }

  lemma DeclaredOfRender(d: Directive)
    requires IsRenderable(d)
    ensures Declared(Render(d)) == InLowerCase(d) && ';' !in Render(d)
  {
    var words := [d.name] + d.sources;
    assert forall i :: 0 <= i < |words| ==> IsWord(words[i]) && ';' !in words[i];
    WordsJoinTrimmed(words);
    FieldsOfJoin(words);
    JoinAvoids(words, ';');
    hide Join, TrimSpace, Fields, IsWord, ToLower;
    assert words[1..] == d.sources;
  }

  lemma {:induction false} DeclaredOfAll(ds: seq<Directive>)
    requires forall i :: 0 <= i < |ds| ==> IsRenderable(ds[i])
    ensures FlatMap(Declared, RenderAll(ds)) == FlatMap(InLowerCase, ds)
  {
    hide Declared, Render, IsRenderable, InLowerCase;
    if ds != [] {
      DeclaredOfRender(ds[0]);
      DeclaredOfAll(ds[1..]);
      assert RenderAll(ds)[1..] == RenderAll(ds[1..]);
      assert ds == [ds[0]] + ds[1..];
    }
  }

  /** Every list of directives, repeated names included, is what its rendering declares, up to the case of the
      names. */
  lemma DeclarationsOfRendering(ds: seq<Directive>)
    requires forall i :: 0 <= i < |ds| ==> IsRenderable(ds[i])
    ensures Declarations(Join(RenderAll(ds), ";")) == FlatMap(InLowerCase, ds)
  {
    hide Join, FlatMap, Declared, Split, Render, IsRenderable;
    DeclaredOfAll(ds);
    if ds == [] {
      EmptyHeader();
    } else {
      forall i | 0 <= i < |ds|
        ensures ';' !in RenderAll(ds)[i]
      {
        DeclaredOfRender(ds[i]);
      }
      SplitJoin(RenderAll(ds), ';');
    }
  }

  lemma EmptyHeader()
    ensures Declarations(Join(RenderAll([]), ";")) == FlatMap(InLowerCase, [])
  {
    FlatMapOne(Declared, "");
    assert Join(RenderAll([]), ";") == "";
    assert Split("", ';') == [""];
  }

  /** The grouping leaves no freedom: it fixes the policy. */
  lemma GroupsIsUnique(p: policy, q: policy, ds: seq<Directive>)
    requires Groups(p, ds) && Groups(q, ds)
    ensures p == q
  {
    hide Listed, Names;
    assert forall name :: name in p <==> name in q;
    assert forall name :: name in p ==> p[name] == Sources(p, name) == Sources(q, name) == q[name];
  }

  // ---- Searching a source list ----

  function Fallback(): set<string> {
    {"script-src", "style-src", "img-src", "font-src", "media-src", "connect-src", "object-src", "frame-src",
     "child-src", "worker-src", "manifest-src", "prefetch-src"}
  }

  /** The source list in effect: a fetch directive that is absent falls back to default-src. */
  function Effective(p: policy, name: string): Option<seq<string>> {
    if name in p then Some(p[name])
    else if name in Fallback() && "default-src" in p then Some(p["default-src"])
    else None
  }

  function InEffect(p: policy, name: string): seq<string> {
    match Effective(p, name)
    case Some(sources) => sources
    case None => []
  }

  predicate HasPrefix(s: string, p: string) {
    p <= s
  }

  predicate HasSuffix(s: string, p: string) {
    |p| <= |s| && s[|s| - |p|..] == p
  }

  predicate IsNonce(s: string) {
    HasPrefix(ToLower(s), "'nonce-") && HasSuffix(ToLower(s), "'")
  }

  predicate IsHash(s: string) {
    && (HasPrefix(ToLower(s), "'sha256-") || HasPrefix(ToLower(s), "'sha384-") || HasPrefix(ToLower(s), "'sha512-"))
    && HasSuffix(ToLower(s), "'")
  }

  predicate IsKeyword(s: string, kw: string) {
    ToLower(s) == ToLower(kw)
  }

  predicate IsWildcard(s: string) {
    ToLower(TrimSpace(s)) in {"*", "data:", "blob:", "http:", "https:", "filesystem:", "ws:", "wss:"}
  }

  predicate AnyNonce(sources: seq<string>) { exists s :: s in sources && IsNonce(s) }

  predicate AnyHash(sources: seq<string>) { exists s :: s in sources && IsHash(s) }

  predicate AnyKeyword(sources: seq<string>, kw: string) { exists s :: s in sources && IsKeyword(s, kw) }

  predicate AnyWildcard(sources: seq<string>) { exists s :: s in sources && IsWildcard(s) }

  method HasNonce(sources: seq<string>) returns (found: bool)
    ensures found == AnyNonce(sources)
  {
    hide IsNonce;
    for i := 0 to |sources|
      invariant forall j :: 0 <= j < i ==> !IsNonce(sources[j])
    {
      if IsNonce(sources[i]) {
        return true;
      }
    }
    found := false;
  }

  method HasHash(sources: seq<string>) returns (found: bool)
    ensures found == AnyHash(sources)
  {
    hide IsHash;
    for i := 0 to |sources|
      invariant forall j :: 0 <= j < i ==> !IsHash(sources[j])
    {
      if IsHash(sources[i]) {
        return true;
      }
    }
    found := false;
  }

  method HasKeyword(sources: seq<string>, kw: string) returns (found: bool)
    ensures found == AnyKeyword(sources, kw)
  {
    hide IsKeyword;
    for i := 0 to |sources|
      invariant forall j :: 0 <= j < i ==> !IsKeyword(sources[j], kw)
    {
      if IsKeyword(sources[i], kw) {
        return true;
      }
    }
    found := false;
  }

  method HasWildcard(sources: seq<string>) returns (found: bool)
    ensures found == AnyWildcard(sources)
  {
    hide IsWildcard;
    for i := 0 to |sources|
      invariant forall j :: 0 <= j < i ==> !IsWildcard(sources[j])
    {
      if IsWildcard(sources[i]) {
        return true;
      }
    }
    found := false;
  }

  // ---- The strictness rubric ----

  datatype Severity = Critical | High | Medium | Low

  datatype Issue =
    | UnsafeInline | UnsafeEval | ScriptWildcard | ObjectSrcOpen
    | DefaultSrcAbsent | ScriptSrcAbsent | BaseUriUnset | FormActionUnset
    | FrameAncestorsUnset | UnsafeHashes | NoReporting | NoncesWithoutStrictDynamic
    | NoUpgrade

  datatype Finding = Finding(severity: Severity, issue: Issue)

  datatype Strictness = Missing | Loose | Moderate | Strict

  datatype Analysis = Analysis(strictness: Strictness, score: int, findings: seq<Finding>, usesNonces: bool,
                               usesHashes: bool, strictDyn: bool, reportingOn: bool)

  function Weight(s: Severity): nat {
    match s
    case Critical => 20
    case High => 15
    case Medium => 10
    case Low => 5
  }

  function Rank(s: Severity): nat {
    match s
    case Critical => 0
    case High => 1
    case Medium => 2
    case Low => 3
  }

  function SeverityOf(i: Issue): Severity {
    match i
    case UnsafeInline => Critical
    case UnsafeEval => Critical
    case ScriptWildcard => Critical
    case ObjectSrcOpen => Critical
    case DefaultSrcAbsent => High
    case ScriptSrcAbsent => High
    case BaseUriUnset => High
    case FormActionUnset => High
    case FrameAncestorsUnset => Medium
    case UnsafeHashes => Medium
    case NoReporting => Medium
    case NoncesWithoutStrictDynamic => Medium
    case NoUpgrade => Low
  }

  predicate UsesNonces(p: policy) { AnyNonce(InEffect(p, "script-src")) }

  predicate UsesHashes(p: policy) { AnyHash(InEffect(p, "script-src")) }

  predicate StrictDynamic(p: policy) { AnyKeyword(InEffect(p, "script-src"), "'strict-dynamic'") }

  predicate Reporting(p: policy) { "report-uri" in p || "report-to" in p }

  /** When the policy deserves an issue. */
  predicate Deserves(p: policy, i: Issue) {
    var script := InEffect(p, "script-src");
    match i
    case UnsafeInline =>
      AnyKeyword(script, "'unsafe-inline'") && !UsesNonces(p) && !UsesHashes(p) && !StrictDynamic(p)
    case UnsafeEval => AnyKeyword(script, "'unsafe-eval'")
    case ScriptWildcard => AnyWildcard(script)
    case ObjectSrcOpen => !AnyKeyword(InEffect(p, "object-src"), "'none'")
    case DefaultSrcAbsent => "default-src" !in p
    case ScriptSrcAbsent => "script-src" !in p && "default-src" !in p
    case BaseUriUnset => "base-uri" !in p
    case FormActionUnset => "form-action" !in p
    case FrameAncestorsUnset => "frame-ancestors" !in p
    case UnsafeHashes => AnyKeyword(script, "'unsafe-hashes'")
    case NoReporting => !Reporting(p)
    case NoncesWithoutStrictDynamic => UsesNonces(p) && !StrictDynamic(p)
    case NoUpgrade => "upgrade-insecure-requests" !in p
  }

  function Penalty(findings: seq<Finding>): nat {
    if findings == [] then 0 else Weight(findings[0].severity) + Penalty(findings[1..])
  }

  lemma {:induction false} PenaltyAppend(findings: seq<Finding>, f: Finding)
    ensures Penalty(findings + [f]) == Penalty(findings) + Weight(f.severity)
  {
    if findings == [] {
      assert [f][1..] == [];
    } else {
      assert (findings + [f])[1..] == findings[1..] + [f];
      PenaltyAppend(findings[1..], f);
    }
  }

  function Bonus(p: policy): nat {
    (if UsesNonces(p) then 5 else 0) + (if UsesHashes(p) then 5 else 0) + (if StrictDynamic(p) then 10 else 0)
  }

  function Clamp(score: int): int {
    if score > 100 then 100 else if score < 0 then 0 else score
  }

  // ---- sort.SliceStable by severity ----

  predicate SortedBySeverity(findings: seq<Finding>) {
    forall i, j :: 0 <= i < j < |findings| ==> Rank(findings[i].severity) <= Rank(findings[j].severity)
  }

  function InsertStable(f: Finding, sorted: seq<Finding>): seq<Finding> {
    if sorted == [] || Rank(f.severity) <= Rank(sorted[0].severity) then [f] + sorted
    else [sorted[0]] + InsertStable(f, sorted[1..])
  }

  function SortStable(findings: seq<Finding>): seq<Finding> {
    if findings == [] then [] else InsertStable(findings[0], SortStable(findings[1..]))
  }

  /** The findings of one severity, in order. */
  function OfSeverity(findings: seq<Finding>, s: Severity): seq<Finding> {
    if findings == [] then []
    else (if findings[0].severity == s then [findings[0]] else []) + OfSeverity(findings[1..], s)
  }

  lemma {:induction false} InsertIsStable(f: Finding, sorted: seq<Finding>)
    requires SortedBySeverity(sorted)
    ensures SortedBySeverity(InsertStable(f, sorted))
    ensures forall s :: OfSeverity(InsertStable(f, sorted), s)
                     == (if f.severity == s then [f] else []) + OfSeverity(sorted, s)
    ensures forall g :: g in InsertStable(f, sorted) ==> g == f || g in sorted
  {
    hide Rank;
    if sorted == [] || Rank(f.severity) <= Rank(sorted[0].severity) {
      OfSeverityCons(f, sorted);
    } else {
      var rest := InsertStable(f, sorted[1..]);
      assert sorted == [sorted[0]] + sorted[1..];
      InsertIsStable(f, sorted[1..]);
      OfSeverityCons(sorted[0], rest);
      OfSeverityCons(sorted[0], sorted[1..]);
      assert InsertStable(f, sorted) == [sorted[0]] + rest;
      hide OfSeverity, InsertStable;
      forall j | 0 <= j < |rest|
        ensures Rank(sorted[0].severity) <= Rank(rest[j].severity)
      {
        assert rest[j] in rest;
        if rest[j] != f {
          var i :| 0 <= i < |sorted[1..]| && sorted[1..][i] == rest[j];
          assert rest[j] == sorted[i + 1];
        }
      }
    }
  }

  lemma OfSeverityCons(f: Finding, findings: seq<Finding>)
    ensures forall s :: OfSeverity([f] + findings, s)
                     == (if f.severity == s then [f] else []) + OfSeverity(findings, s)
  {
    assert ([f] + findings)[1..] == findings;
  }

  /** Sorting orders by severity and keeps the order within each severity. */
  lemma {:induction false} SortIsStable(findings: seq<Finding>)
    ensures SortedBySeverity(SortStable(findings))
    ensures forall s :: OfSeverity(SortStable(findings), s) == OfSeverity(findings, s)
  {
    if findings != [] {
      SortIsStable(findings[1..]);
      InsertIsStable(findings[0], SortStable(findings[1..]));
    }
  }

  lemma {:induction false} SortedStays(findings: seq<Finding>)
    requires SortedBySeverity(findings)
    ensures SortStable(findings) == findings
  {
    if findings != [] {
      SortedStays(findings[1..]);
      assert findings == [findings[0]] + findings[1..];
    }
  }

  // ---- The evaluation ----

  const ISSUES: seq<Issue> := [UnsafeInline, UnsafeEval, ScriptWildcard, ObjectSrcOpen,
                               DefaultSrcAbsent, ScriptSrcAbsent, BaseUriUnset, FormActionUnset,
                               FrameAncestorsUnset, UnsafeHashes, NoReporting, NoncesWithoutStrictDynamic,
                               NoUpgrade]

  function Found(i: Issue): Finding {
    Finding(SeverityOf(i), i)
  }

  function Raised(p: policy): Issue -> seq<Finding> {
    (i: Issue) => if Deserves(p, i) then [Found(i)] else []
  }

  /** The deserved findings among some issues, in their order. */
  function Deserved(p: policy, issues: seq<Issue>): seq<Finding> {
    FlatMap(Raised(p), issues)
  }

  /** Findings and score after the first k checks. */
  ghost predicate Stage(p: policy, k: nat, findings: seq<Finding>, score: int)
    requires k <= |ISSUES|
  {
    findings == Deserved(p, ISSUES[..k]) && score == 100 - Penalty(findings)
  }

  lemma IssuesAreOrdered(j: nat, k: nat)
    requires j < k < |ISSUES|
    ensures ISSUES[j] != ISSUES[k] && Rank(SeverityOf(ISSUES[j])) <= Rank(SeverityOf(ISSUES[k]))
  {
  }

  /** One check of the rubric. */
  method Check(ghost p: policy, ghost k: nat, findings: seq<Finding>, score: int, raised: bool, f: Finding,
               penalty: nat)
    returns (more: seq<Finding>, left: int)
    requires k < |ISSUES| && Stage(p, k, findings, score)
    requires f == Found(ISSUES[k]) && penalty == Weight(f.severity) && raised == Deserves(p, ISSUES[k])
    ensures Stage(p, k + 1, more, left)
  {
    hide Deserves, Weight, SeverityOf, FlatMap;
    more, left := findings, score;
    FlatMapGrow(Raised(p), ISSUES, k);
    assert findings + [] == findings;
    if raised {
      PenaltyAppend(findings, f);
      hide Penalty;
      more := findings + [f];
      left := score - penalty;
    }
  }

  /** The findings among the first k issues: each deserved one once, in order of severity. */
  lemma {:induction false} DeservedInOrder(p: policy, k: nat)
    requires k <= |ISSUES|
    ensures var findings := Deserved(p, ISSUES[..k]);
            && (forall f :: f in findings <==>
                              exists j :: 0 <= j < k && f == Found(ISSUES[j]) && Deserves(p, ISSUES[j]))
            && (forall i, j :: 0 <= i < j < |findings| ==> findings[i] != findings[j])
            && SortedBySeverity(findings)
    decreases k
  {
    hide Deserves, Rank, SeverityOf, FlatMap;
    if k == 0 {
      NothingDeserved(p);
    } else {
      DeservedInOrder(p, k - 1);
      FlatMapGrow(Raised(p), ISSUES, k - 1);
      var before, f := Deserved(p, ISSUES[..k - 1]), Found(ISSUES[k - 1]);
      assert before + [] == before;
      forall i | 0 <= i < |before|
        ensures before[i] != f && Rank(before[i].severity) <= Rank(f.severity)
      {
        assert before[i] in before;
        var j :| 0 <= j < k - 1 && before[i] == Found(ISSUES[j]) && Deserves(p, ISSUES[j]);
        IssuesAreOrdered(j, k - 1);
      }
    }
  }

  lemma NothingDeserved(p: policy)
    ensures Deserved(p, ISSUES[..0]) == []
  {
  }

  // The checks of the rubric, in the order of the code; each names its severity and its penalty.

  method CheckCritical(p: policy, usesNonces: bool, usesHashes: bool, strictDyn: bool)
    returns (findings: seq<Finding>, score: int)
    requires usesNonces == UsesNonces(p) && usesHashes == UsesHashes(p) && strictDyn == StrictDynamic(p)
    ensures Stage(p, 4, findings, score)
  {
    hide *;
    CriticalRubric(p);
    findings, score := [], 100;
    StageZero(p);
    var scriptSrc := InEffect(p, "script-src");
    var b := HasKeyword(scriptSrc, "'unsafe-inline'");
    findings, score := Check(p, 0, findings, score, b && !usesNonces && !usesHashes && !strictDyn,
                             Finding(Critical, UnsafeInline), 20);
    b := HasKeyword(scriptSrc, "'unsafe-eval'");
    findings, score := Check(p, 1, findings, score, b, Finding(Critical, UnsafeEval), 20);
    b := HasWildcard(scriptSrc);
    findings, score := Check(p, 2, findings, score, b, Finding(Critical, ScriptWildcard), 20);
    b := HasKeyword(InEffect(p, "object-src"), "'none'");
    findings, score := Check(p, 3, findings, score, !b, Finding(Critical, ObjectSrcOpen), 20);
  }

  lemma CriticalRubric(p: policy)
    ensures |ISSUES| == 13
    ensures Found(ISSUES[0]) == Finding(Critical, UnsafeInline) && Found(ISSUES[1]) == Finding(Critical, UnsafeEval)
    ensures Found(ISSUES[2]) == Finding(Critical, ScriptWildcard)
    ensures Found(ISSUES[3]) == Finding(Critical, ObjectSrcOpen)
    ensures Weight(Critical) == 20
    ensures Deserves(p, ISSUES[0])
         == (AnyKeyword(InEffect(p, "script-src"), "'unsafe-inline'")
             && !UsesNonces(p) && !UsesHashes(p) && !StrictDynamic(p))
    ensures Deserves(p, ISSUES[1]) == AnyKeyword(InEffect(p, "script-src"), "'unsafe-eval'")
    ensures Deserves(p, ISSUES[2]) == AnyWildcard(InEffect(p, "script-src"))
    ensures Deserves(p, ISSUES[3]) == !AnyKeyword(InEffect(p, "object-src"), "'none'")
  {
    hide AnyKeyword, AnyWildcard, InEffect, UsesNonces, UsesHashes, StrictDynamic;
  }

  method CheckHigh(p: policy, before: seq<Finding>, start: int) returns (findings: seq<Finding>, score: int)
    requires Stage(p, 4, before, start)
    ensures Stage(p, 8, findings, score)
  {
    hide *;
    HighRubric(p);
    var hasScriptSrc := Effective(p, "script-src").Some?;
    findings, score := Check(p, 4, before, start, "default-src" !in p, Finding(High, DefaultSrcAbsent), 15);
    findings, score := Check(p, 5, findings, score, !hasScriptSrc, Finding(High, ScriptSrcAbsent), 15);
    findings, score := Check(p, 6, findings, score, "base-uri" !in p, Finding(High, BaseUriUnset), 15);
    findings, score := Check(p, 7, findings, score, "form-action" !in p, Finding(High, FormActionUnset), 15);
  }

  lemma HighRubric(p: policy)
    ensures |ISSUES| == 13
    ensures Found(ISSUES[4]) == Finding(High, DefaultSrcAbsent) && Found(ISSUES[5]) == Finding(High, ScriptSrcAbsent)
    ensures Found(ISSUES[6]) == Finding(High, BaseUriUnset) && Found(ISSUES[7]) == Finding(High, FormActionUnset)
    ensures Weight(High) == 15
    ensures Deserves(p, ISSUES[4]) == ("default-src" !in p)
    ensures Deserves(p, ISSUES[5]) == Effective(p, "script-src").None?
    ensures Deserves(p, ISSUES[6]) == ("base-uri" !in p)
    ensures Deserves(p, ISSUES[7]) == ("form-action" !in p)
  {
    hide InEffect;
  }

  method CheckMediumAndLow(p: policy, usesNonces: bool, strictDyn: bool, reportingOn: bool, before: seq<Finding>,
                           start: int)
    returns (findings: seq<Finding>, score: int)
    requires usesNonces == UsesNonces(p) && strictDyn == StrictDynamic(p) && reportingOn == Reporting(p)
    requires Stage(p, 8, before, start)
    ensures Stage(p, |ISSUES|, findings, score)
  {
    hide *;
    MediumAndLowRubric(p);
    var b := HasKeyword(InEffect(p, "script-src"), "'unsafe-hashes'");
    findings, score := Check(p, 8, before, start, "frame-ancestors" !in p, Finding(Medium, FrameAncestorsUnset), 10);
    findings, score := Check(p, 9, findings, score, b, Finding(Medium, UnsafeHashes), 10);
    findings, score := Check(p, 10, findings, score, !reportingOn, Finding(Medium, NoReporting), 10);
    findings, score := Check(p, 11, findings, score, !strictDyn && usesNonces,
                             Finding(Medium, NoncesWithoutStrictDynamic), 10);
    findings, score := Check(p, 12, findings, score, "upgrade-insecure-requests" !in p, Finding(Low, NoUpgrade), 5);
  }

  lemma MediumAndLowRubric(p: policy)
    ensures |ISSUES| == 13
    ensures Found(ISSUES[8]) == Finding(Medium, FrameAncestorsUnset)
    ensures Found(ISSUES[9]) == Finding(Medium, UnsafeHashes)
    ensures Found(ISSUES[10]) == Finding(Medium, NoReporting)
    ensures Found(ISSUES[11]) == Finding(Medium, NoncesWithoutStrictDynamic)
    ensures Found(ISSUES[12]) == Finding(Low, NoUpgrade)
    ensures Weight(Medium) == 10 && Weight(Low) == 5
    ensures Deserves(p, ISSUES[8]) == ("frame-ancestors" !in p)
    ensures Deserves(p, ISSUES[9]) == AnyKeyword(InEffect(p, "script-src"), "'unsafe-hashes'")
    ensures Deserves(p, ISSUES[10]) == !Reporting(p)
    ensures Deserves(p, ISSUES[11]) == (UsesNonces(p) && !StrictDynamic(p))
    ensures Deserves(p, ISSUES[12]) == ("upgrade-insecure-requests" !in p)
  {
    hide AnyKeyword, InEffect, UsesNonces, StrictDynamic, Reporting;
  }

  lemma StageZero(p: policy)
    ensures Stage(p, 0, [], 100)
  {
    assert ISSUES[..0] == [];
  }

  /** Exactly the deserved findings, once each, in the order of the rubric and so worst first. */
  ghost predicate Explains(p: policy, findings: seq<Finding>) {
    && findings == Deserved(p, ISSUES)
    && (forall i :: Found(i) in findings <==> Deserves(p, i))
    && (forall f :: f in findings ==> f == Found(f.issue))
    && (forall i, j :: 0 <= i < j < |findings| ==> findings[i] != findings[j])
    && SortedBySeverity(findings)
  }

  /** The analysis of a policy that is not empty: the findings are exactly the deserved ones, once each
      and in the order of the rubric; the score is what the findings weigh against the bonuses, within 0 to 100. */
  method EvaluateCsp(p: policy) returns (a: Analysis)
    ensures p == map[] ==> a == Analysis(Missing, 0, [], false, false, false, false)
    ensures p != map[] ==> Explains(p, a.findings)
    ensures p != map[] ==>
              && a.score == Clamp(100 - Penalty(a.findings) + Bonus(p))
              && a.strictness == (if a.score >= 90 then Strict else if a.score >= 60 then Moderate else Loose)
              && a.usesNonces == UsesNonces(p) && a.usesHashes == UsesHashes(p)
              && a.strictDyn == StrictDynamic(p) && a.reportingOn == Reporting(p)
  {
    hide *;
    Flags(p);
    if |p| == 0 {
      return Analysis(Missing, 0, [], false, false, false, false);
    }
    var scriptSrc := InEffect(p, "script-src");
    var usesNonces := HasNonce(scriptSrc);
    var usesHashes := HasHash(scriptSrc);
    var strictDyn := HasKeyword(scriptSrc, "'strict-dynamic'");
    var reportingOn := "report-uri" in p || "report-to" in p;
    var findings, score := CheckCritical(p, usesNonces, usesHashes, strictDyn);
    findings, score := CheckHigh(p, findings, score);
    findings, score := CheckMediumAndLow(p, usesNonces, strictDyn, reportingOn, findings, score);
    AllStages(p, findings, score);
    if usesNonces {
      score := score + 5;
    }
    if usesHashes {
      score := score + 5;
    }
    if strictDyn {
      score := score + 10;
    }
    if score > 100 {
      score := 100;
    }
    if score < 0 {
      score := 0;
    }
    var strictness := if score >= 90 then Strict else if score >= 60 then Moderate else Loose;
    SortedStays(findings);
    a := Analysis(strictness, score, SortStable(findings), usesNonces, usesHashes, strictDyn, reportingOn);
  }

  lemma Flags(p: policy)
    ensures UsesNonces(p) == AnyNonce(InEffect(p, "script-src")) && UsesHashes(p) == AnyHash(InEffect(p, "script-src"))
    ensures StrictDynamic(p) == AnyKeyword(InEffect(p, "script-src"), "'strict-dynamic'")
    ensures Reporting(p) == ("report-uri" in p || "report-to" in p)
    ensures Bonus(p) == (if UsesNonces(p) then 5 else 0) + (if UsesHashes(p) then 5 else 0)
                        + (if StrictDynamic(p) then 10 else 0)
    ensures forall score: int :: Clamp(score) == if score > 100 then 100 else if score < 0 then 0 else score
  {
    hide InEffect, AnyNonce, AnyHash, AnyKeyword;
  }

  lemma EveryIssueIsListed(i: Issue)
    ensures exists j :: 0 <= j < |ISSUES| && ISSUES[j] == i
  {
    var j := match i
      case UnsafeInline => 0
      case UnsafeEval => 1
      case ScriptWildcard => 2
      case ObjectSrcOpen => 3
      case DefaultSrcAbsent => 4
      case ScriptSrcAbsent => 5
      case BaseUriUnset => 6
      case FormActionUnset => 7
      case FrameAncestorsUnset => 8
      case UnsafeHashes => 9
      case NoReporting => 10
      case NoncesWithoutStrictDynamic => 11
      case NoUpgrade => 12;
    assert ISSUES[j] == i;
  }

  lemma AllStages(p: policy, findings: seq<Finding>, score: int)
    requires Stage(p, |ISSUES|, findings, score)
    ensures Explains(p, findings) && SortedBySeverity(findings) && score == 100 - Penalty(findings)
  {
    hide Deserves, Penalty, SortedBySeverity, SeverityOf, FlatMap;
    assert ISSUES[..|ISSUES|] == ISSUES;
    DeservedInOrder(p, |ISSUES|);
    forall i: Issue
      ensures Found(i) in findings <==> Deserves(p, i)
    {
      EveryIssueIsListed(i);
    }
  }
}
