/** The rubric as the comment above the scoring function lists it, item by item, and when the code charges
    the same. */
module CspRubric {
  import opened Counting
  import opened Csp
  import opened Text

  /** What some issues cost together. */
  function Charge(owed: Issue -> bool, issues: seq<Issue>): nat {
    if issues == [] then 0
    else (if owed(issues[0]) then Weight(SeverityOf(issues[0])) else 0) + Charge(owed, issues[1..])
  }

  lemma {:induction false} PenaltyIsCharge(p: policy, issues: seq<Issue>)
    ensures Penalty(Deserved(p, issues)) == Charge(i => Deserves(p, i), issues)
    decreases issues
  {
    hide Deserves, Weight, SeverityOf;
    if issues != [] {
      PenaltyIsCharge(p, issues[1..]);
      var rest := Deserved(p, issues[1..]);
      assert Deserved(p, issues) == (if Deserves(p, issues[0]) then [Found(issues[0])] else []) + rest;
      if Deserves(p, issues[0]) {
        assert ([Found(issues[0])] + rest)[1..] == rest;
      } else {
        assert [] + rest == rest;
      }
    }
  }

  predicate IsStar(s: string) {
    ToLower(TrimSpace(s)) == "*"
  }

  predicate IsDataOrBlob(s: string) {
    ToLower(TrimSpace(s)) in {"data:", "blob:"}
  }

  predicate IsHttp(s: string) {
    ToLower(TrimSpace(s)) == "http:"
  }

  predicate AnyStar(sources: seq<string>) { exists s :: s in sources && IsStar(s) }

  predicate AnyDataOrBlob(sources: seq<string>) { exists s :: s in sources && IsDataOrBlob(s) }

  predicate HttpAnywhere(p: policy) {
    exists name :: name in p && exists s :: s in p[name] && IsHttp(s)
  }

  predicate UnsafeInlineListed(p: policy) {
    AnyKeyword(InEffect(p, "script-src"), "'unsafe-inline'")
  }

  /** The code excuses unsafe-inline beside a nonce, a hash or strict-dynamic. */
  predicate Excused(p: policy) {
    UsesNonces(p) || UsesHashes(p) || StrictDynamic(p)
  }

  /** The items of the comment for which the code has an issue. Three of them it words otherwise:
      unsafe-inline has no excuse, the wildcard is the bare star, and strict-dynamic is missed with or
      without nonces. */
  predicate Promised(p: policy, i: Issue) {
    match i
    case UnsafeInline => UnsafeInlineListed(p)
    case ScriptWildcard => AnyStar(InEffect(p, "script-src"))
    case NoncesWithoutStrictDynamic => !StrictDynamic(p)
    case _ => Deserves(p, i)
  }

  /** The penalty by the comment for a document of an HTTPS or another origin. Three items have no issue of
      their own in the code: data: or blob: among the scripts, http: in any directive on an HTTPS origin,
      and block-all-mixed-content. */
  function PromisedPenalty(p: policy, https: bool): nat {
    Charge(i => Promised(p, i), ISSUES)
      + 20 * Bit(AnyDataOrBlob(InEffect(p, "script-src"))) + 20 * Bit(https && HttpAnywhere(p))
      + 5 * Bit("block-all-mixed-content" !in p)
  }

  /** How many items the comment charges where the code has its one charge for wildcards or none at all. */
  function Counted(p: policy, https: bool): nat {
    Bit(AnyStar(InEffect(p, "script-src"))) + Bit(AnyDataOrBlob(InEffect(p, "script-src")))
      + Bit(https && HttpAnywhere(p)) + Bit(UnsafeInlineListed(p) && Excused(p))
  }

  predicate NoRepeats(issues: seq<Issue>) {
    forall k, l :: 0 <= k < l < |issues| ==> issues[k] != issues[l]
  }

  /** Occurrences of an issue in a list. */
  function Times(i: Issue, issues: seq<Issue>): nat {
    if issues == [] then 0 else Bit(issues[0] == i) + Times(i, issues[1..])
  }

  lemma {:induction false} TimesOne(i: Issue, issues: seq<Issue>)
    requires NoRepeats(issues)
    ensures Times(i, issues) == Bit(i in issues)
  {
    if issues != [] {
      var rest := issues[1..];
      assert issues == [issues[0]] + rest && forall k :: 0 <= k < |rest| ==> rest[k] == issues[k + 1];
      TimesOne(i, rest);
    }
  }

  lemma {:induction false} ChargesDifferBy(f: Issue -> bool, g: Issue -> bool, issues: seq<Issue>)
    requires forall i :: i !in {UnsafeInline, ScriptWildcard, NoncesWithoutStrictDynamic} ==> f(i) == g(i)
    ensures var u, w, n := Times(UnsafeInline, issues), Times(ScriptWildcard, issues),
                           Times(NoncesWithoutStrictDynamic, issues);
            u <= 1 && w <= 1 && n <= 1 ==>
              Charge(f, issues)
                + (if u == 1 then 20 * Bit(g(UnsafeInline)) else 0)
                + (if w == 1 then 20 * Bit(g(ScriptWildcard)) else 0)
                + (if n == 1 then 10 * Bit(g(NoncesWithoutStrictDynamic)) else 0)
              == Charge(g, issues)
                + (if u == 1 then 20 * Bit(f(UnsafeInline)) else 0)
                + (if w == 1 then 20 * Bit(f(ScriptWildcard)) else 0)
                + (if n == 1 then 10 * Bit(f(NoncesWithoutStrictDynamic)) else 0)
    decreases issues
  {
    if issues != [] {
      ChargesDifferBy(f, g, issues[1..]);
    }
  }

  /** Two rubrics that differ on three issues at most, over a list that has each of them once. */
  lemma ChargesDiffer(f: Issue -> bool, g: Issue -> bool, issues: seq<Issue>)
    requires forall i :: i !in {UnsafeInline, ScriptWildcard, NoncesWithoutStrictDynamic} ==> f(i) == g(i)
    requires NoRepeats(issues)
    requires UnsafeInline in issues && ScriptWildcard in issues && NoncesWithoutStrictDynamic in issues
    ensures Charge(f, issues) + 20 * (Bit(g(UnsafeInline)) + Bit(g(ScriptWildcard)))
              + 10 * Bit(g(NoncesWithoutStrictDynamic))
         == Charge(g, issues) + 20 * (Bit(f(UnsafeInline)) + Bit(f(ScriptWildcard)))
              + 10 * Bit(f(NoncesWithoutStrictDynamic))
  {
    hide Charge, Times, NoRepeats;
    ChargesDifferBy(f, g, issues);
    TimesOne(UnsafeInline, issues);
    TimesOne(ScriptWildcard, issues);
    TimesOne(NoncesWithoutStrictDynamic, issues);
  }

  lemma RubricHasNoRepeats()
    ensures NoRepeats(ISSUES)
    ensures UnsafeInline in ISSUES && ScriptWildcard in ISSUES && NoncesWithoutStrictDynamic in ISSUES
  {
    forall k, l | 0 <= k < l < |ISSUES|
      ensures ISSUES[k] != ISSUES[l]
    {
      IssuesAreOrdered(k, l);
    }
    assert ISSUES[0] == UnsafeInline && ISSUES[2] == ScriptWildcard && ISSUES[11] == NoncesWithoutStrictDynamic;
  }

  /** The code charges what the comment says exactly when mixed content is blocked, strict-dynamic or nonces
      are used, and the comment counts one of its four items when the script list has a wildcard or a
      scheme source, and none otherwise. It charges more exactly when that list has one and the comment
      counts none, as for https: alone. */
  lemma ChargedAsPromised(p: policy, https: bool)
    ensures var wild := Bit(AnyWildcard(InEffect(p, "script-src")));
            && (Penalty(Deserved(p, ISSUES)) == PromisedPenalty(p, https) <==>
                  && "block-all-mixed-content" in p && (StrictDynamic(p) || UsesNonces(p))
                  && Counted(p, https) == wild)
            && (Penalty(Deserved(p, ISSUES)) > PromisedPenalty(p, https) <==> Counted(p, https) < wild)
  {
    hide Charge, Penalty, Deserved, AnyStar, AnyDataOrBlob, HttpAnywhere, UnsafeInlineListed, Excused;
    PenaltyIsCharge(p, ISSUES);
    var f, g := (i: Issue) => Deserves(p, i), (i: Issue) => Promised(p, i);
    forall i: Issue
      ensures i !in {UnsafeInline, ScriptWildcard, NoncesWithoutStrictDynamic} ==> f(i) == g(i)
    {
    }
    RubricHasNoRepeats();
    hide NoRepeats;
    ChargesDiffer(f, g, ISSUES);
    WhatDiffers(p);
    hide Deserves, Promised, AnyWildcard, AnyKeyword, InEffect, UsesNonces, UsesHashes, StrictDynamic;
  }

  lemma WhatDiffers(p: policy)
    ensures Deserves(p, UnsafeInline) == (UnsafeInlineListed(p) && !Excused(p))
    ensures Deserves(p, ScriptWildcard) == AnyWildcard(InEffect(p, "script-src"))
    ensures Deserves(p, NoncesWithoutStrictDynamic) == (UsesNonces(p) && !StrictDynamic(p))
    ensures Promised(p, UnsafeInline) == UnsafeInlineListed(p)
    ensures Promised(p, ScriptWildcard) == AnyStar(InEffect(p, "script-src"))
    ensures Promised(p, NoncesWithoutStrictDynamic) == !StrictDynamic(p)
  {
    hide AnyKeyword, AnyWildcard, AnyStar, InEffect, UsesNonces, UsesHashes, StrictDynamic;
  }
}
