/** Lame-delegation verdicts: a plurality vote over the SOA serials of the authoritative servers, then
    a flag per server. The vote runs over a hash map, whose iteration order Go leaves open. */
module LameDelegation {
  import opened Bytes

  datatype Reason = NotLame | Unreachable | NotAuthoritative | NoSoa | SerialMismatch(serial: u32, consensus: u32)

  datatype NsResult = NsResult(ns: string, reachable: bool, authoritative: bool, serial: u32, isLame: bool,
                               reason: Reason)

  type votes = map<u32, nat>

  predicate Votes(r: NsResult) {
    r.authoritative && r.serial > 0
  }

  /** How many servers vote for serial s. */
  function Tally(results: seq<NsResult>, s: u32): nat {
    if results == [] then 0
    else (if Votes(results[0]) && results[0].serial == s then 1 else 0) + Tally(results[1..], s)
  }

  lemma {:induction false} TallyAppend(results: seq<NsResult>, r: NsResult, s: u32)
    ensures Tally(results + [r], s) == Tally(results, s) + (if Votes(r) && r.serial == s then 1 else 0)
  {
    if results == [] {
      assert [r][1..] == [];
    } else {
      assert (results + [r])[1..] == results[1..] + [r];
      TallyAppend(results[1..], r, s);
    }
  }

  /** The map holds the tally of every serial that got a vote, and nothing else. */
  ghost predicate Counted(counts: votes, results: seq<NsResult>) {
    forall s: u32 :: (s in counts <==> Tally(results, s) > 0) && (s in counts ==> counts[s] == Tally(results, s))
  }

  /** A server votes when it answered with authority and with a serial. */
  lemma {:induction false} VotersAre(results: seq<NsResult>, s: u32)
    ensures Tally(results, s) > 0 <==>
              s > 0 && exists i :: 0 <= i < |results| && results[i].authoritative && results[i].serial == s
  {
    if results != [] {
      VotersAre(results[1..], s);
      assert forall i :: 0 < i < |results| ==> results[i] == results[1..][i - 1];
      assert forall i :: 0 <= i < |results[1..]| ==> results[1..][i] == results[i + 1];
    }
  }

  method CountVotes(results: array<NsResult>) returns (counts: votes)
    ensures Counted(counts, results[..])
    ensures forall s: u32 :: s in counts <==>
              s > 0 && exists i :: 0 <= i < results.Length && results[i].authoritative && results[i].serial == s
  {
    counts := map[];
    for i := 0 to results.Length
      invariant Counted(counts, results[..i])
    {
      var r := results[i];
      forall s: u32
        ensures Tally(results[..i + 1], s) == Tally(results[..i], s) + (if Votes(r) && r.serial == s then 1 else 0)
      {
        assert results[..i + 1] == results[..i] + [r];
        TallyAppend(results[..i], r, s);
      }
      if r.authoritative && r.serial > 0 {
        counts := counts[r.serial := (if r.serial in counts then counts[r.serial] else 0) + 1];
      }
    }
    assert results[..results.Length] == results[..];
    forall s: u32
      ensures s in counts <==>
                s > 0 && exists i :: 0 <= i < results.Length && results[i].authoritative && results[i].serial == s
    {
      VotersAre(results[..], s);
    }
  }

  // ---- The vote, under every iteration order ----

  /** An order in which a range loop may visit the map: every key once. */
  ghost predicate Visits(order: seq<u32>, counts: votes) {
    && (forall s :: s in order <==> s in counts)
    && (forall i, j :: 0 <= i < j < |order| ==> order[i] != order[j])
  }

  ghost predicate IsMaximum(counts: votes, s: u32) {
    s in counts && forall t :: t in counts ==> counts[t] <= counts[s]
  }

  /** The first maximum the order meets, or 0 when nobody voted. */
  ghost predicate FirstMaximum(counts: votes, order: seq<u32>, c: u32) {
    if order == [] then c == 0
    else exists k :: 0 <= k < |order| && order[k] == c && IsMaximum(counts, c)
                     && forall j :: 0 <= j < k ==> !IsMaximum(counts, order[j])
  }

  method Consensus(counts: votes, order: seq<u32>) returns (c: u32)
    requires Visits(order, counts)
    requires forall s :: s in counts ==> counts[s] > 0
    ensures FirstMaximum(counts, order, c)
    ensures forall d :: FirstMaximum(counts, order, d) ==> d == c
  {
    c := 0;
    var maxCount := 0;
    ghost var at := -1;
    for i := 0 to |order|
      invariant maxCount == 0 <==> i == 0
      invariant -1 <= at < i
      invariant i == 0 ==> c == 0
      invariant i > 0 ==> at >= 0 && order[at] == c && counts[c] == maxCount
      invariant forall j :: 0 <= j < i ==> counts[order[j]] <= maxCount
      invariant forall j :: 0 <= j < at ==> counts[order[j]] < maxCount
    {
      var s := order[i];
      if counts[s] > maxCount {
        c, maxCount, at := s, counts[s], i;
      }
    }
    forall d | FirstMaximum(counts, order, d)
      ensures d == c
    {
      FirstMaximumIsUnique(counts, order, c, d);
    }
  }

  lemma FirstMaximumIsUnique(counts: votes, order: seq<u32>, c: u32, d: u32)
    requires FirstMaximum(counts, order, c) && FirstMaximum(counts, order, d)
    ensures c == d
  {
    if order != [] {
      var k :| 0 <= k < |order| && order[k] == c && IsMaximum(counts, c)
                 && forall j :: 0 <= j < k ==> !IsMaximum(counts, order[j]);
      var l :| 0 <= l < |order| && order[l] == d && IsMaximum(counts, d)
                 && forall j :: 0 <= j < l ==> !IsMaximum(counts, order[j]);
    }
  }

  lemma {:induction false} SomeOrder(keys: set<u32>) returns (order: seq<u32>)
    ensures forall s :: s in order <==> s in keys
    ensures forall i, j :: 0 <= i < j < |order| ==> order[i] != order[j]
    decreases |keys|
  {
    if keys == {} {
      order := [];
    } else {
      var s :| s in keys;
      var rest := SomeOrder(keys - {s});
      order := [s] + rest;
    }
  }

  /** Every serial with the most votes can win: some iteration order meets it first. */
  lemma EveryMaximumCanWin(counts: votes, s: u32) returns (order: seq<u32>)
    requires IsMaximum(counts, s)
    ensures Visits(order, counts) && FirstMaximum(counts, order, s)
  {
    var rest := SomeOrder(counts.Keys - {s});
    order := [s] + rest;
    assert order[0] == s;
  }

  lemma {:induction false} SomeMaximum(counts: votes, order: seq<u32>, n: nat) returns (s: u32)
    requires Visits(order, counts) && 0 < n <= |order|
    ensures s in counts && forall j :: 0 <= j < n ==> counts[order[j]] <= counts[s]
  {
    if n == 1 {
      s := order[0];
    } else {
      s := SomeMaximum(counts, order, n - 1);
      if counts[order[n - 1]] > counts[s] {
        s := order[n - 1];
      }
    }
  }

  ghost predicate NoTie(counts: votes) {
    forall s, t :: IsMaximum(counts, s) && IsMaximum(counts, t) ==> s == t
  }

  /** Some iteration order makes c the consensus. */
  ghost predicate CanWin(counts: votes, c: u32) {
    exists order :: Visits(order, counts) && FirstMaximum(counts, order, c)
  }

  /** The possible consensus values are the serials with the most votes, or 0 when nobody voted. */
  lemma CanWinExactly(counts: votes, c: u32)
    ensures CanWin(counts, c) <==> if counts == map[] then c == 0 else IsMaximum(counts, c)
  {
    if CanWin(counts, c) {
      var order :| Visits(order, counts) && FirstMaximum(counts, order, c);
      if order == [] {
        assert forall s :: s in counts ==> s in order;
        assert counts == map[];
      } else {
        assert order[0] in counts;
      }
    }
    if counts == map[] && c == 0 {
      assert Visits([], counts) && FirstMaximum(counts, [], 0);
    } else if IsMaximum(counts, c) {
      var order := EveryMaximumCanWin(counts, c);
    }
  }

  /** The consensus is a function of the votes, whatever the iteration order, iff no two serials tie
      for the most votes. */
  lemma OrderFreeIffNoTie(counts: votes)
    ensures (forall c, d :: CanWin(counts, c) && CanWin(counts, d) ==> c == d) <==> NoTie(counts)
  {
    hide CanWin;
    forall c: u32
      ensures CanWin(counts, c) <==> if counts == map[] then c == 0 else IsMaximum(counts, c)
    {
      CanWinExactly(counts, c);
    }
  }

  // ---- Flagging ----

  function Verdict(r: NsResult, consensus: u32): Reason {
    if !r.reachable then Unreachable
    else if !r.authoritative then NotAuthoritative
    else if r.serial == 0 then NoSoa
    else if consensus != 0 && r.serial != consensus then SerialMismatch(r.serial, consensus)
    else NotLame
  }

  /** The probes leave the flag and the reason unset. */
  predicate Unflagged(r: NsResult) {
    !r.isLame && r.reason == NotLame
  }

  method FlagLame(results: array<NsResult>, range: votes -> seq<u32>) returns (consensus: u32)
    requires forall m :: Visits(range(m), m)
    requires forall i :: 0 <= i < results.Length ==> Unflagged(results[i])
    modifies results
    ensures exists counts :: Counted(counts, old(results[..])) && FirstMaximum(counts, range(counts), consensus)
    ensures forall i :: 0 <= i < results.Length ==>
              var was := old(results[i]);
              results[i] == was.(isLame := Verdict(was, consensus) != NotLame, reason := Verdict(was, consensus))
    ensures forall i :: 0 <= i < results.Length ==>
              var was, now := old(results[i]), results[i];
              && (now.reason == Unreachable <==> !was.reachable)
              && (now.reason == NotAuthoritative <==> was.reachable && !was.authoritative)
              && (now.reason == NoSoa <==> was.reachable && was.authoritative && was.serial == 0)
              && (now.isLame <==> !was.reachable || !was.authoritative || was.serial == 0
                                  || (consensus != 0 && was.serial != consensus))
  {
    var counts := CountVotes(results);
    consensus := Consensus(counts, range(counts));
    for i := 0 to results.Length
      invariant forall j :: i <= j < results.Length ==> results[j] == old(results[j])
      invariant forall j :: 0 <= j < i ==>
                  var was := old(results[j]);
                  results[j] == was.(isLame := Verdict(was, consensus) != NotLame, reason := Verdict(was, consensus))
    {
      var r := results[i];
      if !r.reachable {
        results[i] := r.(isLame := true, reason := Unreachable);
      } else if !r.authoritative {
        results[i] := r.(isLame := true, reason := NotAuthoritative);
      } else if r.serial == 0 {
        results[i] := r.(isLame := true, reason := NoSoa);
      } else if consensus != 0 && r.serial != consensus {
        results[i] := r.(isLame := true, reason := SerialMismatch(r.serial, consensus));
      }
    }
  }

  predicate Healthy(r: NsResult) {
    r.reachable && r.authoritative && r.serial != 0
  }

  lemma {:induction false} VoteIsTallied(results: seq<NsResult>, s: u32)
    ensures Tally(results, s) > 0 <==> exists r :: r in results && Votes(r) && r.serial == s
  {
    if results != [] {
      VoteIsTallied(results[1..], s);
      assert results == [results[0]] + results[1..];
    }
  }

  /** A server that answers with authority is cleared under some order iff its serial has the most
      votes, and under every order iff in addition no other serial has as many. */
  lemma WhoIsCleared(results: seq<NsResult>, counts: votes, r: NsResult)
    requires Counted(counts, results) && r in results && Healthy(r)
    ensures (exists c :: CanWin(counts, c) && Verdict(r, c) == NotLame) <==> IsMaximum(counts, r.serial)
    ensures (forall c :: CanWin(counts, c) ==> Verdict(r, c) == NotLame)
       <==> IsMaximum(counts, r.serial) && NoTie(counts)
    ensures forall c :: CanWin(counts, c) && Verdict(r, c) != NotLame ==>
                          c != r.serial && Verdict(r, c) == SerialMismatch(r.serial, c)
  {
    hide CanWin, Tally;
    VoteIsTallied(results, r.serial);
    assert r.serial in counts;
    forall c: u32
      ensures CanWin(counts, c) <==> IsMaximum(counts, c)
      ensures c in counts ==> c != 0
    {
      CanWinExactly(counts, c);
      VoteIsTallied(results, c);
    }
    var order := SomeOrder(counts.Keys);
    assert r.serial in order;
    var top := SomeMaximum(counts, order, |order|);
    assert CanWin(counts, top) && top in counts;
    assert Verdict(r, r.serial) == NotLame;
  }
}
